/** The driver's side of the semaphore protocol (e1000_80003es2lan.c, e1000_mac.c) and the accessors that use it.

    The driver is agent 'id' of a run of the protocol: 'world' holds the registers and all parties, each access of the
    driver is the next step of its agent, and before it the others do what the function 'others' says. */
module Esb2 {
  import opened Bytes
  import opened SwFw
  import opened SwFwOthers

  const EEP_SM: Res := 0
  const CSR_SM: Res := 3

  const GRANT_ATTEMPTS := 1000
  const PAGE_SELECT := 22
  const PAGE_SELECT_ALT := 29
  const MIN_ALT_REG := 30

  // --- The PHY behind MDIC --------------------------------------------------------------------------

  // A transaction completes, is lost though reported complete, or is reported as failed.
  datatype Mdic = Good | Lost | Error(effect: bool)

  predicate Effective(m: Mdic) { m.Good? || (m.Error? && m.effect) }

  datatype Phy = Phy(page: u16, alt: u16, store: map<(nat, nat), u16>)

  // Registers 30 and 31 have a page select of their own.
  function PageFor(p: Phy, reg: nat): u16 { if reg >= MIN_ALT_REG then p.alt else p.page }

  function SelectFor(reg: nat): nat { if reg >= MIN_ALT_REG then PAGE_SELECT_ALT else PAGE_SELECT }

  function Stored(p: Phy, page: nat, reg: nat): u16 { if (page, reg) in p.store then p.store[(page, reg)] else 0 }

  function PhyRead(p: Phy, reg: nat): u16 {
    if reg == PAGE_SELECT then p.page else if reg == PAGE_SELECT_ALT then p.alt else Stored(p, PageFor(p, reg), reg)
  }

  function PhyWrite(p: Phy, reg: nat, v: u16): Phy {
    if reg == PAGE_SELECT then p.(page := v)
    else if reg == PAGE_SELECT_ALT then p.(alt := v)
    else p.(store := p.store[(PageFor(p, reg) as nat, reg) := v])
  }

  // An offset names a page and a register.
  function PageOf(offset: nat): u16 { offset % 0x1_0000 / 32 }

  function RegOf(offset: nat): nat { offset % 32 }

  // --- What an access of three transactions does -------------------------------------------------------

  function AfterSelect(p: Phy, offset: nat, select: Mdic): Phy {
    if Effective(select) then PhyWrite(p, SelectFor(RegOf(offset)), PageOf(offset)) else p
  }

  // The code takes the page for selected.  A failed read-back leaves the variable it is compared with as it was,
  // so it does not count against the selection.
  predicate TakenForSelected(p: Phy, offset: nat, select: Mdic, readBack: Mdic) {
    !select.Error? && (select.Good? || readBack.Error? || PageFor(p, RegOf(offset)) == PageOf(offset))
  }

  // The access reports success.
  predicate Reported(p: Phy, offset: nat, select: Mdic, readBack: Mdic, access: Mdic) {
    TakenForSelected(p, offset, select, readBack) && !access.Error?
  }

  function AfterWrite(p: Phy, offset: nat, data: u16, select: Mdic, readBack: Mdic, access: Mdic): Phy {
    if TakenForSelected(p, offset, select, readBack) && Effective(access)
    then PhyWrite(AfterSelect(p, offset, select), RegOf(offset), data)
    else AfterSelect(p, offset, select)
  }

  // --- When a reported success is on the register it names -------------------------------------------------

  // The offset of a register of a page.  Bits above the sixteenth are not looked at.
  function Offset(high: nat, page: nat, reg: nat): nat { 0x1_0000 * high + 32 * page + reg }

  // A page has 32 registers, two of which select the page.
  predicate Named(page: nat, reg: nat) {
    page < 2048 && reg < 32 && reg != 22 && reg != 29
  }

  lemma OffsetNames(high: nat, page: nat, reg: nat)
    requires page < 2048 && reg < 32
    ensures PageOf(Offset(high, page, reg)) == page && RegOf(Offset(high, page, reg)) == reg
  {
    var low := 32 * page + reg;
    assert Offset(high, page, reg) % 0x1_0000 == low by {
      LowHalf(high, low);
    }
    LowFive(2048 * high + page, reg);
    LowFive(page, reg);
  }

  lemma LowHalf(high: nat, low: nat)
    requires low < 0x1_0000
    ensures (0x1_0000 * high + low) % 0x1_0000 == low
  {
  }

  lemma LowFive(high: nat, low: nat)
    requires low < 32
    ensures (32 * high + low) % 32 == low && (32 * high + low) / 32 == high
  {
  }

  // The write did what it was for: the named register holds the data and no other has changed.
  predicate Wrote(p: Phy, p': Phy, page: nat, reg: nat, data: u16) {
    p'.store == p.store[(page, reg) := data]
  }

  // The selection was lost, nobody saw it, and the PHY was on another page.
  predicate Misled(p: Phy, page: nat, reg: nat, select: Mdic, readBack: Mdic) {
    select.Lost? && readBack.Error? && PageFor(p, reg) != page
  }

  // A reported write does what it is for, whatever the data, if and only if the write itself was not lost and the
  // driver was not misled about the page.
  lemma WritesNamedExactly(p: Phy, high: nat, page: nat, reg: nat, select: Mdic, readBack: Mdic, access: Mdic)
    requires Named(page, reg) && Reported(p, Offset(high, page, reg), select, readBack, access)
    ensures (forall data: u16 ::
               Wrote(p, AfterWrite(p, Offset(high, page, reg), data, select, readBack, access), page, reg, data))
       <==> access.Good? && !Misled(p, page, reg, select, readBack)
  {
    OffsetNames(high, page, reg);
    hide PageOf, RegOf, Offset;
    if access.Good? && !Misled(p, page, reg, select, readBack) {
    } else {
      var data: u16 := if Stored(p, page, reg) == 0 then 1 else 0;
      var p' := AfterWrite(p, Offset(high, page, reg), data, select, readBack, access);
      assert (page, reg) in p'.store ==> p'.store[(page, reg)] == Stored(p, page, reg);
      assert !Wrote(p, p', page, reg, data);
    }
  }

  // A reported read returns the register it names, whatever the registers hold, if and only if the driver was not
  // misled about the page.
  lemma ReadsNamedExactly(p: Phy, high: nat, page: nat, reg: nat, select: Mdic, readBack: Mdic, access: Mdic)
    requires Named(page, reg) && Reported(p, Offset(high, page, reg), select, readBack, access)
    ensures (forall store :: var q := Phy(p.page, p.alt, store);
              PhyRead(AfterSelect(q, Offset(high, page, reg), select), reg) == Stored(q, page, reg))
       <==> !Misled(p, page, reg, select, readBack)
  {
    OffsetNames(high, page, reg);
    hide PageOf, RegOf, Offset;
    if Misled(p, page, reg, select, readBack) {
      var q := Phy(p.page, p.alt, map[(page, reg) := 1]);
      assert PhyRead(AfterSelect(q, Offset(high, page, reg), select), reg) == 0 && Stored(q, page, reg) == 1;
    }
  }

  // Without a fault a write stores the data in the register named and nowhere else, and a read of the same offset then
  // returns it.  Registers 30 and 31 leave the page of the others as it was, and these leave theirs.
  lemma FaultFree(p: Phy, high: nat, page: nat, reg: nat, data: u16)
    requires Named(page, reg)
    ensures var offset := Offset(high, page, reg);
      var p' := AfterWrite(p, offset, data, Good, Good, Good);
      && Reported(p, offset, Good, Good, Good) && Reported(p', offset, Good, Good, Good)
      && p'.store == p.store[(page, reg) := data]
      && p'.page == (if reg < 30 then page else p.page) && p'.alt == (if reg < 30 then p.alt else page)
      && PhyRead(AfterSelect(p', offset, Good), RegOf(offset)) == data
  {
    OffsetNames(high, page, reg);
    hide PageOf, RegOf, Offset;
  }

  lemma SelectKeepsStore(p: Phy, offset: nat, select: Mdic)
    ensures AfterSelect(p, offset, select).store == p.store
  {
  }

  // Register 1 of page 5 is written, success is reported, and register 1 of page 0 has changed.
  lemma WrongRegisterWritten(p: Phy, offset: nat, data: u16)
    requires p == Phy(0, 0, map[]) && offset == 5 * 32 + 1
    ensures Reported(p, offset, Lost, Error(false), Good)
    ensures AfterWrite(p, offset, data, Lost, Error(false), Good).store == map[(0, 1) := data]
  {
  }

  // The call that has come to 'pc' began at 'start'.
  ghost predicate Began(start: Pc, pc: Pc) {
    match pc
    case Idle(Fresh) => true
    case Idle(Succeeded(goal)) => start == PollSmbi(goal, 0, 0)
    case Idle(Failed(goal)) => start == PollSmbi(goal, 0, 0)
    case _ => start == PollSmbi(pc.goal, 0, 0)
  }

  lemma TraceGrows(timeout: nat, regs: seq<Regs>, own: seq<Agent>, r: Regs)
    requires Trace(timeout, regs, own) && !own[|regs|].pc.Idle? && Began(own[0].pc, own[|regs|].pc)
    ensures var a := Next(timeout, r, own[|regs|]).1;
      |own| == |regs| + 1 && Trace(timeout, regs + [r], own + [a]) && Began(own[0].pc, a.pc)
  {
    var a := Next(timeout, r, own[|regs|]).1;
    hide Next;
    forall k | 0 <= k < |regs| + 1
      ensures !(own + [a])[k].pc.Idle? && (own + [a])[k + 1] == Next(timeout, (regs + [r])[k], (own + [a])[k]).1
    {
      assert k < |regs| ==> own[k + 1] == Next(timeout, regs[k], own[k]).1;
    }
  }

  lemma TraceBegins(timeout: nat, a: Agent)
    requires a.pc.PollSmbi? ==> a.pc == PollSmbi(a.pc.goal, 0, 0)
    requires a.pc.PollSmbi? || a.pc == Idle(Fresh)
    ensures Trace(timeout, [], [a]) && Began(a.pc, a.pc)
  {
  }

  class Driver {
    const timeout: nat
    const id: nat
    const phySm: Res
    const others: Others
    const mdic: nat -> Mdic
    const granted: nat -> bool

    var world: State
    var clock: nat
    var transactions: nat
    var looks: nat
    var phy: Phy
    var request: bool
    var kmrn: map<nat, u16>

    // The driver's current or last call: the registers it found at each access, and its agent before each and after.
    ghost var seen: seq<Regs>
    ghost var mine: seq<Agent>

    constructor (timeout: nat, id: nat, phySm: Res, others: Others, mdic: nat -> Mdic, granted: nat -> bool,
                 world: State, phy: Phy)
      requires timeout > 0 && phySm != EEP_SM && phySm != CSR_SM && Start(world) && id < |world.agents|
      ensures Valid() && Me() == Agent(Idle(Fresh), {}, {})
      ensures this.timeout == timeout && this.id == id && this.phySm == phySm && this.others == others
      ensures this.mdic == mdic && this.granted == granted && this.phy == phy && this.world == world
      ensures transactions == 0
    {
      this.timeout, this.id, this.phySm, this.others := timeout, id, phySm, others;
      this.mdic, this.granted, this.world, this.phy := mdic, granted, world, phy;
      clock, transactions, looks, request, kmrn := 0, 0, 0, false, map[];
      seen, mine := [], [world.agents[id]];
      StartReachable(timeout, world);
    }

    // The world is a state of a run of the protocol, and the driver's call is recorded.
    ghost predicate OnTrack()
      reads this
    {
      && timeout > 0 && id < |world.agents| && Reachable(timeout, world)
      && Trace(timeout, seen, mine) && mine[|seen|] == Me() && Began(mine[0].pc, Me().pc)
    }

    // Between calls.
    ghost predicate Valid()
      reads this
    {
      OnTrack() && Me().pc.Idle? && phySm != EEP_SM && phySm != CSR_SM
    }

    function Me(): Agent
      reads this
      requires id < |world.agents|
    {
      world.agents[id]
    }

    // The semaphore is not contended for ever.
    ghost predicate Opening() { Opens(timeout, id, others) }

    // What the driver holds, nobody else does: no agent, and not the firmware.
    lemma HeldAlone()
      requires OnTrack()
      ensures Me().held <= world.regs.sync.sw && Me().held !! world.fwHeld
      ensures forall j :: 0 <= j < |world.agents| && j != id ==> Me().held !! world.agents[j].held
    {
      ReachableInv(timeout, world);
      assert AgentOk(world.regs, Me());
      forall j | 0 <= j < |world.agents| && j != id ensures Me().held !! world.agents[j].held {
        if j < id {
          assert world.agents[j].held !! world.agents[id].held;
        }
      }
    }

    // --- Register accesses: each is the agent's next step -----------------------------------------------

    // The others do what they do, and then the driver makes its access; r is the registers it finds.
    method Step() returns (r: Regs)
      requires OnTrack() && !Me().pc.Idle?
      modifies `world, `clock, `seen, `mine
      ensures OnTrack() && clock == old(clock) + 1
      ensures (world.regs, Me()) == Next(timeout, r, old(Me()))
      ensures Leaves(timeout, id, others, old(clock)) ==> !r.fwesmbi && (Inside(old(Me())) || !r.smbi)
      ensures Inside(old(Me())) && old(world.regs.swesmbi) ==> r == old(world.regs)
      ensures old(Me().pc.goal.Take?) ==> Left(timeout, Me().pc) < old(Left(timeout, Me().pc))
    {
      hide Trace, Began, Leaves, Left, Reachable, Inv;
      FoundByAgent(timeout, id, others, clock, world);
      world := Moved(timeout, id, world, others(clock, world));
      r := world.regs;
      ReachableStep(timeout, world, Access(id));
      if Me().pc.goal.Take? {
        LeftDecreases(timeout, r, Me());
      }
      world := Apply(timeout, world, Access(id));
      clock := clock + 1;
      TraceGrows(timeout, seen, mine, r);
      seen, mine := seen + [r], mine + [Me()];
    }

    method ReadSwsm() returns (smbi: bool, swesmbi: bool, ghost r: Regs)
      requires OnTrack() && (Me().pc.PollSmbi? || Me().pc.ReadLatch? || Me().pc.CheckLatch? || Me().pc.PutRead?)
      modifies `world, `clock, `seen, `mine
      ensures OnTrack() && clock == old(clock) + 1
      ensures (world.regs, Me()) == Next(timeout, r, old(Me())) && smbi == r.smbi && swesmbi == r.swesmbi
      ensures old(Me().pc.PollSmbi?) && Leaves(timeout, id, others, old(clock)) ==> !smbi
      ensures Inside(old(Me())) && old(world.regs.swesmbi) ==> swesmbi
      ensures old(Me().pc.goal.Take?) ==> Left(timeout, Me().pc) < old(Left(timeout, Me().pc))
    {
      var found := Step();
      r := found;
      smbi, swesmbi := found.smbi, found.swesmbi;
    }

    // The driver writes what the protocol's step writes.
    method WriteSwsm(smbi: bool, swesmbi: bool)
      requires OnTrack()
      requires (Me().pc.WriteLatch? && swesmbi && smbi == Me().pc.smbi) || (Me().pc.PutWrite? && !smbi && !swesmbi)
      modifies `world, `clock, `seen, `mine
      ensures OnTrack() && clock == old(clock) + 1
      ensures exists r: Regs :: (world.regs, Me()) == Next(timeout, r, old(Me()))
      ensures old(Me().pc.WriteLatch?) && Leaves(timeout, id, others, old(clock)) ==> world.regs.swesmbi
      ensures old(Me().pc.goal.Take?) ==> Left(timeout, Me().pc) < old(Left(timeout, Me().pc))
    {
      var r := Step();
    }

    method ReadSyncReg() returns (s: Sync)
      requires OnTrack() && Me().pc.ReadSync?
      modifies `world, `clock, `seen, `mine
      ensures OnTrack() && clock == old(clock) + 1
      ensures exists r: Regs :: s == r.sync && (world.regs, Me()) == Next(timeout, r, old(Me()))
      ensures old(Me().pc.goal.Take?) ==> Left(timeout, Me().pc) < old(Left(timeout, Me().pc))
    {
      var r := Step();
      s := r.sync;
    }

    method WriteSyncReg(s: Sync)
      requires OnTrack() && Me().pc.WriteSync? && s == Requested(Me().pc.goal, Me().pc.local)
      modifies `world, `clock, `seen, `mine
      ensures OnTrack() && clock == old(clock) + 1
      ensures world.regs.sync == s
      ensures exists r: Regs :: (world.regs, Me()) == Next(timeout, r, old(Me()))
      ensures old(Me().pc.goal.Take?) ==> Left(timeout, Me().pc) < old(Left(timeout, Me().pc))
    {
      var r := Step();
    }

    // --- e1000_mac.c ------------------------------------------------------------------------------------------

    method PutHwSemaphore()
      requires OnTrack() && Me().pc.PutRead?
      modifies `world, `clock, `seen, `mine
      ensures OnTrack() && clock == old(clock) + 2
      ensures Me() == old(Me()).(pc := AfterPut(old(Me().pc.goal), old(Me().pc.i), old(Me().pc.why)))
      ensures old(Me().pc.goal.Take?) ==> Left(timeout, Me().pc) + clock <= old(Left(timeout, Me().pc) + clock)
    {
      ghost var r;
      var smbi, swesmbi;
      smbi, swesmbi, r := ReadSwsm();
      WriteSwsm(false, false);
    }

    // Waits for SMBI, then for SWESMBI to latch; on a timeout of the second it puts back the first.  An attempt that
    // starts no later than a quiet time succeeds in it or is over when it begins, but for the putting back.
    method GetHwSemaphore(ghost u: nat) returns (ok: bool)
      requires OnTrack() && Me().pc.PollSmbi? && Me().pc.n == 0
      modifies `world, `clock, `seen, `mine
      ensures OnTrack() && clock > old(clock)
      ensures Me() == old(Me()).(pc := if ok then ReadSync(old(Me().pc.goal), old(Me().pc.i))
                                       else NotGot(old(Me().pc.goal)))
      ensures !ok && Quiet(timeout, id, others, u) && old(clock) <= u + 3 ==> clock <= u + 3
      ensures old(Me().pc.goal.Take?) ==> Left(timeout, Me().pc) + clock <= old(Left(timeout, Me().pc) + clock)
    {
      ok := false;
      var i := 0;
      while i < timeout && !ok
        invariant 0 <= i <= timeout && OnTrack() && (ok ==> i < timeout)
        invariant clock == old(clock) + i + if ok then 1 else 0
        invariant Me() == old(Me()).(pc := if ok then ReadLatch(old(Me().pc.goal), old(Me().pc.i), 0)
                                           else if i < timeout then PollSmbi(old(Me().pc.goal), old(Me().pc.i), i)
                                           else NotGot(old(Me().pc.goal)))
        invariant Quiet(timeout, id, others, u) && old(clock) <= u + 3 ==>
                    clock <= (if ok then u + 4 else if i > 0 then u else u + 3)
        invariant old(Me().pc.goal.Take?) ==> Left(timeout, Me().pc) + clock <= old(Left(timeout, Me().pc) + clock)
        decreases timeout - i, !ok
      {
        ghost var r;
        var smbi, swesmbi;
        smbi, swesmbi, r := ReadSwsm();
        if smbi {
          i := i + 1;
        } else {
          ok := true;
        }
      }
      if ok {
        ok := LatchFirmwareSide(u);
      }
    }

    method LatchFirmwareSide(ghost u: nat) returns (ok: bool)
      requires OnTrack() && Me().pc.ReadLatch? && Me().pc.n == 0
      modifies `world, `clock, `seen, `mine
      ensures OnTrack() && clock > old(clock)
      ensures Me() == old(Me()).(pc := if ok then ReadSync(old(Me().pc.goal), old(Me().pc.i))
                                       else NotGot(old(Me().pc.goal)))
      ensures !ok && Quiet(timeout, id, others, u) && old(clock) <= u + 4 ==> clock <= u + 3
      ensures old(Me().pc.goal.Take?) ==> Left(timeout, Me().pc) + clock <= old(Left(timeout, Me().pc) + clock)
    {
      var i := 0;
      ok := false;
      while i < timeout && !ok
        invariant 0 <= i <= timeout && OnTrack() && clock >= old(clock) && (i > 0 || ok ==> clock > old(clock))
        invariant Me() == old(Me()).(pc := if ok then ReadSync(old(Me().pc.goal), old(Me().pc.i))
                                           else if i < timeout then ReadLatch(old(Me().pc.goal), old(Me().pc.i), i)
                                           else PutRead(old(Me().pc.goal), old(Me().pc.i), GaveUp))
        invariant !ok && Quiet(timeout, id, others, u) && old(clock) <= u + 4 ==>
          clock <= if i > 0 then u + 1 else u + 4
        invariant old(Me().pc.goal.Take?) ==> Left(timeout, Me().pc) + clock <= old(Left(timeout, Me().pc) + clock)
        decreases timeout - i, !ok
      {
        ok := TryLatch();
        if !ok {
          i := i + 1;
        }
      }
      if !ok {
        PutHwSemaphore();
      }
    }

    // One round: read, write SWESMBI, and look whether it latched.
    method TryLatch() returns (ok: bool)
      requires OnTrack() && Me().pc.ReadLatch?
      modifies `world, `clock, `seen, `mine
      ensures OnTrack() && clock == old(clock) + 3
      ensures var goal, i, n := old(Me().pc.goal), old(Me().pc.i), old(Me().pc.n);
        Me() == old(Me()).(pc := if ok then ReadSync(goal, i)
                                 else if n + 1 < timeout then ReadLatch(goal, i, n + 1) else PutRead(goal, i, GaveUp))
      ensures Leaves(timeout, id, others, old(clock) + 1) ==> ok
      ensures old(Me().pc.goal.Take?) ==> Left(timeout, Me().pc) + clock <= old(Left(timeout, Me().pc) + clock)
    {
      ghost var r;
      var smbi, swesmbi;
      smbi, swesmbi, r := ReadSwsm();
      WriteSwsm(smbi, true);
      smbi, ok, r := ReadSwsm();
    }

    // --- e1000_80003es2lan.c --------------------------------------------------------------------------------------

    // Takes all of the mask or nothing, in a bounded number of accesses, whatever the others do.
    method AcquireSwFw(mask: set<Res>) returns (ok: bool)
      requires Valid() && mask != {}
      modifies `world, `clock, `seen, `mine
      ensures Valid()
      ensures Me() == Agent(Idle(if ok then Succeeded(Take(mask)) else Failed(Take(mask))),
                            if ok then old(Me().held) + mask else old(Me().held), old(Me().held))
      ensures clock - old(clock) <= 50 * (4 * timeout + 8)
      // It succeeds exactly when it sees the mask free, which ends it; else it has seen the mask taken fifty times, or
      // could not get the hardware semaphore.
      ensures var seenSyncs := Looks(seen, mine, |seen|);
        && (ok <==> FreeAtLast(mask, seenSyncs)) && (!ok <==> AllTaken(mask, seenSyncs))
        && |seenSyncs| <= 50
        && (!ok ==> |seenSyncs| == 50 || NoSemaphore(timeout, seen, mine, |seen|))
    {
      hide Reachable, Trace, Taken;
      ReachableStep(timeout, world, Call(id, Take(mask)));
      world := Apply(timeout, world, Call(id, Take(mask)));
      seen, mine := [], [Me()];
      TraceBegins(timeout, Me());
      ok := TakeLoop(mask);
      RoundsAre(SYNC_TIMEOUT - 1, timeout);
      AcquireOutcome(timeout, seen, mine, mask);
    }

    method TakeLoop(mask: set<Res>) returns (ok: bool)
      requires OnTrack() && Me().pc == PollSmbi(Take(mask), 0, 0)
      modifies `world, `clock, `seen, `mine
      ensures OnTrack()
      ensures Me() == Agent(Idle(if ok then Succeeded(Take(mask)) else Failed(Take(mask))),
                            if ok then old(Me().held) + mask else old(Me().held), old(Me().before))
      ensures clock <= old(Left(timeout, Me().pc) + clock)
    {
      hide Reachable, Trace, Began;
      var i := 0;
      var s := Sync({}, {});
      while i < SYNC_TIMEOUT
        invariant 0 <= i <= SYNC_TIMEOUT && OnTrack()
        invariant Me() == old(Me()).(pc := if i < SYNC_TIMEOUT then PollSmbi(Take(mask), i, 0)
                                           else Idle(Failed(Take(mask))))
        invariant Left(timeout, Me().pc) + clock <= old(Left(timeout, Me().pc) + clock)
      {
        ok := GetHwSemaphore(0);
        if !ok {
          return;
        }
        s := ReadSyncReg();
        if mask !! s.sw + s.fw {
          break;
        }
        PutHwSemaphore();
        i := i + 1;
      }
      if i == SYNC_TIMEOUT {
        return false;
      }
      WriteSyncReg(Sync(s.sw + mask, s.fw));
      PutHwSemaphore();
      ok := true;
    }

    // Gives back the mask; comes to an end if the semaphore is not contended for ever.
    method ReleaseSwFw(mask: set<Res>)
      requires Valid() && mask != {} && mask <= Me().held && Opening()
      modifies `world, `clock, `seen, `mine
      ensures Valid()
      ensures Me() == Agent(Idle(Succeeded(Drop(mask))), old(Me().held) - mask, old(Me().held))
    {
      hide Reachable, Trace, Began, Quiet;
      ReachableStep(timeout, world, Call(id, Drop(mask)));
      world := Apply(timeout, world, Call(id, Drop(mask)));
      seen, mine := [], [Me()];
      TraceBegins(timeout, Me());
      assert QuietAfter(timeout, id, others, clock);
      ghost var u: nat :| clock <= u && Quiet(timeout, id, others, u);
      ghost var call := Me();
      var got := false;
      while !got
        invariant OnTrack() && Me() == if got then call.(pc := ReadSync(Drop(mask), 0)) else call
        invariant !got ==> clock <= u + 3
        decreases !got, u + 3 - clock
      {
        got := GetHwSemaphore(u);
      }
      var s := ReadSyncReg();
      WriteSyncReg(Sync(s.sw - mask, s.fw));
      PutHwSemaphore();
    }

    // The EEPROM needs the resource and the hardware's grant; without the grant the resource is given back.
    method AcquireNvm() returns (ok: bool)
      requires Valid() && Opening() && EEP_SM !in Me().held && !request
      modifies this
      ensures Valid() && phy == old(phy)
      ensures Me().held == if ok then old(Me().held) + {EEP_SM} else old(Me().held)
      ensures request == ok
      ensures Me().pc.last == if ok then Succeeded(Take({EEP_SM}))
                              else if old(looks) == looks then Failed(Take({EEP_SM})) else Succeeded(Drop({EEP_SM}))
      ensures looks > old(looks) ==>
                (ok <==> exists t :: old(looks) <= t < old(looks) + 1000 && granted(t))
    {
      ok := AcquireSwFw({EEP_SM});
      if !ok {
        return;
      }
      ok := Grant();
      if !ok {
        ReleaseSwFw({EEP_SM});
        assert old(Me().held) + {EEP_SM} - {EEP_SM} == old(Me().held);
      }
    }

    method ReleaseNvm()
      requires Valid() && Opening() && EEP_SM in Me().held
      modifies this
      ensures Valid() && phy == old(phy) && Me().held == old(Me().held) - {EEP_SM} && !request
    {
      request := false;
      ReleaseSwFw({EEP_SM});
    }

    // e1000e_acquire_nvm: a grant seen at the very last look counts as none.
    method Grant() returns (ok: bool)
      modifies `request, `looks
      ensures request == ok && looks > old(looks)
      ensures ok <==> exists t :: old(looks) <= t < old(looks) + 1000 && granted(t)
    {
      request := true;
      var gnt := granted(looks);
      looks := looks + 1;
      var left := GRANT_ATTEMPTS;
      while left > 0
        invariant 0 <= left <= GRANT_ATTEMPTS && looks == old(looks) + 1 + GRANT_ATTEMPTS - left
        invariant request && gnt == granted(looks - 1)
        invariant forall t :: old(looks) <= t < looks - 1 ==> !granted(t)
      {
        if gnt {
          break;
        }
        gnt := granted(looks);
        looks := looks + 1;
        left := left - 1;
      }
      ok := left != 0;
      if !ok {
        request := false;
      }
    }

    // --- MDIC: touched only while the PHY is held, by nobody else ---------------------------------------------------

    method MdicWrite(reg: nat, v: u16) returns (ok: bool)
      requires OnTrack() && phySm in Me().held
      modifies `phy, `transactions
      ensures transactions == old(transactions) + 1 && (ok <==> !mdic(old(transactions)).Error?)
      ensures phy == if Effective(mdic(old(transactions))) then PhyWrite(old(phy), reg, v) else old(phy)
    {
      var m := mdic(transactions);
      transactions := transactions + 1;
      if Effective(m) {
        phy := PhyWrite(phy, reg, v);
      }
      ok := !m.Error?;
    }

    // A failed read leaves the caller's variable alone.
    method MdicRead(reg: nat, was: u16) returns (ok: bool, v: u16)
      requires OnTrack() && phySm in Me().held
      modifies `transactions
      ensures transactions == old(transactions) + 1 && (ok <==> !mdic(old(transactions)).Error?)
      ensures v == if ok then PhyRead(phy, reg) else was
    {
      ok := !mdic(transactions).Error?;
      transactions := transactions + 1;
      v := if ok then PhyRead(phy, reg) else was;
    }

    // Selects the page and reads the selection back.
    method SelectPage(offset: nat) returns (ok: bool)
      requires OnTrack() && phySm in Me().held
      modifies `phy, `transactions
      ensures ok <==> TakenForSelected(old(phy), offset, mdic(old(transactions)), mdic(old(transactions) + 1))
      ensures phy == AfterSelect(old(phy), offset, mdic(old(transactions)))
      ensures ok ==> transactions == old(transactions) + 2
      ensures transactions >= old(transactions)
    {
      var select := SelectFor(RegOf(offset));
      ok := MdicWrite(select, PageOf(offset));
      if !ok {
        return;
      }
      var read, temp := MdicRead(select, PageOf(offset));
      ok := PageOf(offset) == temp;
    }

    // An accessor's last call: the release of what it acquired, or the failed acquire.
    ghost predicate Called(mask: set<Res>)
      reads this
      requires id < |world.agents|
    {
      Me().pc == Idle(Succeeded(Drop(mask))) || Me().pc == Idle(Failed(Take(mask)))
    }

    ghost predicate Acquired(mask: set<Res>)
      reads this
      requires id < |world.agents|
    {
      Me().pc == Idle(Succeeded(Drop(mask)))
    }

    // e1000_read_phy_reg_gg82563_80003es2lan.  On every path the driver holds what it held.
    method ReadPhy(offset: nat) returns (ok: bool, data: u16)
      requires Valid() && Opening() && phySm !in Me().held
      modifies this
      ensures Valid() && Me().held == old(Me().held) && Called({phySm})
      ensures var t := old(transactions);
        && (ok <==> Acquired({phySm}) && Reported(old(phy), offset, mdic(t), mdic(t + 1), mdic(t + 2)))
        && phy == (if Acquired({phySm}) then AfterSelect(old(phy), offset, mdic(t)) else old(phy))
        && (ok ==> data == PhyRead(phy, RegOf(offset)) && transactions == t + 3)
    {
      hide Reachable, Opens, AfterSelect, PhyRead, Trace, Began;
      data := 0;
      ok := AcquireSwFw({phySm});
      if !ok {
        return;
      }
      ok := SelectPage(offset);
      if ok {
        ok, data := MdicRead(RegOf(offset), 0);
      }
      ReleaseSwFw({phySm});
      assert old(Me().held) + {phySm} - {phySm} == old(Me().held);
    }

    // e1000_write_phy_reg_gg82563_80003es2lan
    method WritePhy(offset: nat, data: u16) returns (ok: bool)
      requires Valid() && Opening() && phySm !in Me().held
      modifies this
      ensures Valid() && Me().held == old(Me().held) && Called({phySm})
      ensures var t := old(transactions);
        && (ok <==> Acquired({phySm}) && Reported(old(phy), offset, mdic(t), mdic(t + 1), mdic(t + 2)))
        && phy == if Acquired({phySm}) then AfterWrite(old(phy), offset, data, mdic(t), mdic(t + 1), mdic(t + 2))
                  else old(phy)
      ensures ok ==> transactions == old(transactions) + 3
    {
      hide Reachable, Opens, AfterSelect, PhyWrite, Trace, Began;
      ok := AcquireSwFw({phySm});
      if !ok {
        return;
      }
      ok := SelectPage(offset);
      if ok {
        ok := MdicWrite(RegOf(offset), data);
      }
      ReleaseSwFw({phySm});
      assert old(Me().held) + {phySm} - {phySm} == old(Me().held);
    }

    // A write of a register of a page and a read of it: without a fault the value comes back, and no other register has
    // changed.
    method WriteThenRead(page: nat, reg: nat, data: u16) returns (ok: bool, back: u16)
      requires Valid() && Opening() && phySm !in Me().held && Named(page, reg)
      modifies this
      ensures Valid() && Me().held == old(Me().held)
      ensures ok && (forall t :: old(transactions) <= t < old(transactions) + 6 ==> mdic(t) == Good) ==>
        back == data && phy.store == old(phy).store[(page, reg) := data]
    {
      hide Reachable, Opens, AfterSelect, AfterWrite, PhyRead, PhyWrite, Trace, Began, Reported;
      FaultFree(phy, 0, page, reg, data);
      back := 0;
      ok := WritePhy(32 * page + reg, data);
      if ok {
        SelectKeepsStore(phy, 32 * page + reg, mdic(transactions));
        ok, back := ReadPhy(32 * page + reg);
      }
    }

    // e1000_write_kmrn_reg_80003es2lan and e1000_read_kmrn_reg_80003es2lan
    method WriteKmrn(offset: nat, data: u16) returns (ok: bool)
      requires Valid() && Opening() && CSR_SM !in Me().held
      modifies this
      ensures Valid() && Me().held == old(Me().held) && phy == old(phy)
      ensures Called({CSR_SM}) && ok == Acquired({CSR_SM})
      ensures kmrn == if ok then old(kmrn)[offset % 32 := data] else old(kmrn)
    {
      ok := AcquireSwFw({CSR_SM});
      if !ok {
        return;
      }
      kmrn := kmrn[offset % 32 := data];
      ReleaseSwFw({CSR_SM});
      assert old(Me().held) + {CSR_SM} - {CSR_SM} == old(Me().held);
    }

    method ReadKmrn(offset: nat) returns (ok: bool, data: u16)
      requires Valid() && Opening() && CSR_SM !in Me().held
      modifies this
      ensures Valid() && Me().held == old(Me().held) && phy == old(phy) && kmrn == old(kmrn)
      ensures Called({CSR_SM}) && ok == Acquired({CSR_SM})
      ensures ok && offset % 32 in kmrn ==> data == kmrn[offset % 32]
    {
      data := 0;
      ok := AcquireSwFw({CSR_SM});
      if !ok {
        return;
      }
      if offset % 32 in kmrn {
        data := kmrn[offset % 32];
      }
      ReleaseSwFw({CSR_SM});
      assert old(Me().held) + {CSR_SM} - {CSR_SM} == old(Me().held);
    }
  }

  // A driver among any number of agents, neighbours of which nothing is asked at half of the times: it meets what the
  // accessors require.
  method AmongNeighbours(timeout: nat, id: nat, phySm: Res, wild: Others, mdic: nat -> Mdic, granted: nat -> bool,
                         world: State, phy: Phy)
      returns (d: Driver)
    requires timeout > 0 && phySm != EEP_SM && phySm != CSR_SM && Start(world) && id < |world.agents|
    ensures fresh(d) && d.Valid() && d.Opening() && d.world == world && d.Me().held == {}
    ensures d.id == id && d.phySm == phySm && d.mdic == mdic && d.granted == granted && d.phy == phy
    ensures d.transactions == 0
  {
    d := new Driver(timeout, id, phySm, Mixed(timeout, id, wild), mdic, granted, world, phy);
    OpenNeighbours(timeout, id, wild);
  }

  // The same at the driver: whenever it reports success, register 1 of page 0 has been written for register 1 of
  // page 5.
  method MisledDriver(timeout: nat, id: nat, phySm: Res, wild: Others, world: State, data: u16)
      returns (d: Driver, ok: bool)
    requires timeout > 0 && phySm != EEP_SM && phySm != CSR_SM && Start(world) && id < |world.agents|
    ensures fresh(d) && (ok ==> d.phy.store == map[(0, 1) := data])
    ensures d.Valid() && ok == d.Acquired({phySm})
  {
    var mdic := (t: nat) => if t == 0 then Lost else if t == 1 then Error(false) else Good;
    d := AmongNeighbours(timeout, id, phySm, wild, mdic, _ => true, world, Phy(0, 0, map[]));
    WrongRegisterWritten(d.phy, 5 * 32 + 1, data);
    ok := d.WritePhy(5 * 32 + 1, data);
  }
}
