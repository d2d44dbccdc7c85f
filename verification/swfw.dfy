/** The software/firmware semaphore protocol: any number of software agents and the firmware, interleaved at
    single register accesses (e1000_mac.c, e1000_80003es2lan.c).

    SWSM holds two bits.  Reading it returns the old SMBI and sets it; a write of SWESMBI latches only while
    the firmware does not hold its side.  SW_FW_SYNC is one register with a software and a firmware half,
    always read and written whole. */
module SwFw {

  type Res = nat

  const SYNC_TIMEOUT := 50

  // SW_FW_SYNC: the resources taken by software and by firmware.
  datatype Sync = Sync(sw: set<Res>, fw: set<Res>)

  // 'fwesmbi' is the firmware's side of the SWESMBI handshake.
  datatype Regs = Regs(smbi: bool, swesmbi: bool, fwesmbi: bool, sync: Sync)

  // e1000_acquire_swfw_sync_80003es2lan and e1000_release_swfw_sync_80003es2lan.
  datatype Goal = Take(mask: set<Res>) | Drop(mask: set<Res>)

  datatype Outcome = Fresh | Succeeded(goal: Goal) | Failed(goal: Goal)

  // Why the hardware semaphore is being put back.
  datatype Why = GaveUp | Busy | Finished

  // The next register access of an agent.  'i' counts the rounds of the acquire loop, 'n' the polls of the
  // loop the agent is in.
  datatype Pc =
    | Idle(last: Outcome)
    | PollSmbi(goal: Goal, i: nat, n: nat)
    | ReadLatch(goal: Goal, i: nat, n: nat)
    | WriteLatch(goal: Goal, i: nat, n: nat, smbi: bool)
    | CheckLatch(goal: Goal, i: nat, n: nat)
    | ReadSync(goal: Goal, i: nat)
    | WriteSync(goal: Goal, i: nat, local: Sync)
    | PutRead(goal: Goal, i: nat, why: Why)
    | PutWrite(goal: Goal, i: nat, why: Why)

  // 'held' is what the agent owns, 'before' what it owned when its current or last call began.
  datatype Agent = Agent(pc: Pc, held: set<Res>, before: set<Res>)

  // e1000e_get_hw_semaphore has not succeeded: an acquire returns the error, a release starts over.
  function NotGot(goal: Goal): Pc {
    match goal
    case Take(_) => Idle(Failed(goal))
    case Drop(_) => PollSmbi(goal, 0, 0)
  }

  // After e1000e_put_hw_semaphore.
  function AfterPut(goal: Goal, i: nat, why: Why): Pc {
    match why
    case GaveUp => NotGot(goal)
    case Busy => if i + 1 < SYNC_TIMEOUT then PollSmbi(goal, i + 1, 0) else Idle(Failed(goal))
    case Finished => Idle(Succeeded(goal))
  }

  function Requested(goal: Goal, s: Sync): Sync {
    match goal
    case Take(mask) => Sync(s.sw + mask, s.fw)
    case Drop(mask) => Sync(s.sw - mask, s.fw)
  }

  // One register access of an agent that is in a call.  'timeout' is the poll limit, word_size + 1.
  function Next(timeout: nat, r: Regs, a: Agent): (Regs, Agent)
    requires !a.pc.Idle?
  {
    match a.pc
    case PollSmbi(goal, i, n) =>
      var r' := r.(smbi := true);
      if !r.smbi then (r', a.(pc := ReadLatch(goal, i, 0)))
      else (r', a.(pc := if n + 1 < timeout then PollSmbi(goal, i, n + 1) else NotGot(goal)))
    case ReadLatch(goal, i, n) => (r.(smbi := true), a.(pc := WriteLatch(goal, i, n, r.smbi)))
    case WriteLatch(goal, i, n, smbi) =>
      (r.(smbi := smbi, swesmbi := !r.fwesmbi), a.(pc := CheckLatch(goal, i, n)))
    case CheckLatch(goal, i, n) =>
      (r.(smbi := true),
       a.(pc := if r.swesmbi then ReadSync(goal, i)
                else if n + 1 < timeout then ReadLatch(goal, i, n + 1)
                else PutRead(goal, i, GaveUp)))
    case ReadSync(goal, i) =>
      (r, a.(pc := if goal.Take? && !(goal.mask !! r.sync.sw + r.sync.fw) then PutRead(goal, i, Busy)
                   else WriteSync(goal, i, r.sync)))
    case WriteSync(goal, i, local) =>
      (r.(sync := Requested(goal, local)),
       Agent(PutRead(goal, i, Finished), if goal.Take? then a.held + goal.mask else a.held - goal.mask, a.before))
    case PutRead(goal, i, why) => (r.(smbi := true), a.(pc := PutWrite(goal, i, why)))
    case PutWrite(goal, i, why) => (r.(smbi := false, swesmbi := false), a.(pc := AfterPut(goal, i, why)))
  }

  // The firmware's own accesses, under the same rule for its side.
  datatype FwPc = FwIdle | FwRead(goal: Goal) | FwWrite(goal: Goal, local: Sync) | FwPut

  datatype State = State(regs: Regs, agents: seq<Agent>, fwPc: FwPc, fwHeld: set<Res>)

  // --- Steps --------------------------------------------------------------------------------------

  datatype Event =
    | Call(agent: nat, goal: Goal)
    | Access(agent: nat)
    | FwGet(goal: Goal)
    | FwAccess

  // A caller releases only what it holds; anybody may ask for anything.
  predicate MayCall(a: Agent, goal: Goal) {
    a.pc.Idle? && goal.mask != {} && (goal.Drop? ==> goal.mask <= a.held)
  }

  predicate Enabled(s: State, e: Event) {
    match e
    case Call(i, goal) => i < |s.agents| && MayCall(s.agents[i], goal)
    case Access(i) => i < |s.agents| && !s.agents[i].pc.Idle?
    case FwGet(goal) => s.fwPc.FwIdle? && !s.regs.swesmbi && goal.mask != {} && (goal.Drop? ==> goal.mask <= s.fwHeld)
    case FwAccess => !s.fwPc.FwIdle?
  }

  function FwNext(s: State): State
    requires !s.fwPc.FwIdle?
  {
    match s.fwPc
    case FwRead(goal) =>
      if goal.Take? && !(goal.mask !! s.regs.sync.sw + s.regs.sync.fw) then s.(fwPc := FwPut)
      else s.(fwPc := FwWrite(goal, s.regs.sync))
    case FwWrite(goal, local) =>
      var fw := if goal.Take? then local.fw + goal.mask else local.fw - goal.mask;
      State(s.regs.(sync := Sync(local.sw, fw)), s.agents, FwPut,
            if goal.Take? then s.fwHeld + goal.mask else s.fwHeld - goal.mask)
    case FwPut => State(s.regs.(fwesmbi := false), s.agents, FwIdle, s.fwHeld)
  }

  function Apply(timeout: nat, s: State, e: Event): State
    requires Enabled(s, e)
  {
    match e
    case Call(i, goal) =>
      s.(agents := s.agents[i := Agent(PollSmbi(goal, 0, 0), s.agents[i].held, s.agents[i].held)])
    case Access(i) =>
      var (regs, agent) := Next(timeout, s.regs, s.agents[i]);
      s.(regs := regs, agents := s.agents[i := agent])
    case FwGet(goal) => State(s.regs.(fwesmbi := true), s.agents, FwRead(goal), s.fwHeld)
    case FwAccess => FwNext(s)
  }

  predicate Start(s: State) {
    && s.regs == Regs(false, false, false, Sync({}, {}))
    && s.fwPc == FwIdle && s.fwHeld == {}
    && forall i :: 0 <= i < |s.agents| ==> s.agents[i] == Agent(Idle(Fresh), {}, {})
  }

  ghost predicate Run(timeout: nat, run: seq<State>, events: seq<Event>) {
    && |run| == |events| + 1 && Start(run[0])
    && forall k :: 0 <= k < |events| ==> Enabled(run[k], events[k]) && run[k + 1] == Apply(timeout, run[k], events[k])
  }

  // --- The invariant --------------------------------------------------------------------------------

  // The agent has won SMBI and not yet put it back.
  predicate Inside(a: Agent) {
    !a.pc.Idle? && !a.pc.PollSmbi?
  }

  // ... and has seen SWESMBI latched.
  predicate Latched(a: Agent) {
    a.pc.ReadSync? || a.pc.WriteSync? || ((a.pc.PutRead? || a.pc.PutWrite?) && a.pc.why != GaveUp)
  }

  predicate AgentOk(r: Regs, a: Agent) {
    && (Inside(a) ==> r.smbi)
    && (Latched(a) ==> r.swesmbi)
    && (a.pc.WriteLatch? ==> a.pc.smbi)
    && (a.pc.WriteSync? ==> a.pc.local == r.sync && (a.pc.goal.Take? ==> a.pc.goal.mask !! r.sync.sw + r.sync.fw))
    && a.held <= r.sync.sw
    && (match a.pc
        case Idle(Failed(_)) => a.held == a.before
        case Idle(Succeeded(Take(m))) => a.held == a.before + m
        case Idle(Succeeded(Drop(m))) => a.held == a.before - m
        case Idle(Fresh) => true
        case PutRead(goal, _, Finished) => a.held == if goal.Take? then a.before + goal.mask else a.before - goal.mask
        case PutWrite(goal, _, Finished) => a.held == if goal.Take? then a.before + goal.mask else a.before - goal.mask
        case _ => a.held == a.before && (a.pc.goal.Drop? ==> a.pc.goal.mask <= a.held))
  }

  predicate FirmwareOk(s: State) {
    match s.fwPc
    case FwRead(goal) => goal.Drop? ==> goal.mask <= s.fwHeld
    case FwWrite(goal, local) =>
      && local == s.regs.sync
      && if goal.Take? then goal.mask !! s.regs.sync.sw + s.regs.sync.fw else goal.mask <= s.fwHeld
    case _ => true
  }

  ghost predicate Somebody(s: State) {
    exists i :: 0 <= i < |s.agents| && Inside(s.agents[i])
  }

  ghost predicate Owned(s: State, r: Res) {
    exists i :: 0 <= i < |s.agents| && r in s.agents[i].held
  }

  ghost predicate Inv(s: State) {
    && (forall i :: 0 <= i < |s.agents| ==> AgentOk(s.regs, s.agents[i]))
    // One agent at most is inside, and a bit of SWSM is set only while one is.
    && (forall i, j :: 0 <= i < j < |s.agents| ==> !(Inside(s.agents[i]) && Inside(s.agents[j])))
    && (s.regs.smbi || s.regs.swesmbi ==> Somebody(s))
    // The two sides of SWESMBI exclude each other.
    && !(s.regs.swesmbi && s.regs.fwesmbi)
    && (s.regs.fwesmbi <==> !s.fwPc.FwIdle?)
    // The register is exactly the owners' account.
    && (forall i, j :: 0 <= i < j < |s.agents| ==> s.agents[i].held !! s.agents[j].held)
    && (forall r :: r in s.regs.sync.sw ==> Owned(s, r))
    && s.regs.sync.fw == s.fwHeld && s.regs.sync.sw !! s.regs.sync.fw
    && FirmwareOk(s)
  }

  lemma StartInv(s: State)
    requires Start(s)
    ensures Inv(s)
  {
  }

  // An access keeps the agent that makes it in order.
  lemma NextOk(timeout: nat, r: Regs, a: Agent)
    requires AgentOk(r, a) && !a.pc.Idle?
    requires a.pc.PollSmbi? && !r.smbi ==> !r.swesmbi
    ensures var (r', a') := Next(timeout, r, a);
      AgentOk(r', a')
  {
  }

  // ... and every other agent, because only one of them can be inside.
  lemma OtherOk(timeout: nat, r: Regs, a: Agent, b: Agent)
    requires AgentOk(r, a) && AgentOk(r, b) && !a.pc.Idle?
    requires !(Inside(a) && Inside(b)) && a.held !! b.held
    ensures var (r', a') := Next(timeout, r, a);
      AgentOk(r', b) && !(Inside(a') && Inside(b)) && a'.held !! b.held
  {
    if a.pc.WriteSync? && a.pc.goal.Take? {
      DisjointUnion(a.pc.goal.mask, r.sync.sw, r.sync.fw);
      assert forall x :: x in b.held ==> x in r.sync.sw;
    }
  }

  lemma DisjointUnion(m: set<Res>, a: set<Res>, b: set<Res>)
    requires m !! a + b
    ensures m !! a && m !! b
  {
    assert forall x :: x in m && x in a ==> x in a + b;
    assert forall x :: x in m && x in b ==> x in a + b;
  }

  lemma InvAccess(timeout: nat, s: State, i: nat)
    requires Inv(s) && i < |s.agents| && !s.agents[i].pc.Idle?
    ensures Inv(Apply(timeout, s, Access(i)))
  {
    var s' := Apply(timeout, s, Access(i));
    var a, a' := s.agents[i], s'.agents[i];
    NextOk(timeout, s.regs, a);
    forall j | 0 <= j < |s.agents| && j != i
      ensures AgentOk(s'.regs, s'.agents[j]) && !(Inside(a') && Inside(s'.agents[j])) && a'.held !! s'.agents[j].held
    {
      OtherOk(timeout, s.regs, a, s.agents[j]);
    }
    SwsmBacked(timeout, s, i);
    AccountKept(timeout, s, i);
  }

  lemma SwsmBacked(timeout: nat, s: State, i: nat)
    requires Inv(s) && i < |s.agents| && !s.agents[i].pc.Idle?
    ensures var s' := Apply(timeout, s, Access(i)); s'.regs.smbi || s'.regs.swesmbi ==> Somebody(s')
  {
    var s' := Apply(timeout, s, Access(i));
    if Inside(s'.agents[i]) {
    } else if s.agents[i].pc.PollSmbi? {
      var j :| 0 <= j < |s.agents| && Inside(s.agents[j]);
      assert Inside(s'.agents[j]);
    }
  }

  lemma AccountKept(timeout: nat, s: State, i: nat)
    requires Inv(s) && i < |s.agents| && !s.agents[i].pc.Idle?
    ensures var s' := Apply(timeout, s, Access(i));
      && (forall r :: r in s'.regs.sync.sw ==> Owned(s', r))
      && s'.regs.sync.fw == s'.fwHeld && s'.regs.sync.sw !! s'.regs.sync.fw
  {
    var s' := Apply(timeout, s, Access(i));
    var pc := s.agents[i].pc;
    if pc.WriteSync? && pc.goal.Take? {
      DisjointUnion(pc.goal.mask, s.regs.sync.sw, s.regs.sync.fw);
    }
    forall r | r in s'.regs.sync.sw ensures Owned(s', r) {
      if r in s.regs.sync.sw {
        var j :| 0 <= j < |s.agents| && r in s.agents[j].held;
        assert r in s'.agents[j].held;
      } else {
        assert r in s'.agents[i].held;
      }
    }
  }

  lemma InvCall(timeout: nat, s: State, i: nat, goal: Goal)
    requires Inv(s) && i < |s.agents| && MayCall(s.agents[i], goal)
    ensures Inv(Apply(timeout, s, Call(i, goal)))
  {
    var s' := Apply(timeout, s, Call(i, goal));
    SameAccount(s, s');
    if s.regs.smbi || s.regs.swesmbi {
      var j :| 0 <= j < |s.agents| && Inside(s.agents[j]);
      assert Inside(s'.agents[j]);
    }
  }

  lemma SameAccount(s: State, s': State)
    requires |s.agents| == |s'.agents| && forall i :: 0 <= i < |s.agents| ==> s'.agents[i].held == s.agents[i].held
    ensures forall r :: Owned(s, r) ==> Owned(s', r)
  {
    forall r | Owned(s, r) ensures Owned(s', r) {
      var j :| 0 <= j < |s.agents| && r in s.agents[j].held;
      assert r in s'.agents[j].held;
    }
  }

  lemma InvFirmware(timeout: nat, s: State, e: Event)
    requires Inv(s) && Enabled(s, e) && (e.FwGet? || e.FwAccess?)
    ensures Inv(Apply(timeout, s, e))
  {
    var s' := Apply(timeout, s, e);
    if s.fwPc.FwWrite? && s.fwPc.goal.Take? {
      DisjointUnion(s.fwPc.goal.mask, s.regs.sync.sw, s.regs.sync.fw);
    }
    SameAccount(s, s');
    if s.regs.smbi || s.regs.swesmbi {
      var j :| 0 <= j < |s.agents| && Inside(s.agents[j]);
      assert Inside(s'.agents[j]);
    }
    assert forall i :: 0 <= i < |s.agents| ==> AgentOk(s'.regs, s'.agents[i]);
  }

  lemma InvStep(timeout: nat, s: State, e: Event)
    requires Inv(s) && Enabled(s, e)
    ensures Inv(Apply(timeout, s, e))
  {
    match e
    case Call(i, goal) => InvCall(timeout, s, i, goal);
    case Access(i) => InvAccess(timeout, s, i);
    case FwGet(_) => InvFirmware(timeout, s, e);
    case FwAccess => InvFirmware(timeout, s, e);
  }

  lemma {:induction false} RunInv(timeout: nat, run: seq<State>, events: seq<Event>, k: nat)
    requires Run(timeout, run, events) && k <= |events|
    ensures Inv(run[k])
  {
    if k == 0 {
      StartInv(run[0]);
    } else {
      RunInv(timeout, run, events, k - 1);
      InvStep(timeout, run[k - 1], events[k - 1]);
      assert run[k - 1 + 1] == Apply(timeout, run[k - 1], events[k - 1]);
    }
  }

  // --- Main results -------------------------------------------------------------------------------

  // Mutual exclusion in every interleaving: no resource has two owners, agents or firmware, and the register
  // says exactly who owns what.
  lemma MutualExclusion(timeout: nat, run: seq<State>, events: seq<Event>, k: nat)
    requires Run(timeout, run, events) && k <= |events|
    ensures var s := run[k];
      && (forall i, j :: 0 <= i < j < |s.agents| ==> s.agents[i].held !! s.agents[j].held)
      && (forall i :: 0 <= i < |s.agents| ==> s.agents[i].held !! s.fwHeld)
      && (forall r :: r in s.regs.sync.sw <==> Owned(s, r))
      && s.regs.sync.fw == s.fwHeld
  {
    RunInv(timeout, run, events, k);
    var s := run[k];
    forall r | Owned(s, r) ensures r in s.regs.sync.sw {
      var i :| 0 <= i < |s.agents| && r in s.agents[i].held;
    }
  }

  // No step of one party changes what another one owns, or its bits in SW_FW_SYNC.
  lemma NobodyElsesBits(timeout: nat, run: seq<State>, events: seq<Event>, k: nat, i: nat)
    requires Run(timeout, run, events) && k < |events| && i < |run[k].agents|
    requires events[k] != Access(i)
    ensures var s, s' := run[k], run[k + 1];
      && |s'.agents| == |s.agents| && s'.agents[i].held == s.agents[i].held
      && s.agents[i].held <= s'.regs.sync.sw
      && (!events[k].FwAccess? ==> s'.fwHeld == s.fwHeld == s'.regs.sync.fw)
  {
    RunInv(timeout, run, events, k);
    RunInv(timeout, run, events, k + 1);
    assert run[k + 1] == Apply(timeout, run[k], events[k]);
  }

  // A failed acquire leaves nothing behind: the agent owns what it owned when it called, and is not inside.
  // When no agent is inside, both bits of SWSM are clear.
  lemma FailureLeavesNothing(timeout: nat, run: seq<State>, events: seq<Event>, k: nat, i: nat)
    requires Run(timeout, run, events) && k <= |events| && i < |run[k].agents| && run[k].agents[i].pc.Idle?
    ensures var s := run[k];
      var a := s.agents[i];
      && !Inside(a)
      && (a.pc.last.Failed? ==> a.held == a.before)
      && (a.pc.last.Succeeded? ==>
            a.held == if a.pc.last.goal.Take? then a.before + a.pc.last.goal.mask else a.before - a.pc.last.goal.mask)
      && (!Somebody(s) ==> !s.regs.smbi && !s.regs.swesmbi)
  {
    RunInv(timeout, run, events, k);
  }

  // --- An acquire always returns --------------------------------------------------------------------

  // Own accesses an agent has left in an acquire, at most.
  function Left(timeout: nat, pc: Pc): nat {
    if pc.Idle? then 0
    else
      Rounds(if pc.i + 1 < SYNC_TIMEOUT then SYNC_TIMEOUT - 1 - pc.i else 0, timeout)
      + match pc
        case PollSmbi(_, _, n) => Back(timeout, n) + 3 * timeout + 8
        case ReadLatch(_, _, n) => 3 * Back(timeout, n) + 7
        case WriteLatch(_, _, n, _) => 3 * Back(timeout, n) + 6
        case CheckLatch(_, _, n) => 3 * Back(timeout, n) + 5
        case ReadSync(_, _) => 4
        case WriteSync(_, _, _) => 3
        case PutRead(_, _, _) => 2
        case PutWrite(_, _, _) => 1
        case Idle(_) => 0
  }

  function Back(timeout: nat, n: nat): nat { if n < timeout then timeout - n else 0 }

  function Rounds(k: nat, timeout: nat): nat {
    if k == 0 then 0 else Rounds(k - 1, timeout) + 4 * timeout + 8
  }

  lemma LeftDecreases(timeout: nat, r: Regs, a: Agent)
    requires !a.pc.Idle? && a.pc.goal.Take?
    ensures var pc := Next(timeout, r, a).1.pc;
      Left(timeout, pc) < Left(timeout, a.pc) && (!pc.Idle? ==> pc.goal == a.pc.goal)
  {
  }

  // One agent's call so far: the registers it found at each of its accesses, and the agent before each and after
  // the last.
  ghost predicate Trace(timeout: nat, regs: seq<Regs>, own: seq<Agent>) {
    && |own| == |regs| + 1
    && forall k :: 0 <= k < |regs| ==> !own[k].pc.Idle? && own[k + 1] == Next(timeout, regs[k], own[k]).1
  }

  // Whatever the registers read, an acquire is over after so many of the agent's own accesses.
  lemma {:induction false} AcquireReturns(timeout: nat, regs: seq<Regs>, own: seq<Agent>, mask: set<Res>)
    requires Trace(timeout, regs, own) && own[0].pc == PollSmbi(Take(mask), 0, 0)
    ensures |regs| <= 50 * (4 * timeout + 8)
  {
    OwnAccesses(timeout, regs, own, mask, |regs|);
    RoundsAre(SYNC_TIMEOUT - 1, timeout);
  }

  lemma {:induction false} OwnAccesses(timeout: nat, regs: seq<Regs>, own: seq<Agent>, mask: set<Res>, k: nat)
    requires Trace(timeout, regs, own) && own[0].pc == PollSmbi(Take(mask), 0, 0) && k <= |regs|
    ensures Left(timeout, own[k].pc) + k <= Left(timeout, PollSmbi(Take(mask), 0, 0))
    ensures !own[k].pc.Idle? ==> own[k].pc.goal == Take(mask)
  {
    if k > 0 {
      OwnAccesses(timeout, regs, own, mask, k - 1);
      LeftDecreases(timeout, regs[k - 1], own[k - 1]);
      assert own[k - 1 + 1] == Next(timeout, regs[k - 1], own[k - 1]).1;
    }
  }

  lemma {:induction false} RoundsAre(k: nat, timeout: nat)
    ensures Rounds(k, timeout) == k * (4 * timeout + 8)
  {
    if k > 0 {
      RoundsAre(k - 1, timeout);
    }
  }

  // --- How an acquire ends ------------------------------------------------------------------------------

  predicate Taken(mask: set<Res>, s: Sync) { !(mask !! s.sw + s.fw) }

  predicate AllTaken(mask: set<Res>, looks: seq<Sync>) {
    forall k :: 0 <= k < |looks| ==> Taken(mask, looks[k])
  }

  // What the agent read from SW_FW_SYNC in its first n accesses.
  function Looks(regs: seq<Regs>, own: seq<Agent>, n: nat): (looks: seq<Sync>)
    requires n <= |regs| && n <= |own|
    ensures |looks| <= n
  {
    if n == 0 then []
    else Looks(regs, own, n - 1) + if own[n - 1].pc.ReadSync? then [regs[n - 1].sync] else []
  }

  // The m accesses before the n-th were polls that found SMBI set.
  ghost predicate Polled(regs: seq<Regs>, own: seq<Agent>, n: nat, m: nat)
    requires n <= |regs| && n <= |own|
  {
    m <= n && forall k :: n - m <= k < n ==> own[k].pc.PollSmbi? && regs[k].smbi
  }

  // m times in a row, every third access up to the n-th, SWESMBI was seen not to have latched.
  predicate Unlatched(regs: seq<Regs>, own: seq<Agent>, n: nat, m: nat)
    requires n <= |regs| && n <= |own|
  {
    m == 0 || (n >= 3 && own[n - 1].pc.CheckLatch? && !regs[n - 1].swesmbi && Unlatched(regs, own, n - 3, m - 1))
  }

  // The hardware semaphore was not to be had: SMBI was set at 'timeout' polls in a row, or SWESMBI did not latch
  // 'timeout' times in a row and SMBI was put back.
  ghost predicate NoSemaphore(timeout: nat, regs: seq<Regs>, own: seq<Agent>, n: nat)
    requires n <= |regs| && n <= |own|
  {
    Polled(regs, own, n, timeout) || (n >= 2 && Unlatched(regs, own, n - 2, timeout))
  }

  // What the looks have been when the agent has come to this point.
  ghost predicate OnTheWay(timeout: nat, mask: set<Res>, regs: seq<Regs>, own: seq<Agent>, n: nat)
    requires n <= |regs| && n < |own|
  {
    var looks := Looks(regs, own, n);
    var pc := own[n].pc;
    && (!pc.Idle? ==> pc.goal == Take(mask) && pc.i < SYNC_TIMEOUT)
    && match pc
       case PollSmbi(_, i, m) => AllTaken(mask, looks) && |looks| == i && m < timeout && Polled(regs, own, n, m)
       case ReadLatch(_, i, m) => AllTaken(mask, looks) && |looks| == i && m < timeout && Unlatched(regs, own, n, m)
       case WriteLatch(_, i, m, _) =>
         AllTaken(mask, looks) && |looks| == i && m < timeout && n >= 1 && Unlatched(regs, own, n - 1, m)
       case CheckLatch(_, i, m) =>
         AllTaken(mask, looks) && |looks| == i && m < timeout && n >= 2 && Unlatched(regs, own, n - 2, m)
       case ReadSync(_, i) => AllTaken(mask, looks) && |looks| == i
       case WriteSync(_, i, _) => FreeAtLast(mask, looks) && |looks| == i + 1
       case PutRead(_, i, why) => PutBack(timeout, mask, regs, own, n, i, why, looks)
       case PutWrite(_, i, why) => n >= 1 && PutBack(timeout, mask, regs, own, n - 1, i, why, looks)
       case Idle(Succeeded(goal)) => goal == Take(mask) && FreeAtLast(mask, looks) && |looks| <= SYNC_TIMEOUT
       case Idle(Failed(goal)) =>
         && goal == Take(mask) && AllTaken(mask, looks) && |looks| <= SYNC_TIMEOUT
         && (|looks| == SYNC_TIMEOUT || NoSemaphore(timeout, regs, own, n))
       case Idle(Fresh) => false
  }

  // Every look showed the mask taken but the last, which showed it free.
  predicate FreeAtLast(mask: set<Res>, looks: seq<Sync>) {
    |looks| > 0 && AllTaken(mask, looks[..|looks| - 1]) && !Taken(mask, looks[|looks| - 1])
  }

  ghost predicate PutBack(timeout: nat, mask: set<Res>, regs: seq<Regs>, own: seq<Agent>, n: nat, i: nat, why: Why,
                          looks: seq<Sync>)
    requires n <= |regs| && n <= |own|
  {
    match why
    case GaveUp => AllTaken(mask, looks) && |looks| == i && Unlatched(regs, own, n, timeout)
    case Busy => AllTaken(mask, looks) && |looks| == i + 1
    case Finished => FreeAtLast(mask, looks) && |looks| == i + 1
  }

  lemma OneStepOn(timeout: nat, mask: set<Res>, regs: seq<Regs>, own: seq<Agent>, n: nat)
    requires timeout > 0 && n < |regs| && Trace(timeout, regs, own) && OnTheWay(timeout, mask, regs, own, n)
    ensures OnTheWay(timeout, mask, regs, own, n + 1)
  {
    hide OnTheWay, Looks, Polled, Unlatched, Next;
    assert own[n + 1] == Next(timeout, regs[n], own[n]).1;
    match own[n].pc {
      case PollSmbi(_, _, _) => PollOn(timeout, mask, regs, own, n);
      case ReadLatch(_, _, _) => LatchOn(timeout, mask, regs, own, n);
      case WriteLatch(_, _, _, _) => LatchOn(timeout, mask, regs, own, n);
      case CheckLatch(_, _, _) => LatchOn(timeout, mask, regs, own, n);
      case ReadSync(_, _) => LookOn(timeout, mask, regs, own, n);
      case _ => PutOn(timeout, mask, regs, own, n);
    }
  }

  lemma LooksNext(regs: seq<Regs>, own: seq<Agent>, n: nat)
    requires n < |regs| && n < |own|
    ensures Looks(regs, own, n + 1) == if own[n].pc.ReadSync? then Looks(regs, own, n) + [regs[n].sync]
                                       else Looks(regs, own, n)
  {
  }

  lemma PollOn(timeout: nat, mask: set<Res>, regs: seq<Regs>, own: seq<Agent>, n: nat)
    requires timeout > 0 && n < |regs| && Trace(timeout, regs, own) && OnTheWay(timeout, mask, regs, own, n)
    requires own[n].pc.PollSmbi? && own[n + 1] == Next(timeout, regs[n], own[n]).1
    ensures OnTheWay(timeout, mask, regs, own, n + 1)
  {
    hide Looks, AllTaken, PutBack;
    LooksNext(regs, own, n);
  }

  lemma LatchOn(timeout: nat, mask: set<Res>, regs: seq<Regs>, own: seq<Agent>, n: nat)
    requires timeout > 0 && n < |regs| && Trace(timeout, regs, own) && OnTheWay(timeout, mask, regs, own, n)
    requires own[n].pc.ReadLatch? || own[n].pc.WriteLatch? || own[n].pc.CheckLatch?
    requires own[n + 1] == Next(timeout, regs[n], own[n]).1
    ensures OnTheWay(timeout, mask, regs, own, n + 1)
  {
    hide Looks, AllTaken, Polled;
    LooksNext(regs, own, n);
  }

  lemma LookOn(timeout: nat, mask: set<Res>, regs: seq<Regs>, own: seq<Agent>, n: nat)
    requires timeout > 0 && n < |regs| && Trace(timeout, regs, own) && OnTheWay(timeout, mask, regs, own, n)
    requires own[n].pc.ReadSync? && own[n + 1] == Next(timeout, regs[n], own[n]).1
    ensures OnTheWay(timeout, mask, regs, own, n + 1)
  {
    hide Looks, Polled, Unlatched;
    LooksNext(regs, own, n);
    var looks := Looks(regs, own, n);
    assert (looks + [regs[n].sync])[..|looks|] == looks;
  }

  lemma PutOn(timeout: nat, mask: set<Res>, regs: seq<Regs>, own: seq<Agent>, n: nat)
    requires timeout > 0 && n < |regs| && Trace(timeout, regs, own) && OnTheWay(timeout, mask, regs, own, n)
    requires own[n].pc.WriteSync? || own[n].pc.PutRead? || own[n].pc.PutWrite?
    requires own[n + 1] == Next(timeout, regs[n], own[n]).1
    ensures OnTheWay(timeout, mask, regs, own, n + 1)
  {
    hide Looks, AllTaken, FreeAtLast, Unlatched;
    LooksNext(regs, own, n);
  }

  lemma {:induction false} StaysOnTheWay(timeout: nat, mask: set<Res>, regs: seq<Regs>, own: seq<Agent>, n: nat)
    requires timeout > 0 && n <= |regs| && Trace(timeout, regs, own) && own[0].pc == PollSmbi(Take(mask), 0, 0)
    ensures OnTheWay(timeout, mask, regs, own, n)
  {
    if n > 0 {
      StaysOnTheWay(timeout, mask, regs, own, n - 1);
      OneStepOn(timeout, mask, regs, own, n - 1);
    }
  }

  // How an acquire ends, whatever the registers read: it succeeds exactly when it sees the mask free, which ends it;
  // else it has seen the mask taken fifty times, or could not get the hardware semaphore.
  lemma AcquireOutcome(timeout: nat, regs: seq<Regs>, own: seq<Agent>, mask: set<Res>)
    requires timeout > 0 && Trace(timeout, regs, own) && own[0].pc == PollSmbi(Take(mask), 0, 0)
    requires own[|regs|].pc.Idle?
    ensures var looks, last := Looks(regs, own, |regs|), own[|regs|].pc.last;
      && (last == Succeeded(Take(mask)) || last == Failed(Take(mask)))
      && (last.Succeeded? <==> FreeAtLast(mask, looks)) && (last.Failed? <==> AllTaken(mask, looks))
      && |looks| <= 50
      && (last.Failed? ==> |looks| == 50 || NoSemaphore(timeout, regs, own, |regs|))
  {
    StaysOnTheWay(timeout, mask, regs, own, |regs|);
  }

  // --- An agent that is alone gets what it asks for ---------------------------------------------------

  // Up to n accesses of one agent with nobody in between.
  function Alone(timeout: nat, r: Regs, a: Agent, n: nat): (Regs, Agent)
    decreases n
  {
    if n == 0 || a.pc.Idle? then (r, a)
    else Alone(timeout, Next(timeout, r, a).0, Next(timeout, r, a).1, n - 1)
  }

  // With the hardware semaphore free and the resources unowned, eight accesses acquire, and leave the semaphore free.
  lemma TakesWhenFree(timeout: nat, r: Regs, a: Agent, mask: set<Res>)
    requires timeout > 0 && a.pc.PollSmbi? && a.pc.goal == Take(mask) && a.pc.n == 0
    requires !r.smbi && !r.fwesmbi && mask !! r.sync.sw + r.sync.fw
    ensures Alone(timeout, r, a, 8)
         == (Regs(false, false, false, Sync(r.sync.sw + mask, r.sync.fw)),
             Agent(Idle(Succeeded(Take(mask))), a.held + mask, a.before))
  {
    EightAccesses(timeout, r, a);
  }

  // An agent that owns resources gives back exactly these.
  lemma DropsWhenFree(timeout: nat, r: Regs, a: Agent, mask: set<Res>)
    requires timeout > 0 && a.pc == PollSmbi(Drop(mask), 0, 0) && !r.smbi && !r.fwesmbi
    ensures Alone(timeout, r, a, 8)
         == (Regs(false, false, false, Sync(r.sync.sw - mask, r.sync.fw)),
             Agent(Idle(Succeeded(Drop(mask))), a.held - mask, a.before))
  {
    EightAccesses(timeout, r, a);
  }

  // Resources that somebody owns are refused and nothing changes; the agent goes on to its next round, or has failed
  // after the fiftieth.
  lemma BusyIsRefused(timeout: nat, r: Regs, a: Agent, mask: set<Res>)
    requires timeout > 0 && a.pc.PollSmbi? && a.pc.goal == Take(mask) && a.pc.n == 0
    requires !r.smbi && !r.fwesmbi && !(mask !! r.sync.sw + r.sync.fw)
    ensures Alone(timeout, r, a, 7)
         == (Regs(false, false, false, r.sync),
             a.(pc := if a.pc.i + 1 < 50 then PollSmbi(Take(mask), a.pc.i + 1, 0)
                      else Idle(Failed(Take(mask)))))
  {
    var s1 := Next(timeout, r, a);
    var s2 := Next(timeout, s1.0, s1.1);
    var s3 := Next(timeout, s2.0, s2.1);
    var s4 := Next(timeout, s3.0, s3.1);
    var s5 := Next(timeout, s4.0, s4.1);
    var s6 := Next(timeout, s5.0, s5.1);
    assert Alone(timeout, s6.0, s6.1, 1) == Next(timeout, s6.0, s6.1);
    assert Alone(timeout, s5.0, s5.1, 2) == Alone(timeout, s6.0, s6.1, 1);
    assert Alone(timeout, s4.0, s4.1, 3) == Alone(timeout, s5.0, s5.1, 2);
    assert Alone(timeout, s3.0, s3.1, 4) == Alone(timeout, s4.0, s4.1, 3);
    assert Alone(timeout, s2.0, s2.1, 5) == Alone(timeout, s3.0, s3.1, 4);
    assert Alone(timeout, s1.0, s1.1, 6) == Alone(timeout, s2.0, s2.1, 5);
  }

  // The agent's rounds when it is alone in each and the owners have made SW_FW_SYNC these values by then.
  function InRounds(timeout: nat, r: Regs, a: Agent, syncs: seq<Sync>): (Regs, Agent)
    decreases |syncs|
  {
    if syncs == [] then (r, a)
    else if |syncs| == 1 then Alone(timeout, r.(sync := syncs[0]), a, 8)
    else
      InRounds(timeout, Alone(timeout, r.(sync := syncs[0]), a, 7).0, Alone(timeout, r.(sync := syncs[0]), a, 7).1,
               syncs[1..])
  }

  // The mask may be taken in any number of rounds below fifty: in the first one after these that finds it free the
  // agent takes it.
  lemma {:induction false} RetriesUntilFree(timeout: nat, r: Regs, a: Agent, mask: set<Res>, syncs: seq<Sync>)
    requires timeout > 0 && a.pc.PollSmbi? && a.pc.goal == Take(mask) && a.pc.n == 0 && !r.smbi && !r.fwesmbi
    requires a.pc.i + |syncs| <= 50 && FreeAtLast(mask, syncs)
    ensures var s := syncs[|syncs| - 1];
      InRounds(timeout, r, a, syncs)
      == (Regs(false, false, false, Sync(s.sw + mask, s.fw)),
          Agent(Idle(Succeeded(Take(mask))), a.held + mask, a.before))
    decreases |syncs|
  {
    if |syncs| == 1 {
      TakesWhenFree(timeout, r.(sync := syncs[0]), a, mask);
    } else {
      assert syncs[..|syncs| - 1][0] == syncs[0] && Taken(mask, syncs[0]);
      BusyIsRefused(timeout, r.(sync := syncs[0]), a, mask);
      var next := Alone(timeout, r.(sync := syncs[0]), a, 7);
      assert syncs[1..][..|syncs| - 2] == syncs[..|syncs| - 1][1..];
      RetriesUntilFree(timeout, next.0, next.1, mask, syncs[1..]);
    }
  }

  lemma EightAccesses(timeout: nat, r: Regs, a: Agent)
    requires timeout > 0 && a.pc.PollSmbi? && a.pc.n == 0 && !r.smbi && !r.fwesmbi
    requires a.pc.goal.Take? ==> a.pc.goal.mask !! r.sync.sw + r.sync.fw
    ensures Alone(timeout, r, a, 8)
         == (Regs(false, false, false, Requested(a.pc.goal, r.sync)),
             Agent(Idle(Succeeded(a.pc.goal)),
                   if a.pc.goal.Take? then a.held + a.pc.goal.mask else a.held - a.pc.goal.mask, a.before))
  {
    var s1 := Next(timeout, r, a);
    var s2 := Next(timeout, s1.0, s1.1);
    var s3 := Next(timeout, s2.0, s2.1);
    var s4 := Next(timeout, s3.0, s3.1);
    var s5 := Next(timeout, s4.0, s4.1);
    var s6 := Next(timeout, s5.0, s5.1);
    var s7 := Next(timeout, s6.0, s6.1);
    assert Alone(timeout, s7.0, s7.1, 1) == Next(timeout, s7.0, s7.1);
    assert Alone(timeout, s6.0, s6.1, 2) == Alone(timeout, s7.0, s7.1, 1);
    assert Alone(timeout, s5.0, s5.1, 3) == Alone(timeout, s6.0, s6.1, 2);
    assert Alone(timeout, s4.0, s4.1, 4) == Alone(timeout, s5.0, s5.1, 3);
    assert Alone(timeout, s3.0, s3.1, 5) == Alone(timeout, s4.0, s4.1, 4);
    assert Alone(timeout, s2.0, s2.1, 6) == Alone(timeout, s3.0, s3.1, 5);
    assert Alone(timeout, s1.0, s1.1, 7) == Alone(timeout, s2.0, s2.1, 6);
  }
}
