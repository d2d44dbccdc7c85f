/** The flash part behind the ICH8/9/10 GbE register block, and the driver code that drives its
    registers: cycle initialisation, cycles, reads, byte programs, retries and bank erase
    (e1000_ich8lan.c).

    The device is an object.  What it does by itself is fixed by three constant functions of the
    cycle number: how many status reads the cycle outlasts, whether it reports an error, and whether a
    cycle that reports an error took effect all the same.  A contract that holds for every such object
    holds for every behaviour of the device.

    'hist' lists the settled contents of the cells, oldest first; the cells themselves are always one
    of its last two entries, and the last one unless a program or an erase is still running.  Cutting the
    power at any moment therefore leaves one of these two. */
module FlashController {
  import opened Bytes

  type Mem = seq<u8>

  const READ_COMMAND_TIMEOUT := 500
  const WRITE_COMMAND_TIMEOUT := 500
  const ERASE_COMMAND_TIMEOUT := 3000000
  const CYCLE_REPEAT_COUNT := 10
  const LINEAR_ADDR_MASK := 0x00FFFFFF

  datatype Cycle = Read | Write | Erase

  datatype Request = Request(cycle: Cycle, addr: nat, size: nat, data: u8)

  datatype Progress = Idle | Running(request: Request, left: nat, index: nat)

  // HSFSTS as the driver sees it.
  datatype Status = Status(flcdone: bool, flcerr: bool, dael: bool, berasesz: nat, flcinprog: bool,
                           fldesvalid: bool)

  function SectorSize(berasesz: nat): nat {
    match berasesz
    case 0 => 256
    case 1 => 4096
    case 2 => 8192
    case _ => 65536
  }

  lemma SectorSizes(berasesz: nat)
    requires berasesz < 4
    ensures SectorSize(berasesz) in {0x100, 0x1000, 0x2000, 0x1_0000}
    ensures forall b :: 0 <= b < berasesz ==> SectorSize(b) < SectorSize(berasesz)
  {
  }

  // Programming a byte only clears bits.
  function Program(m: Mem, a: nat, v: u8): (r: Mem)
    ensures |r| == |m|
    ensures a < |m| ==> r[a] == And(m[a], v)
    ensures forall i :: 0 <= i < |m| && i != a ==> r[i] == m[i]
  {
    if a < |m| then m[a := And(m[a], v)] else m
  }

  // Erasing a sector sets every bit of it.
  function EraseSector(m: Mem, a: nat, n: nat): (r: Mem)
    ensures |r| == |m|
    ensures a + n <= |m| ==> forall i :: a <= i < a + n ==> r[i] == 0xFF
    ensures forall i :: 0 <= i < |m| && !(a <= i < a + n) ==> r[i] == m[i]
  {
    if a + n <= |m| then seq(|m|, i requires 0 <= i < |m| => if a <= i < a + n then 0xFF else m[i]) else m
  }

  function Effect(m: Mem, r: Request): (m': Mem)
    ensures |m'| == |m|
  {
    match r.cycle
    case Read => m
    case Write => Program(m, r.addr, r.data)
    case Erase => EraseSector(m, r.addr, r.size)
  }

  // What a read of 'size' bytes (one or two, least significant first) leaves in FDATA0.
  function Fetch(m: Mem, a: nat, size: nat): u16
    requires a + size <= |m| && 1 <= size <= 2
  {
    if size == 1 then m[a] else Word(m[a], m[a + 1])
  }

  // The data of a request matters only to a write.
  lemma SameEffect(m: Mem, r: Request, q: Request)
    requires r.cycle == q.cycle && r.addr == q.addr && r.size == q.size && (r.cycle == Write ==> r.data == q.data)
    ensures Effect(m, r) == Effect(m, q)
  {
  }

  // One pass of the inner loop of the bank erase, as the driver classifies it.  'Again' is an error report,
  // or a cycle that completed just after the poll gave up; 'Dead' is a failed initialisation or a cycle
  // that is still running.
  datatype Outcome = Good | Again | Dead

  // Control state of the bank erase: sector number, retries so far, running address, the addresses of
  // the cycles started so far with their outcomes, and the pending return value.
  datatype EraseState = EraseState(j: nat, count: nat, addr: nat, issued: seq<(nat, Outcome)>, ok: bool, stopped: bool)

  function EraseStep(s: EraseState, sector: nat, iteration: nat, o: Outcome): EraseState {
    var a := s.addr + s.j * sector;
    var issued := s.issued + [(a, o)];
    if s.stopped || s.j >= iteration then s
    else match o
      case Good => EraseState(s.j + 1, s.count, a, issued, true, false)
      case Dead => EraseState(s.j, s.count, a, issued, false, true)
      case Again =>
        EraseState(if s.count + 1 < CYCLE_REPEAT_COUNT then s.j else s.j + 1, s.count + 1, a, issued, false, false)
  }

  // The running address moves on by the number of the sector.
  function SectorAddr(addr: nat, j: nat, sector: nat): nat { addr + j * sector }

  lemma EraseStepFields(s: EraseState, sector: nat, iteration: nat, o: Outcome)
    requires !s.stopped && s.j < iteration
    ensures var s' := EraseStep(s, sector, iteration, o);
      && s'.addr == SectorAddr(s.addr, s.j, sector) && (s.j == 0 ==> s'.addr == s.addr)
      && s'.ok == (o == Good) && s'.stopped == (o == Dead)
      && s'.count == (if o == Again then s.count + 1 else s.count)
      && s'.j == (if o == Good || (o == Again && s.count + 1 >= CYCLE_REPEAT_COUNT) then s.j + 1 else s.j)
  {
  }

  // The loop after the outcomes 'outs', as far as it needed them.
  function EraseRun(start: nat, sector: nat, iteration: nat, outs: seq<Outcome>): EraseState {
    if outs == [] then EraseState(0, 0, start, [], true, false)
    else EraseStep(EraseRun(start, sector, iteration, outs[..|outs| - 1]), sector, iteration, outs[|outs| - 1])
  }

  // The loop over 'iteration' sectors has come to its end and reports success.
  predicate EraseFinished(s: EraseState, iteration: nat) {
    s.ok && !s.stopped && s.j == iteration
  }

  // 'h' extends 'h0' by one entry for each erase issued; a good erase took effect.
  ghost predicate Trail(h: seq<Mem>, h0: seq<Mem>, issued: seq<(nat, Outcome)>, sector: nat)
    requires |h0| > 0
  {
    if issued == [] then h == h0
    else
      && |h| > |h0|
      && Trail(h[..|h| - 1], h0, issued[..|issued| - 1], sector)
      && ErasedStep(h[|h| - 2], h[|h| - 1], issued[|issued| - 1].0, sector, issued[|issued| - 1].1)
  }

  ghost predicate ErasedStep(m: Mem, m': Mem, a: nat, sector: nat, o: Outcome) {
    && (m' == m || m' == EraseSector(m, a, sector))
    && (o == Good ==> a + sector <= |m| && m' == EraseSector(m, a, sector))
  }

  // Every entry of 'h' from position 'n' on is 'm' or 'm2'.
  ghost predicate Within(h: seq<Mem>, n: nat, m: Mem, m2: Mem) {
    forall k :: n <= k < |h| ==> h[k] == m || h[k] == m2
  }

  lemma WithinNothing(h: seq<Mem>, m: Mem, m2: Mem)
    ensures Within(h, |h|, m, m2)
  {
  }

  lemma WithinGrows(h: seq<Mem>, h2: seq<Mem>, n: nat, m: Mem, m2: Mem)
    requires n <= |h| && Within(h, n, m, m2) && (h2 == h || h2 == h + [m] || h2 == h + [m2])
    ensures h <= h2 && Within(h2, n, m, m2)
  {
  }

  // One of the m cycles from the n-th on reports no error.
  ghost predicate OneGood(fails: nat -> bool, n: nat, m: nat)
  {
    exists k: nat :: n <= k < n + m && !fails(k)
  }

  lemma GoodAt(fails: nat -> bool, n: nat, m: nat, k: nat)
    requires n <= k < n + m
    ensures !fails(k) ==> OneGood(fails, n, m)
  {
  }

  lemma GoodSplits(fails: nat -> bool, n: nat, a: nat, b: nat)
    ensures OneGood(fails, n, a + b) <==> OneGood(fails, n, a) || OneGood(fails, n + a, b)
  {
    if k: nat :| n <= k < n + a + b && !fails(k) {
      GoodAt(fails, n, a + b, k);
    }
  }

  // Eleven cycles have been run r times since cycle n, up to cycle g; all of them failed, but for the last time if
  // 'ok'.
  ghost predicate Retried(fails: nat -> bool, n: nat, g: nat, r: nat, ok: bool) {
    if ok then r <= 101 ==> OneGood(fails, n, 101 * 11) else g == n + 11 * r && !OneGood(fails, n, 11 * r)
  }

  lemma RetriedOnce(fails: nat -> bool, n: nat, g: nat, ok: bool)
    ensures ok == OneGood(fails, n, 11) && (!ok ==> g == n + 11) ==> Retried(fails, n, g, 1, ok)
  {
    GoodSplits(fails, n, 11, 100 * 11);
  }

  lemma RetriedNext(fails: nat -> bool, n: nat, g: nat, r: nat, g': nat, ok: bool)
    ensures Retried(fails, n, g, r, false) && ok == OneGood(fails, g, 11) && (!ok ==> g' == g + 11) ==>
      Retried(fails, n, g', r + 1, ok)
  {
    if Retried(fails, n, g, r, false) {
      GoodSplits(fails, n, 11 * r, 11);
      if r < 101 {
        GoodSplits(fails, n, 11 * (r + 1), 11 * (100 - r));
      }
    }
  }

  lemma RetriedAll(fails: nat -> bool, n: nat, g: nat, r: nat, ok: bool)
    ensures Retried(fails, n, g, r, ok) && r <= 101 && (ok || r == 101) ==> ok == OneGood(fails, n, 101 * 11)
  {
  }

  ghost predicate NoTenBad(fails: nat -> bool) {
    forall n: nat :: OneGood(fails, n, 10)
  }

  ghost predicate NoneSlow(latency: nat -> nat) {
    forall n {:trigger latency(n)} :: latency(n) <= 500
  }

  // 'count' cycles have been run one after the other from cycle n to cycle g, all but the last of which failed.
  ghost predicate Tried(fails: nat -> bool, n: nat, g: nat, count: nat, ok: bool, again: bool)
  {
    && g == n + count && again == !ok
    && if ok then count > 0 && !fails(g - 1) else !OneGood(fails, n, count)
  }

  lemma TriedNothing(fails: nat -> bool, n: nat)
    ensures Tried(fails, n, n, 0, false, true)
  {
  }

  lemma TriedNext(fails: nat -> bool, n: nat, g: nat, count: nat)
    requires Tried(fails, n, g, count, false, true)
    ensures Tried(fails, n, g + 1, count + 1, !fails(g), fails(g))
  {
  }

  lemma TriedAll(fails: nat -> bool, n: nat, g: nat, count: nat, ok: bool, again: bool, m: nat)
    requires Tried(fails, n, g, count, ok, again) && count <= m && (again ==> count == m)
    ensures ok == OneGood(fails, n, m) && g == n + count && (!ok ==> count == m)
  {
  }

  // The outcomes are what the cycles from the n-th on report, when each is over in time.
  ghost predicate Follows(fails: nat -> bool, n: nat, outs: seq<Outcome>) {
    forall i :: 0 <= i < |outs| ==> outs[i] == if fails(n + i) then Again else Good
  }

  lemma FollowsNext(fails: nat -> bool, n: nat, outs: seq<Outcome>, o: Outcome)
    ensures Follows(fails, n, outs) && o == (if fails(n + |outs|) then Again else Good) ==>
      Follows(fails, n, outs + [o])
  {
  }

  lemma OneSectorTried(fails: nat -> bool, n: nat, start: nat, sector: nat, outs: seq<Outcome>)
    ensures var run := EraseRun(start, sector, 1, outs);
      Follows(fails, n, outs) ==> !run.stopped && (run.j == 1 ==> run.ok == OneGood(fails, n, 10))
  {
    if Follows(fails, n, outs) {
      OneSectorFollows(fails, n, start, sector, outs);
    }
  }

  // Then a run over one sector succeeds exactly if one of ten cycles reports no error.
  lemma {:induction false} OneSectorFollows(fails: nat -> bool, n: nat, start: nat, sector: nat, outs: seq<Outcome>)
    requires Follows(fails, n, outs)
    ensures var run := EraseRun(start, sector, 1, outs);
      && !run.stopped && run.j <= 1
      && (run.j == 0 ==> run.count == |outs| < 10 && !OneGood(fails, n, |outs|))
      && (run.j == 1 ==> run.ok == OneGood(fails, n, 10))
  {
    if outs != [] {
      var k := |outs| - 1;
      OneSectorFollows(fails, n, start, sector, outs[..k]);
      if k < 10 {
        GoodAt(fails, n, 10, n + k);
      }
    }
  }

  class Flash {
    const size: nat
    const base: nat
    const berasesz: nat
    const ich9: bool
    const descriptorValid: bool

    // What the device will do: see the module comment.
    const latency: nat -> nat
    const fails: nat -> bool
    const takes: nat -> bool

    // Device state and registers.
    var cells: Mem
    var progress: Progress
    var done: bool
    var err: bool
    var dael: bool
    var flcycle: Cycle
    var fldbcount: nat
    var faddr: nat
    var fdata: u16
    var gos: nat

    ghost var hist: seq<Mem>

    ghost predicate Valid()
      reads this
    {
      && berasesz < 4
      && |hist| > 0
      && (forall k :: 0 <= k < |hist| ==> |hist[k]| == size)
      && |cells| == size
      && Settled() == hist[|hist| - 1]
      && (cells == hist[|hist| - 1] || (Pending() && |hist| >= 2 && cells == hist[|hist| - 2]))
      && (progress.Running? ==> 1 <= progress.request.size)
      && (progress.Running? && progress.request.cycle == Read ==> progress.request.size <= 2)
    }

    constructor (cells: Mem, base: nat, berasesz: nat, ich9: bool, descriptorValid: bool,
                 latency: nat -> nat, fails: nat -> bool, takes: nat -> bool)
      requires berasesz < 4
      ensures Valid() && hist == [cells] && progress == Idle
      ensures this.size == |cells| && this.base == base && this.berasesz == berasesz && this.ich9 == ich9
      ensures this.descriptorValid == descriptorValid
      ensures this.latency == latency && this.fails == fails && this.takes == takes
    {
      this.size, this.cells, this.hist := |cells|, cells, [cells];
      this.base, this.berasesz, this.ich9, this.descriptorValid := base, berasesz, ich9, descriptorValid;
      this.latency, this.fails, this.takes := latency, fails, takes;
      progress, done, err, dael, gos := Idle, false, false, false, 0;
      flcycle, fldbcount, faddr, fdata := Read, 0, 0, 0;
    }

    // A cycle that may change the cells is still running.
    ghost predicate Pending()
      reads this
    {
      progress.Running? && progress.request.cycle != Read
    }

    ghost function Now(): Mem
      reads this
      requires |hist| > 0
    {
      hist[|hist| - 1]
    }

    predicate Reports(r: Request, n: nat) {
      fails(n) || r.addr + r.size > size
    }

    function After(m: Mem, r: Request, n: nat): (m': Mem)
      ensures |m'| == |m|
    {
      if Reports(r, n) && !takes(n) then m else Effect(m, r)
    }

    function Settled(): (m: Mem)
      reads this
      ensures |m| == |cells|
    {
      if progress.Running? then After(cells, progress.request, progress.index) else cells
    }

    // A bank is exactly one erase sector, of a size the controller family supports.
    predicate OneSector(bankWords: nat) {
      2 * bankWords == SectorSize(berasesz) && (berasesz == 2 ==> ich9)
    }

    // No cycle outlasts the shortest poll; cycles may fail.
    ghost predicate Timely()
    {
      descriptorValid && NoneSlow(latency)
    }

    // Cycles fail at times, but never ten in a row.
    ghost predicate Healthy()
    {
      Timely() && NoTenBad(fails)
    }

    lemma GoodInMore(n: nat, m: nat)
      requires m >= 10
      ensures Healthy() ==> Timely() && OneGood(fails, n, m)
    {
      if Healthy() {
        assert OneGood(fails, n, 10);
      }
    }

    // A read of HSFSTS.  A cycle in progress may complete just before it.
    method ReadStatus() returns (s: Status)
      requires Valid()
      modifies this`cells, this`progress, this`done, this`err, this`fdata
      ensures Valid() && hist == old(hist)
      ensures s == Status(done, err, dael, berasesz, progress.Running?, descriptorValid)
      ensures old(progress.Idle?) ==>
        unchanged(this)
      ensures old(progress.Running?) ==>
        var p := old(progress);
        if p.left > 0 then
          && progress == Running(p.request, p.left - 1, p.index)
          && done == old(done) && err == old(err) && fdata == old(fdata)
        else
          && progress == Idle && done
          && err == (old(err) || Reports(p.request, p.index))
          && (p.request.cycle == Read && !Reports(p.request, p.index) ==>
            fdata == Fetch(Now(), p.request.addr, p.request.size))
    {
      if progress.Running? {
        var r, n := progress.request, progress.index;
        if progress.left > 0 {
          progress := Running(r, progress.left - 1, n);
        } else {
          cells := After(cells, r, n);
          progress, done, err := Idle, true, err || Reports(r, n);
          if r.cycle == Read && !Reports(r, n) {
            fdata := Fetch(cells, r.addr, r.size);
          }
        }
      }
      s := Status(done, err, dael, berasesz, progress.Running?, descriptorValid);
    }

    // A write of HSFSTS: the three event bits are cleared by writing 1 to them.
    method WriteStatus(s: Status)
      requires Valid()
      modifies this`done, this`err, this`dael
      ensures Valid()
      ensures done == (old(done) && !s.flcdone) && err == (old(err) && !s.flcerr)
      ensures dael == (old(dael) && !s.dael)
    {
      hide After, Reports;
      done, err, dael := done && !s.flcdone, err && !s.flcerr, dael && !s.dael;
    }

    // Setting FLCGO starts the cycle the control, address and data registers describe.
    method Go()
      requires Valid() && progress == Idle && fldbcount <= 1
      modifies this`progress, this`gos, this`hist
      ensures Valid() && gos == old(gos) + 1
      ensures progress == Running(Latched(), latency(old(gos)), old(gos))
      ensures flcycle == Read ==> hist == old(hist)
      ensures flcycle != Read ==> hist == old(hist) + [After(old(Now()), Latched(), old(gos))]
    {
      progress := Running(Latched(), latency(gos), gos);
      if flcycle != Read {
        hist := hist + [After(cells, Latched(), gos)];
      }
      gos := gos + 1;
    }

    function Latched(): (r: Request)
      reads this
      ensures r.size >= 1
    {
      Request(flcycle, faddr, if flcycle == Erase then SectorSize(berasesz) else fldbcount + 1, Lo(fdata))
    }

    // The power goes and comes back: a running cycle is lost, the cells stay as they are.
    method PowerCycle()
      requires Valid()
      modifies this
      ensures Valid() && progress == Idle && hist == old(hist) + [Now()]
      ensures Now() == old(Now()) || (old(Pending()) && |old(hist)| >= 2 && Now() == old(hist)[|old(hist)| - 2])
    {
      progress, done, err, dael := Idle, false, false, false;
      hist := hist + [cells];
    }

    // e1000_flash_cycle_init_ich8lan
    method CycleInit() returns (ok: bool)
      requires Valid()
      modifies this`cells, this`progress, this`done, this`err, this`dael, this`fdata
      ensures Valid() && hist == old(hist)
      ensures Pending() ==> old(Pending())
      ensures ok ==> descriptorValid && progress == Idle && !done && !err
      ensures old(progress) == Idle ==> progress == Idle
      ensures old(progress) == Idle && descriptorValid ==> ok
    {
      ok := false;
      var s := ReadStatus();
      if !s.fldesvalid {
        return;
      }
      s := s.(flcerr := true, dael := true);
      WriteStatus(s);
      if !s.flcinprog {
        s := s.(flcdone := true);
        WriteStatus(s);
        ok := true;
      } else {
        var i := 0;
        while i < READ_COMMAND_TIMEOUT && !ok
          invariant Valid() && hist == old(hist) && old(progress).Running? && (Pending() ==> old(Pending()))
          invariant ok ==> progress == Idle && s == Status(done, err, dael, berasesz, false, descriptorValid)
          decreases READ_COMMAND_TIMEOUT - i, !ok
        {
          s := ReadStatus();
          if !s.flcinprog {
            ok := true;
          } else {
            i := i + 1;
          }
        }
        if ok {
          s := s.(flcdone := true);
          WriteStatus(s);
        }
      }
    }

    // e1000_flash_cycle_ich8lan
    method RunCycle(timeout: nat) returns (ok: bool)
      requires Valid() && progress == Idle && !done && !err && fldbcount <= 1
      modifies this`cells, this`progress, this`done, this`err, this`fdata, this`gos, this`hist
      ensures Valid() && gos == old(gos) + 1
      ensures flcycle == Read ==> hist == old(hist)
      ensures flcycle != Read ==> hist == old(hist) + [After(old(Now()), old(Latched()), old(gos))]
      // A success is the completion of this very request.
      ensures ok ==> progress == Idle && !Reports(old(Latched()), old(gos))
      ensures ok && flcycle == Read ==> fdata == Fetch(Now(), faddr, fldbcount + 1)
      ensures flcycle == Read ==> !Pending()
      ensures latency(old(gos)) <= timeout ==> progress == Idle
      ensures latency(old(gos)) <= timeout && !Reports(old(Latched()), old(gos)) ==> ok
      ensures latency(old(gos)) <= timeout ==> done
    {
      hide After, Fetch;
      Go();
      ghost var r, n := progress.request, progress.index;
      ghost var h := hist;
      var i := 0;
      var s := ReadStatus();
      while !s.flcdone && i < timeout
        invariant i <= timeout && Valid() && hist == h && gos == old(gos) + 1
        invariant s.flcdone == done && s.flcerr == err
        invariant !done ==> progress.Running? && progress.request == r && progress.index == n && !err
        invariant !done ==> progress.left + i + 1 == latency(n)
        invariant done ==> progress == Idle && err == Reports(r, n)
        invariant done && !err && r.cycle == Read ==> fdata == Fetch(Now(), r.addr, r.size)
      {
        s := ReadStatus();
        i := i + 1;
      }
      ok := s.flcdone && !s.flcerr;
    }

    // Loads the registers and runs the cycle.
    method RunRequest(c: Cycle, addr: nat, count: nat, data: u8, timeout: nat) returns (ok: bool)
      requires Valid() && progress == Idle && !done && !err && count <= 1
      modifies this
      ensures Valid() && gos == old(gos) + 1
      ensures c == Read ==> hist == old(hist) && !Pending()
      ensures c != Read ==> hist == old(hist) + [Now()]
      ensures c != Read ==> Now() == old(Now()) || Now() == Effect(old(Now()), Asked(c, addr, count, data))
      ensures ok ==> progress == Idle && addr + Asked(c, addr, count, data).size <= size
      ensures ok && c != Read ==> Now() == Effect(old(Now()), Asked(c, addr, count, data))
      ensures ok && c == Read ==> fdata == Fetch(Now(), addr, count + 1)
      ensures Timely() && 500 <= timeout ==>
        progress == Idle && done && ok == (addr + Asked(c, addr, count, data).size <= size && !fails(old(gos)))
    {
      hide Effect, After, Fetch;
      flcycle, fldbcount, faddr := c, count, addr;
      if c == Write {
        fdata := data;
      }
      ghost var m, r, n := Now(), Latched(), gos;
      SameEffect(m, r, Asked(c, addr, count, data));
      Applied(m, r, n);
      ok := RunCycle(timeout);
    }

    // What a cycle leaves is the memory as it was, and then it reports a failure, or its full effect.
    lemma Applied(m: Mem, r: Request, n: nat)
      ensures (After(m, r, n) == m && Reports(r, n)) || After(m, r, n) == Effect(m, r)
    {
    }

    // One pass of any of the driver's three cycle loops: initialise, load the registers, run the cycle, and
    // after a failure look at the status once more.  'again' asks for another pass.
    method Attempt(c: Cycle, addr: nat, count: nat, data: u8, timeout: nat)
      returns (started: bool, ok: bool, again: bool)
      requires Valid() && count <= 1 && 500 <= timeout
      modifies this
      ensures Valid() && gos <= old(gos) + 1 && !(ok && again) && (ok ==> started)
      ensures !started || c == Read ==> hist == old(hist) && (Pending() ==> old(Pending()))
      ensures started && c != Read ==> hist == old(hist) + [Now()]
      ensures started && c != Read ==> Now() == old(Now()) || Now() == Effect(old(Now()), Asked(c, addr, count, data))
      ensures ok ==> progress == Idle && addr + Asked(c, addr, count, data).size <= size
      ensures ok && c != Read ==> Now() == Effect(old(Now()), Asked(c, addr, count, data))
      ensures ok && c == Read ==> fdata == Fetch(Now(), addr, count + 1)
      // A cycle that failed is asked for again.
      ensures Timely() && old(progress) == Idle ==>
        && progress == Idle && started && gos == old(gos) + 1 && again == !ok
        && ok == (addr + Asked(c, addr, count, data).size <= size && !fails(old(gos)))
    {
      ok, again := false, false;
      started := CycleInit();
      if started {
        ok := RunRequest(c, addr, count, data, timeout);
        if !ok {
          var s := ReadStatus();
          again := s.flcerr || s.flcdone;
        }
      }
    }

    function Asked(c: Cycle, addr: nat, count: nat, data: u8): (r: Request)
      ensures r.size >= 1
    {
      Request(c, addr, if c == Erase then SectorSize(berasesz) else count + 1, data)
    }

    // One pass of the loop of e1000_read_flash_data_ich8lan.
    method ReadOnce(offset: nat, bytes: nat) returns (ok: bool, again: bool, data: u16)
      requires Valid() && 1 <= bytes <= 2
      modifies this
      ensures Valid() && hist == old(hist) && gos <= old(gos) + 1 && !(ok && again)
      ensures Pending() ==> old(Pending())
      ensures ok ==> progress == Idle && base + offset + bytes <= size && data == Fetch(Now(), base + offset, bytes)
      ensures Timely() && old(progress) == Idle ==>
        && progress == Idle && gos == old(gos) + 1 && again == !ok
        && ok == (base + offset + bytes <= size && !fails(old(gos)))
    {
      var started;
      data := 0;
      started, ok, again := Attempt(Read, base + offset, bytes - 1, 0, READ_COMMAND_TIMEOUT);
      if ok {
        data := if bytes == 1 then Lo(fdata) else fdata;
      }
    }

    // e1000_read_flash_data_ich8lan
    method ReadData(offset: nat, bytes: nat) returns (ok: bool, data: u16)
      requires Valid()
      modifies this
      ensures Valid() && hist == old(hist)
      ensures Pending() ==> old(Pending())
      ensures gos <= old(gos) + 11
      ensures ok ==> progress == Idle && 1 <= bytes <= 2 && base + offset + bytes <= size
      ensures ok ==> data == Fetch(Now(), base + offset, bytes)
      ensures Healthy() && old(progress) == Idle ==>
        progress == Idle && ok == (1 <= bytes <= 2 && offset <= LINEAR_ADDR_MASK && base + offset + bytes <= size)
      // It succeeds exactly if one of eleven cycles does.
      ensures Timely() && old(progress) == Idle ==>
        && progress == Idle
        && ok == (&& 1 <= bytes <= 2 && offset <= 0xFF_FFFF && base + offset + bytes <= size
                  && OneGood(fails, old(gos), 11))
    {
      hide Tried, OneGood, NoneSlow, NoTenBad, Fetch;
      GoodInMore(gos, 11);
      TriedNothing(fails, gos);
      ok, data := false, 0;
      if bytes < 1 || bytes > 2 || offset > LINEAR_ADDR_MASK {
        return;
      }
      var count, again := 0, true;
      while again && count <= CYCLE_REPEAT_COUNT
        invariant 0 <= count <= 11 && gos <= old(gos) + count && !(ok && again) && (count == 0 ==> again)
        invariant Valid() && hist == old(hist) && (Pending() ==> old(Pending()))
        invariant ok ==> progress == Idle && base + offset + bytes <= size && data == Fetch(Now(), base + offset, bytes)
        invariant Timely() && old(progress) == Idle ==> progress == Idle
        invariant Timely() && old(progress) == Idle && base + offset + bytes <= size ==>
          Tried(fails, old(gos), gos, count, ok, again)
      {
        if Tried(fails, old(gos), gos, count, false, true) {
          TriedNext(fails, old(gos), gos, count);
        }
        ok, again, data := ReadOnce(offset, bytes);
        count := count + 1;
      }
      if Tried(fails, old(gos), gos, count, ok, again) {
        TriedAll(fails, old(gos), gos, count, ok, again, 11);
      }
    }

    // One pass of the loop of e1000_write_flash_data_ich8lan for one byte.
    method WriteOnce(offset: nat, byte: u8) returns (ok: bool, again: bool)
      requires Valid()
      modifies this
      ensures Valid() && gos <= old(gos) + 1 && !(ok && again)
      ensures var m := old(Now());
        hist == old(hist) || hist == old(hist) + [m] || hist == old(hist) + [Program(m, base + offset, byte)]
      ensures ok ==> progress == Idle && base + offset < size && Now() == Program(old(Now()), base + offset, byte)
      ensures Timely() && old(progress) == Idle ==>
        && progress == Idle && gos == old(gos) + 1 && again == !ok
        && ok == (base + offset < size && !fails(old(gos)))
    {
      var started;
      started, ok, again := Attempt(Write, base + offset, 0, byte, WRITE_COMMAND_TIMEOUT);
    }

    // e1000_write_flash_data_ich8lan, reached through e1000_write_flash_byte_ich8lan
    method WriteByte(offset: nat, byte: u8) returns (ok: bool)
      requires Valid()
      modifies this
      ensures Valid() && old(hist) <= hist
      ensures Within(hist, |old(hist)|, old(Now()), Program(old(Now()), base + offset, byte))
      ensures gos <= old(gos) + 11
      ensures ok ==> progress == Idle && offset <= LINEAR_ADDR_MASK && base + offset < size
      ensures ok ==> Now() == Program(old(Now()), base + offset, byte)
      ensures Healthy() && old(progress) == Idle ==>
        progress == Idle && ok == (offset <= LINEAR_ADDR_MASK && base + offset < size)
      ensures Timely() && old(progress) == Idle ==>
        && progress == Idle && ok == (offset <= 0xFF_FFFF && base + offset < size && OneGood(fails, old(gos), 11))
        && (!ok && offset <= 0xFF_FFFF && base + offset < size ==> gos == old(gos) + 11)
    {
      hide Tried, OneGood, NoneSlow, NoTenBad;
      GoodInMore(gos, 11);
      TriedNothing(fails, gos);
      ok := false;
      if offset > LINEAR_ADDR_MASK {
        return;
      }
      hide Program, Within;
      ghost var m := Now();
      ProgramTwice(m, base + offset, byte);
      WithinNothing(hist, m, Program(m, base + offset, byte));
      var count := 0;
      var again := true;
      while again && count <= CYCLE_REPEAT_COUNT
        invariant 0 <= count <= 11 && gos <= old(gos) + count && !(ok && again) && (count == 0 ==> again)
        invariant Valid() && old(hist) <= hist
        invariant Within(hist, |old(hist)|, m, Program(m, base + offset, byte))
        invariant Now() == m || Now() == Program(m, base + offset, byte)
        invariant ok ==> progress == Idle && base + offset < size && Now() == Program(m, base + offset, byte)
        invariant Timely() && old(progress) == Idle ==> progress == Idle
        invariant Timely() && old(progress) == Idle && base + offset < size ==>
          Tried(fails, old(gos), gos, count, ok, again)
      {
        if Tried(fails, old(gos), gos, count, false, true) {
          TriedNext(fails, old(gos), gos, count);
        }
        ghost var h := hist;
        ok, again := WriteOnce(offset, byte);
        WithinGrows(h, hist, |old(hist)|, m, Program(m, base + offset, byte));
        count := count + 1;
      }
      if Tried(fails, old(gos), gos, count, ok, again) {
        TriedAll(fails, old(gos), gos, count, ok, again, 11);
      }
    }

    // e1000_retry_write_flash_byte_ich8lan
    method RetryWriteByte(offset: nat, byte: u8) returns (ok: bool)
      requires Valid()
      modifies this
      ensures Valid() && old(hist) <= hist
      ensures Within(hist, |old(hist)|, old(Now()), Program(old(Now()), base + offset, byte))
      ensures gos <= old(gos) + 101 * 11
      ensures ok ==> progress == Idle && base + offset < size && Now() == Program(old(Now()), base + offset, byte)
      ensures Healthy() && old(progress) == Idle ==>
        progress == Idle && ok == (offset <= LINEAR_ADDR_MASK && base + offset < size)
      // It succeeds exactly if one of 101 * 11 cycles does.
      ensures Timely() && old(progress) == Idle ==>
        progress == Idle && ok == (offset <= 0xFF_FFFF && base + offset < size && OneGood(fails, old(gos), 101 * 11))
    {
      hide OneGood, NoneSlow, NoTenBad, Program, Retried;
      GoodInMore(gos, 101 * 11);
      ghost var m := Now();
      ProgramTwice(m, base + offset, byte);
      ok := WriteByte(offset, byte);
      RetriedOnce(fails, old(gos), gos, ok);
      var retries := 0;
      while !ok && retries < 100
        invariant 0 <= retries <= 100 && gos <= old(gos) + (retries + 1) * 11
        invariant Valid() && old(hist) <= hist
        invariant Within(hist, |old(hist)|, m, Program(m, base + offset, byte))
        invariant Now() == m || Now() == Program(m, base + offset, byte)
        invariant ok ==> progress == Idle && base + offset < size && Now() == Program(m, base + offset, byte)
        invariant Timely() && old(progress) == Idle ==>
          && progress == Idle
          && (offset <= LINEAR_ADDR_MASK && base + offset < size ==> Retried(fails, old(gos), gos, retries + 1, ok))
        invariant ok ==> offset <= LINEAR_ADDR_MASK
      {
        ghost var g := gos;
        ok := WriteByte(offset, byte);
        RetriedNext(fails, old(gos), g, retries + 1, gos, ok);
        retries := retries + 1;
      }
      RetriedAll(fails, old(gos), gos, retries + 1, ok);
    }

    // One pass of the inner loop of the bank erase; 'started' is false when initialisation failed.
    method EraseOnce(addr: nat) returns (started: bool, o: Outcome)
      requires Valid()
      modifies this
      ensures Valid()
      ensures |hist| == |old(hist)| && Pending() ==> old(Pending())
      ensures !started ==> hist == old(hist)
      ensures started ==> hist == old(hist) + [Now()] && ErasedStep(old(Now()), Now(), addr, SectorSize(berasesz), o)
      ensures started && o == Good ==> progress == Idle
      ensures Timely() && old(progress) == Idle ==>
        && progress == Idle && started && gos == old(gos) + 1
        && (addr + SectorSize(berasesz) <= size ==> o == if fails(old(gos)) then Again else Good)
    {
      var ok, again;
      started, ok, again := Attempt(Erase, addr, 0, 0, ERASE_COMMAND_TIMEOUT);
      o := if ok then Good else if again then Again else Dead;
    }

    // EraseOnce in an erase that began at 'start' with history 'h0' and cycle n0 and has met the outcomes 'outs'.
    method EraseNext(ghost h0: seq<Mem>, ghost n0: nat, ghost start: nat, ghost outs: seq<Outcome>, addr: nat, j: nat,
                     ghost iteration: nat)
      returns (next: nat, started: bool, o: Outcome, ghost outs': seq<Outcome>, ghost run': EraseState)
      requires Valid() && 0 < |h0| && h0 <= hist && j < iteration
      requires var run := EraseRun(start, SectorSize(berasesz), iteration, outs);
        Trail(hist, h0, run.issued, SectorSize(berasesz)) && run.addr == addr && run.j == j && !run.stopped
      modifies this
      ensures Valid() && h0 <= old(hist) <= hist && next == SectorAddr(addr, j, SectorSize(berasesz))
      ensures |hist| == |old(hist)| && Pending() ==> old(Pending())
      ensures outs' == if started then outs + [o] else outs
      ensures run' == EraseRun(start, SectorSize(berasesz), iteration, outs')
      ensures Trail(hist, h0, run'.issued, SectorSize(berasesz))
      ensures started ==>
        var run := EraseRun(start, SectorSize(berasesz), iteration, outs);
        && run'.addr == next && run'.ok == (o == Good) && run'.stopped == (o == Dead)
        && run'.count == (if o == Again then run.count + 1 else run.count)
        && run'.j == (if o == Good || (o == Again && run.count + 1 >= CYCLE_REPEAT_COUNT) then j + 1 else j)
      ensures j == 0 ==> next == addr
      ensures started && o == Good ==> progress == Idle
      ensures Timely() && old(progress) == Idle ==> progress == Idle && started && gos == old(gos) + 1
      ensures (&& Timely() && old(progress) == Idle && next + SectorSize(berasesz) <= size
               && old(gos) == n0 + |outs| && Follows(fails, n0, outs)) ==> Follows(fails, n0, outs')
    {
      hide EraseRun, Trail, Follows, SectorSize, NoneSlow;
      ghost var h := hist;
      ghost var sector := SectorSize(berasesz);
      ghost var run := EraseRun(start, sector, iteration, outs);
      next := SectorAddr(addr, j, SectorSize(berasesz));
      outs', run' := outs, run;
      started, o := EraseOnce(next);
      if started {
        TrailExtend(h, h0, run, sector, iteration, Now(), o);
        EraseStepFields(run, sector, iteration, o);
        RunSnoc(start, sector, iteration, outs, o);
        FollowsNext(fails, n0, outs, o);
        outs' := outs + [o];
        run' := EraseStep(run, sector, iteration, o);
      }
    }

    // The sector loop of e1000_erase_flash_bank_ich8lan, from its running address 'start'.  'outs' are the
    // outcomes it met.
    method EraseSectors(start: nat, iteration: nat) returns (ok: bool, ghost outs: seq<Outcome>, ghost run: EraseState)
      requires Valid()
      modifies this
      ensures Valid() && old(hist) <= hist
      ensures |hist| == |old(hist)| && Pending() ==> old(Pending())
      ensures run == EraseRun(start, SectorSize(berasesz), iteration, outs)
      ensures Trail(hist, old(hist), run.issued, SectorSize(berasesz))
      ensures ok ==> EraseFinished(run, iteration)
      ensures ok && iteration > 0 ==> progress == Idle
      ensures Healthy() && old(progress) == Idle ==>
        progress == Idle && (iteration == 1 && start + SectorSize(berasesz) <= size ==> ok)
      // One sector is erased exactly if one of ten cycles reports no error.
      ensures Timely() && old(progress) == Idle ==>
        && progress == Idle
        && (iteration == 1 && start + SectorSize(berasesz) <= size ==> ok == OneGood(fails, old(gos), 10))
    {
      GoodInMore(gos, 10);
      hide EraseRun, EraseStep, Trail, SectorSize, OneGood, Follows, NoneSlow, NoTenBad, SectorAddr;
      ok, outs := true, [];
      run := EraseRun(start, SectorSize(berasesz), iteration, outs);
      EraseBegins(start, SectorSize(berasesz), iteration, hist);
      var addr: nat := start;
      var j: nat, count: nat := 0, 0;
      while j < iteration
        invariant 0 <= j <= iteration
        invariant Valid() && old(hist) <= hist && (|hist| == |old(hist)| && Pending() ==> old(Pending()))
        invariant run == EraseRun(start, SectorSize(berasesz), iteration, outs)
        invariant run.j == j && run.count == count && run.addr == addr && run.ok == ok && !run.stopped
        invariant Trail(hist, old(hist), run.issued, SectorSize(berasesz))
        invariant ok && j > 0 ==> progress == Idle
        invariant j == 0 ==> addr == start
        invariant Timely() && old(progress) == Idle ==> progress == Idle && gos == old(gos) + |outs|
        invariant Timely() && old(progress) == Idle && iteration == 1 && start + SectorSize(berasesz) <= size ==>
          Follows(fails, old(gos), outs)
        decreases iteration - j, 10 - count
      {
        var started, o;
        addr, started, o, outs, run := EraseNext(old(hist), old(gos), start, outs, addr, j, iteration);
        if !started {
          ok := false;
          break;
        }
        ok := o == Good;
        if o == Dead {
          break;
        } else if o == Good {
          j := j + 1;
        } else {
          count := count + 1;
          if count >= CYCLE_REPEAT_COUNT {
            j := j + 1;
          }
        }
      }
      OneSectorTried(fails, old(gos), start, SectorSize(berasesz), outs);
    }

    // e1000_erase_flash_bank_ich8lan, for any sector size.
    method EraseBank(bank: nat, bankWords: nat) returns (ok: bool, ghost outs: seq<Outcome>, ghost run: EraseState)
      requires Valid() && bank <= 1
      modifies this
      ensures Valid() && old(hist) <= hist
      ensures |hist| == |old(hist)| && Pending() ==> old(Pending())
      ensures berasesz == 2 && !ich9 ==> !ok && hist == old(hist)
      ensures run == EraseRun(EraseStart(bank, bankWords), SectorSize(berasesz), Sectors(bankWords), outs)
      ensures Trail(hist, old(hist), run.issued, SectorSize(berasesz))
      ensures ok ==> EraseFinished(run, Sectors(bankWords))
      ensures ok && Sectors(bankWords) > 0 ==> progress == Idle
      ensures Healthy() && old(progress) == Idle ==>
        && progress == Idle
        && (OneSector(bankWords) && base + 4 * bankWords <= size ==> ok)
      ensures Timely() && old(progress) == Idle ==>
        && progress == Idle
        && (OneSector(bankWords) && base + 4 * bankWords <= size ==> ok == OneGood(fails, old(gos), 10))
    {
      ok, outs := false, [];
      run := EraseRun(EraseStart(bank, bankWords), SectorSize(berasesz), Sectors(bankWords), outs);
      var s := ReadStatus();
      if s.berasesz == 2 && !ich9 {
        return;
      }
      ok, outs, run := EraseSectors(EraseStart(bank, bankWords), Sectors(bankWords));
    }

    function Sectors(bankWords: nat): (n: nat)
      ensures OneSector(bankWords) ==> n == 1
    {
      2 * bankWords / SectorSize(berasesz)
    }

    function EraseStart(bank: nat, bankWords: nat): (a: nat)
      ensures OneSector(bankWords) && bank <= 1 ==> a == base + bank * (2 * bankWords)
    {
      if bank == 0 then base else base + SectorSize(berasesz) * Sectors(bankWords)
    }
  }

  lemma {:induction false} RunSnoc(start: nat, sector: nat, iteration: nat, outs: seq<Outcome>, o: Outcome)
    ensures EraseRun(start, sector, iteration, outs + [o])
         == EraseStep(EraseRun(start, sector, iteration, outs), sector, iteration, o)
  {
    assert (outs + [o])[..|outs|] == outs;
  }

  lemma EraseBegins(start: nat, sector: nat, iteration: nat, h: seq<Mem>)
    requires |h| > 0
    ensures EraseRun(start, sector, iteration, []) == EraseState(0, 0, start, [], true, false)
    ensures Trail(h, h, [], sector)
  {
  }

  lemma {:induction false} TrailExtend(h: seq<Mem>, h0: seq<Mem>, run: EraseState, sector: nat, iteration: nat,
                                       m: Mem, o: Outcome)
    requires 0 < |h0| <= |h| && Trail(h, h0, run.issued, sector)
    requires !run.stopped && run.j < iteration
    requires ErasedStep(h[|h| - 1], m, run.addr + run.j * sector, sector, o)
    ensures Trail(h + [m], h0, EraseStep(run, sector, iteration, o).issued, sector)
  {
    hide ErasedStep;
    var issued := EraseStep(run, sector, iteration, o).issued;
    assert (h + [m])[..|h|] == h && issued[..|issued| - 1] == run.issued;
  }

  // The erase did what was asked of it: it stayed inside the bank and left no byte of the bank out.
  ghost predicate ErasesBank(run: EraseState, start: nat, sector: nat, bankBytes: nat) {
    && (forall k :: 0 <= k < |run.issued| ==> start <= run.issued[k].0 && run.issued[k].0 + sector <= start + bankBytes)
    && (forall b :: start <= b < start + bankBytes ==> Covered(run, sector, b))
  }

  ghost predicate Covered(run: EraseState, sector: nat, b: nat) {
    exists k :: 0 <= k < |run.issued| && run.issued[k].1 == Good && run.issued[k].0 <= b < run.issued[k].0 + sector
  }

  // The running address makes the erase right, whatever the device reports, exactly when the bank is one sector.
  lemma EraseExact(start: nat, sector: nat, bankBytes: nat)
    requires sector > 0 && bankBytes > 0
    ensures (forall outs :: EraseFinished(EraseRun(start, sector, bankBytes / sector, outs), bankBytes / sector)
              ==> ErasesBank(EraseRun(start, sector, bankBytes / sector, outs), start, sector, bankBytes))
       <==> bankBytes == sector
  {
    if bankBytes == sector {
      forall outs | EraseFinished(EraseRun(start, sector, 1, outs), 1)
        ensures ErasesBank(EraseRun(start, sector, 1, outs), start, sector, bankBytes)
      {
        OneSectorRun(start, sector, outs);
        var run := EraseRun(start, sector, 1, outs);
        forall b | start <= b < start + bankBytes ensures Covered(run, sector, b) {
          var k := |run.issued| - 1;
          assert run.issued[k].1 == Good && run.issued[k].0 <= b < run.issued[k].0 + sector;
        }
      }
    } else {
      var outs := EraseGoesWrong(start, sector, bankBytes);
    }
  }

  lemma {:induction false} OneSectorRun(start: nat, sector: nat, outs: seq<Outcome>)
    ensures var run := EraseRun(start, sector, 1, outs);
      && (run.j == 0 ==> run.addr == start)
      && (forall k :: 0 <= k < |run.issued| ==> run.issued[k].0 == start)
      && (run.ok && run.j > 0 ==> |run.issued| > 0 && run.issued[|run.issued| - 1] == (start, Good))
  {
    if outs != [] {
      OneSectorRun(start, sector, outs[..|outs| - 1]);
    }
  }

  // When every erase issued went to the same sector, memory is as before or has that sector erased.
  lemma {:induction false} OneSectorTrail(h: seq<Mem>, h0: seq<Mem>, issued: seq<(nat, Outcome)>, start: nat,
                                          sector: nat)
    requires |h0| > 0 && Trail(h, h0, issued, sector)
    requires forall k :: 0 <= k < |issued| ==> issued[k].0 == start
    ensures h0 <= h
    ensures var m := h0[|h0| - 1];
      var e := EraseSector(m, start, sector);
      && Within(h, |h0|, m, e) && (h[|h| - 1] == m || h[|h| - 1] == e)
      && (issued != [] && issued[|issued| - 1].1 == Good ==> h[|h| - 1] == e)
  {
    if issued != [] {
      OneSectorTrail(h[..|h| - 1], h0, issued[..|issued| - 1], start, sector);
      var m := h0[|h0| - 1];
      assert EraseSector(EraseSector(m, start, sector), start, sector) == EraseSector(m, start, sector);
    }
  }

  // Outcomes after which the driver reports a finished erase that is not one: no sector at all, a part of a
  // sector left over, one retry in the second sector, or three or more sectors with no retry.
  lemma EraseGoesWrong(start: nat, sector: nat, bankBytes: nat) returns (outs: seq<Outcome>)
    requires sector > 0 && bankBytes > 0 && bankBytes != sector
    ensures var run := EraseRun(start, sector, bankBytes / sector, outs);
      EraseFinished(run, bankBytes / sector) && !ErasesBank(run, start, sector, bankBytes)
  {
    hide EraseRun;
    var n := bankBytes / sector;
    assert bankBytes == n * sector + bankBytes % sector;
    if n == 2 {
      outs := RetryInSecondSector(start, sector);
    } else {
      outs := seq(n, _ => Good);
      var b := GoodRunMisses(start, sector, n, outs);
      if n >= 3 {
        assert n * sector >= 3 * sector;
      }
    }
  }

  lemma RetryInSecondSector(start: nat, sector: nat) returns (outs: seq<Outcome>)
    requires sector > 0
    ensures var run := EraseRun(start, sector, 2, outs);
      EraseFinished(run, 2) && |run.issued| == 3 && run.issued[2].0 == start + 2 * sector
  {
    outs := [Good, Again, Good];
    RunSnoc(start, sector, 2, [], Good);
    RunSnoc(start, sector, 2, [Good], Again);
    RunSnoc(start, sector, 2, [Good, Again], Good);
    assert [] + [Good] == [Good] && [Good] + [Again] == [Good, Again] && [Good, Again] + [Good] == outs;
    assert EraseRun(start, sector, 2, []) == EraseState(0, 0, start, [], true, false);
    assert EraseRun(start, sector, 2, [Good]) == EraseState(1, 0, start, [(start, Good)], true, false);
    assert EraseRun(start, sector, 2, [Good, Again])
        == EraseState(1, 1, start + sector, [(start, Good), (start + sector, Again)], false, false);
  }

  // 0, 1, 3, 6, ...: the sectors a run without retries erases.
  function Triangle(k: nat): (t: nat)
    ensures t == 0 || t == 1 || t >= 3
    ensures k >= 2 ==> t > k
  {
    if k == 0 then 0 else Triangle(k - 1) + k
  }

  lemma TriangleStep(k: nat, sector: nat)
    requires k > 0
    ensures Triangle(k) * sector == Triangle(k - 1) * sector + k * sector
  {
  }

  // The state after k good erases.
  ghost predicate AllGood(run: EraseState, start: nat, sector: nat, k: nat) {
    && run.j == k == |run.issued| && run.ok && !run.stopped
    && run.addr == start + (if k == 0 then 0 else Triangle(k - 1)) * sector
    && forall i :: 0 <= i < k ==> run.issued[i] == (start + Triangle(i) * sector, Good)
  }

  lemma OneMoreGood(run: EraseState, start: nat, sector: nat, n: nat, k: nat)
    requires AllGood(run, start, sector, k) && k < n
    ensures AllGood(EraseStep(run, sector, n, Good), start, sector, k + 1)
  {
    if k > 0 {
      TriangleStep(k, sector);
    }
    assert run.addr + run.j * sector == start + Triangle(k) * sector;
  }

  lemma {:induction false} GoodRun(start: nat, sector: nat, n: nat, outs: seq<Outcome>)
    requires |outs| <= n && forall i :: 0 <= i < |outs| ==> outs[i] == Good
    ensures AllGood(EraseRun(start, sector, n, outs), start, sector, |outs|)
  {
    if outs != [] {
      var k := |outs| - 1;
      GoodRun(start, sector, n, outs[..k]);
      OneMoreGood(EraseRun(start, sector, n, outs[..k]), start, sector, n, k);
    }
  }

  // A run without retries leaves a byte uncovered that lies in any bank of at least n sectors and a byte.
  lemma GoodRunMisses(start: nat, sector: nat, n: nat, outs: seq<Outcome>) returns (b: nat)
    requires sector > 0 && n != 2 && |outs| == n && forall i :: 0 <= i < |outs| ==> outs[i] == Good
    ensures EraseFinished(EraseRun(start, sector, n, outs), n)
    ensures !Covered(EraseRun(start, sector, n, outs), sector, b)
    ensures b == start + (if n == 0 then 0 else if n == 1 then sector else 2 * sector)
  {
    GoodRun(start, sector, n, outs);
    b := start + (if n == 0 then 0 else if n == 1 then sector else 2 * sector);
    var run := EraseRun(start, sector, n, outs);
    forall k | 0 <= k < n ensures !(run.issued[k].0 <= b < run.issued[k].0 + sector) {
      NotTheThirdSector(k, sector);
    }
  }

  lemma NotTheThirdSector(k: nat, sector: nat)
    ensures Triangle(k) * sector <= sector || Triangle(k) * sector >= 3 * sector
    ensures k == 0 ==> Triangle(k) * sector == 0
  {
    var t := Triangle(k);
    if t >= 3 {
      assert t * sector >= 3 * sector;
    } else if t == 0 {
      assert t * sector == 0;
    }
  }

  lemma ProgramTwice(m: Mem, a: nat, v: u8)
    ensures Program(Program(m, a, v), a, v) == Program(m, a, v)
  {
    if a < |m| {
      AndTwice(m[a], v, 8);
    }
  }
}
