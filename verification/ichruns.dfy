/** Whole runs of the ICH NVM: any sequence of word writes, reads, commits that succeed or fail anywhere,
    and power losses, including a power loss in the middle of a commit. */
module IchRuns {
  import opened Bytes
  import opened FlashController
  import opened IchImage
  import opened IchNvm

  // 'hist' and 'shadow' as in the driver object; 'pending' when a program or an erase is still running.
  // 'base' is the image that was selected when the last commit that reached the flash began, 'target' the
  // complete image that commit was to leave, and 'from' the place in 'hist' where it began.
  datatype State = State(hist: seq<Mem>, shadow: seq<ShadowWord>, pending: bool, from: nat, base: seq<u16>,
                         target: seq<u16>)

  ghost predicate WellFormed(s: State) {
    |s.hist| > 0 && |s.shadow| == SHADOW_RAM_WORDS
  }

  ghost function Current(g: Geometry, s: State): (r: Option<seq<u16>>)
    requires WellFormed(s)
    ensures r.Some? ==> |r.value| == SHADOW_RAM_WORDS
  {
    Selected(g, s.hist[|s.hist| - 1])
  }

  // What the cells may hold at this moment.
  ghost predicate MayHold(s: State, m: Mem)
    requires WellFormed(s)
  {
    m == s.hist[|s.hist| - 1] || (s.pending && |s.hist| >= 2 && m == s.hist[|s.hist| - 2])
  }

  ghost predicate WriteStep(s: State, s': State)
    requires WellFormed(s)
  {
    exists offset: nat, data: seq<u16> :: offset + |data| <= SHADOW_RAM_WORDS && WroteAt(s, s', offset, data)
  }

  ghost predicate WroteAt(s: State, s': State, offset: nat, data: seq<u16>)
    requires WellFormed(s) && offset + |data| <= SHADOW_RAM_WORDS
  {
    && s' == State(s.hist, Written(s.shadow, offset, data), s'.pending, s.from, s.base, s.target)
    && (s'.pending ==> s.pending)
  }

  // Reads, refused writes and commits that stop before the flash: at most a running cycle comes to its end.
  ghost predicate QuietStep(s: State, s': State) {
    s' == State(s.hist, s.shadow, s'.pending, s.from, s.base, s.target) && (s'.pending ==> s.pending)
  }

  ghost predicate CommitStep(g: Geometry, s: State, s': State, ok: bool)
    requires WellFormed(s) && WellFormed(s')
  {
    Current(g, s).Some? && CommitFrom(g, s, s', ok, Current(g, s).value, WithChecksum(Current(g, s).value, s.shadow))
  }

  ghost predicate CommitFrom(g: Geometry, s: State, s': State, ok: bool, img: seq<u16>, sh: seq<ShadowWord>)
    requires WellFormed(s) && WellFormed(s') && |img| == |sh| == SHADOW_RAM_WORDS
  {
    && Committed(g, s.hist, s'.hist, img, sh, ok)
    && s'.shadow == (if ok then EmptyShadow() else sh)
    && (ok ==> !s'.pending)
    && (|s'.hist| == |s.hist| ==>
          (s'.pending ==> s.pending) && s'.from == s.from && s'.base == s.base && s'.target == s.target)
    && (|s'.hist| > |s.hist| ==>
          s'.from == |s.hist| - 1 && s'.base == img && s'.target == NewImage(img, sh))
  }

  ghost predicate PowerLossStep(s: State, s': State)
    requires WellFormed(s) && WellFormed(s')
  {
    && |s'.hist| == |s.hist| + 1 && s.hist <= s'.hist
    && MayHold(s, s'.hist[|s.hist|])
    && s' == State(s'.hist, EmptyShadow(), false, s.from, s.base, s.target)
  }

  ghost predicate Step(g: Geometry, s: State, s': State) {
    && WellFormed(s) && WellFormed(s')
    && (|| WriteStep(s, s') || QuietStep(s, s') || PowerLossStep(s, s')
        || CommitStep(g, s, s', true) || CommitStep(g, s, s', false))
  }

  // Everything since the last commit began selects its base or its target.
  ghost predicate Safe(g: Geometry, s: State) {
    && WellFormed(s) && s.from < |s.hist|
    && (s.pending ==> s.from + 2 <= |s.hist|)
    && EachSelects(g, s.hist, s.from, s.base, s.target)
  }

  ghost predicate Start(g: Geometry, s: State) {
    && WellFormed(s) && |s.hist| == 1 && !s.pending && s.from == 0
    && Current(g, s) == Some(s.base) && s.target == s.base
  }

  ghost predicate Run(g: Geometry, run: seq<State>) {
    && |run| > 0 && Start(g, run[0])
    && forall i :: 0 <= i < |run| - 1 ==> Step(g, run[i], run[i + 1])
  }

  lemma StepKeepsSafe(g: Geometry, s: State, s': State)
    requires Safe(g, s) && Step(g, s, s')
    ensures Safe(g, s')
  {
    if CommitStep(g, s, s', true) || CommitStep(g, s, s', false) {
      var img := Current(g, s).value;
      if |s'.hist| > |s.hist| {
        assert s'.hist[|s.hist| - 1] == s.hist[|s.hist| - 1];
      } else {
        assert s'.hist == s.hist;
      }
    } else if PowerLossStep(s, s') {
      assert forall k :: 0 <= k < |s.hist| ==> s'.hist[k] == s.hist[k];
    }
  }

  // Crash atomicity: at every moment of every run, whatever the cells hold if the power goes now, bank
  // detection succeeds and selects exactly the image the last commit began with or its complete new image.
  lemma {:induction false} RunIsSafe(g: Geometry, run: seq<State>, i: nat, m: Mem)
    requires Run(g, run) && i < |run| && WellFormed(run[i]) && MayHold(run[i], m)
    ensures Safe(g, run[i])
    ensures Detect(g, m).Some?
    ensures Selected(g, m) == Some(run[i].base) || Selected(g, m) == Some(run[i].target)
  {
    RunKeepsSafe(g, run, i);
    var s := run[i];
    var k := if m == s.hist[|s.hist| - 1] then |s.hist| - 1 else |s.hist| - 2;
    assert s.hist[k] == m;
  }

  lemma {:induction false} RunKeepsSafe(g: Geometry, run: seq<State>, i: nat)
    requires Run(g, run) && i < |run|
    ensures Safe(g, run[i])
  {
    if i > 0 {
      RunKeepsSafe(g, run, i - 1);
      assert Step(g, run[i - 1], run[i - 1 + 1]);
      StepKeepsSafe(g, run[i - 1], run[i]);
    }
  }

  // The complete image a commit in this state is to leave.
  ghost function Intended(g: Geometry, s: State): seq<u16>
    requires WellFormed(s) && Current(g, s).Some?
  {
    NewImage(Current(g, s).value, WithChecksum(Current(g, s).value, s.shadow))
  }

  lemma CommitHolds(g: Geometry, s: State, s': State)
    requires CommitSucceeded(g, s, s')
    ensures WellFormed(s) && WellFormed(s') && Current(g, s).Some?
    ensures Current(g, s') == Some(Intended(g, s)) && !s'.pending
  {
  }

  lemma QuietKeeps(g: Geometry, s: State, s': State)
    requires NotACommit(s, s') && !s.pending
    ensures WellFormed(s) && WellFormed(s') && Current(g, s') == Current(g, s) && !s'.pending
  {
  }

  // Durability: once a commit has succeeded, only another commit can change the selected image.
  lemma {:induction false} SuccessLasts(g: Geometry, run: seq<State>, i: nat, j: nat)
    requires Run(g, run) && 0 < i <= j < |run| && CommitSucceeded(g, run[i - 1], run[i])
    requires forall k :: i < k <= j ==> NotACommit(run[k - 1], run[k])
    ensures WellFormed(run[i - 1]) && Current(g, run[i - 1]).Some?
    ensures WellFormed(run[j]) && !run[j].pending
    ensures Current(g, run[j]) == Some(Intended(g, run[i - 1]))
  {
    CommitHolds(g, run[i - 1], run[i]);
    if j > i {
      SuccessLasts(g, run, i, j - 1);
      assert NotACommit(run[j - 1], run[j]);
      QuietKeeps(g, run[j - 1], run[j]);
    }
  }

  ghost predicate NotACommit(s: State, s': State) {
    WellFormed(s) && WellFormed(s') && (WriteStep(s, s') || QuietStep(s, s') || PowerLossStep(s, s'))
  }

  ghost predicate CommitSucceeded(g: Geometry, s: State, s': State) {
    WellFormed(s) && WellFormed(s') && CommitStep(g, s, s', true)
  }

  // Cutting the power in the middle of a commit is a failed commit followed by a power loss.
  lemma CutIsFailedCommit(g: Geometry, s: State, s': State, ok: bool, n: nat)
    requires WellFormed(s) && WellFormed(s') && CommitStep(g, s, s', ok) && |s.hist| < n <= |s'.hist|
    ensures CommitStep(g, s, State(s'.hist[..n], WithChecksum(Current(g, s).value, s.shadow), true,
                                   s'.from, s'.base, s'.target), false)
  {
    var h := s'.hist[..n];
    assert forall k :: 0 <= k < n ==> h[k] == s'.hist[k];
  }

  // --- The driver object follows such runs ---------------------------------------------------------

  datatype Op =
    | OpWrite(offset: nat, data: seq<u16>)
    | OpRead(from: nat, words: nat)
    | OpCommit
    | OpValidate
    | OpPowerCycle

  ghost predicate Matches(nvm: Nvm, s: State)
    reads nvm, nvm.flash, nvm.shadow
    requires nvm.Valid()
  {
    WellFormed(s) && s.hist == nvm.flash.hist && s.shadow == nvm.shadow[..] && s.pending == nvm.flash.Pending()
  }

  method PerformCommit(nvm: Nvm, ghost s: State) returns (ok: bool, ghost s': State)
    requires nvm.Valid() && nvm.flash.OneSector(nvm.bankWords) && Matches(nvm, s)
    modifies nvm, nvm.flash, nvm.shadow
    ensures nvm.Valid() && Matches(nvm, s') && Step(nvm.Geo(), s, s')
    ensures ok ==> CommitStep(nvm.Geo(), s, s', true)
    ensures old(nvm.Calm()) ==> nvm.Resting() && ok == Current(nvm.Geo(), s).Some?
  {
    hide Selected, Overlay, NewImage, EachSelects, EmptyShadow;
    ghost var written;
    ok, written := nvm.UpdateChecksum();
    s' := AfterCommit(nvm.Geo(), s, nvm.flash.hist, nvm.shadow[..], nvm.flash.Pending(), written);
    assert written ==> CommitStep(nvm.Geo(), s, s', ok);
  }

  // A validation is at most two steps: word 0x19 is written, and then everything is committed.
  method PerformValidate(nvm: Nvm, ghost s: State) returns (ok: bool, ghost mid: State, ghost s': State)
    requires nvm.Valid() && nvm.flash.OneSector(nvm.bankWords) && Matches(nvm, s)
    modifies nvm, nvm.flash, nvm.shadow
    ensures nvm.Valid() && Matches(nvm, s') && Step(nvm.Geo(), s, mid) && Step(nvm.Geo(), mid, s')
    ensures ok ==> Validated(nvm.Geo(), s, s')
    ensures old(nvm.Calm()) ==> ok == WillValidate(nvm.Geo(), s)
  {
    hide Selected, Overlay, Sum, Repairs, Step, Validated, AfterValidate, EmptyShadow, SigBits, Bit6;
    ghost var trail;
    ok, trail := nvm.ValidateChecksum();
    mid := Between(s, trail);
    s' := AfterValidate(nvm.Geo(), s, trail, nvm.flash.hist, nvm.shadow[..], nvm.flash.Pending());
    ValidateSteps(nvm.Geo(), s, trail, s', ok);
  }

  // The state between the two steps, and the last one.
  ghost function Between(s: State, trail: Repair): State
    requires WellFormed(s)
  {
    match trail
    case Untouched => s
    case Tried(w, _, _) => s.(shadow := Written(s.shadow, FIX_WORD, [w]))
  }

  ghost function AfterValidate(g: Geometry, s: State, trail: Repair, h: seq<Mem>, shadow: seq<ShadowWord>,
                               pending: bool): (r: State)
    requires WellFormed(s)
    ensures r.hist == h && r.shadow == shadow && r.pending == pending
  {
    match trail
    case Untouched => State(h, shadow, pending, s.from, s.base, s.target)
    case Tried(_, written, _) => AfterCommit(g, Between(s, trail), h, shadow, pending, written)
  }

  // What a reader sees in this state.
  ghost function View(g: Geometry, s: State): (r: seq<u16>)
    requires WellFormed(s) && Current(g, s).Some?
    ensures |r| == SHADOW_RAM_WORDS
  {
    Overlay(Current(g, s).value, s.shadow)
  }

  // A successful validation leaves a good sum, changes nothing if bit 6 of word 0x19 was set, and else leaves the
  // repaired image in the flash.
  ghost predicate Validated(g: Geometry, s: State, s': State)
    requires WellFormed(s) && WellFormed(s')
  {
    && Current(g, s).Some? && Current(g, s').Some?
    && Sum(View(g, s'), CHECKSUM_REG + 1) == NVM_SUM
    && if Bit6(View(g, s)[FIX_WORD]) then QuietStep(s, s')
       else Current(g, s') == Some(Repaired(Current(g, s).value, s.shadow)) && s'.shadow == EmptyShadow() && !s'.pending
  }

  ghost predicate WillValidate(g: Geometry, s: State)
    requires WellFormed(s)
  {
    && Current(g, s).Some?
    && if Bit6(View(g, s)[FIX_WORD]) then Sum(View(g, s), CHECKSUM_REG + 1) == NVM_SUM
       else SigBits(View(g, s)[SIG_WORD])
  }

  // A successful operation did this.
  ghost predicate Did(g: Geometry, s: State, s': State, op: Op) {
    && WellFormed(s) && WellFormed(s')
    && match op
       case OpWrite(offset, data) => offset + |data| <= SHADOW_RAM_WORDS && WroteAt(s, s', offset, data)
       case OpRead(_, _) => QuietStep(s, s')
       case OpCommit => CommitStep(g, s, s', true)
       case OpValidate => Validated(g, s, s')
       case OpPowerCycle => s'.shadow == EmptyShadow() && !s'.pending
  }

  // It succeeds when nothing goes wrong and its arguments are in range.
  ghost predicate Sensible(g: Geometry, s: State, op: Op)
    requires WellFormed(s)
  {
    match op
    case OpWrite(offset, data) => 0 < |data| && offset + |data| <= SHADOW_RAM_WORDS
    case OpRead(from, words) => 0 < words && from + words <= SHADOW_RAM_WORDS && Current(g, s).Some?
    case OpCommit => Current(g, s).Some?
    case OpValidate => WillValidate(g, s)
    case OpPowerCycle => true
  }

  // One operation of the driver, or a power cycle with the driver started afresh.  It is two steps of a run, the
  // first of which does nothing unless a validation repairs word 0x19.
  method Perform(nvm: Nvm, op: Op, ghost s: State) returns (ok: bool, ghost mid: State, ghost s': State)
    requires nvm.Valid() && nvm.flash.OneSector(nvm.bankWords) && Matches(nvm, s)
    modifies nvm, nvm.flash, nvm.shadow
    ensures nvm.Valid() && Matches(nvm, s') && Step(nvm.Geo(), s, mid) && Step(nvm.Geo(), mid, s')
    ensures !op.OpValidate? ==> mid == s
    ensures ok ==> Did(nvm.Geo(), s, s', op)
    ensures old(nvm.Calm()) ==> ok == Sensible(nvm.Geo(), s, op)
  {
    hide Selected, Detect, Validated, WillValidate, Committed, WithChecksum, NewImage;
    mid := s;
    match op {
      case OpWrite(offset, data) =>
        ok := nvm.WriteNvm(offset, data);
        s' := s.(shadow := nvm.shadow[..]);
        assert ok ==> WroteAt(s, s', offset, data);
      case OpRead(from, words) =>
        var data;
        ok, data := nvm.ReadNvm(from, words);
        s' := s.(pending := nvm.flash.Pending());
      case OpCommit =>
        ok, s' := PerformCommit(nvm, s);
      case OpValidate =>
        ok, mid, s' := PerformValidate(nvm, s);
      case OpPowerCycle =>
        nvm.flash.PowerCycle();
        nvm.ClearShadow();
        nvm.Release();
        ok := true;
        s' := State(nvm.flash.hist, nvm.shadow[..], false, s.from, s.base, s.target);
    }
  }

  ghost function AfterCommit(g: Geometry, s: State, h: seq<Mem>, shadow: seq<ShadowWord>, pending: bool,
                             written: bool): (r: State)
    requires WellFormed(s)
    ensures r.hist == h && r.shadow == shadow && r.pending == pending
  {
    if written && |h| > |s.hist| && Current(g, s).Some? then
      State(h, shadow, pending, |s.hist| - 1, Current(g, s).value,
            NewImage(Current(g, s).value, WithChecksum(Current(g, s).value, s.shadow)))
    else State(h, shadow, pending, s.from, s.base, s.target)
  }

  lemma ValidateSteps(g: Geometry, s: State, trail: Repair, s': State, ok: bool)
    requires WellFormed(s) && WellFormed(s')
    requires Repairs(trail, g, s.hist, s'.hist, s.shadow, s'.shadow)
    requires trail.Tried? ==> Current(g, s).Some? && trail.w == SetBit6(View(g, s)[FIX_WORD])
    requires trail.Tried? && trail.ok ==> !s'.pending
    requires |s'.hist| == |s.hist| && s'.pending ==> s.pending
    requires s' == AfterValidate(g, s, trail, s'.hist, s'.shadow, s'.pending)
    requires ok ==> Current(g, s).Some? && Current(g, s').Some? && Sum(View(g, s'), CHECKSUM_REG + 1) == NVM_SUM
    requires ok && Bit6(View(g, s)[FIX_WORD]) ==> trail == Untouched
    requires ok && !Bit6(View(g, s)[FIX_WORD]) ==> trail.Tried? && trail.ok
    ensures Step(g, s, Between(s, trail)) && Step(g, Between(s, trail), s')
    ensures ok ==> Validated(g, s, s')
  {
    hide Selected, Overlay, Sum, Written, WithChecksum, Committed, NewImage, EmptyShadow, Bit6, SigBits;
    match trail {
      case Untouched =>
        assert QuietStep(s, s');
      case Tried(w, written, tok) =>
        var mid := Between(s, trail);
        assert WroteAt(s, mid, FIX_WORD, [w]);
        assert if written then CommitStep(g, mid, s', tok) else QuietStep(mid, s');
        RepairOutcome(trail, g, s.hist, s'.hist, s.shadow, s'.shadow);
    }
  }

  // What the i-th operation did: states 2i and 2i + 2 of the run are those around it.
  ghost predicate DidAt(g: Geometry, run: seq<State>, ops: seq<Op>, i: nat) {
    2 * i + 2 < |run| && i < |ops| && Did(g, run[2 * i], run[2 * i + 2], ops[i])
  }

  lemma DidStays(g: Geometry, run: seq<State>, more: seq<State>, ops: seq<Op>, oks: seq<bool>)
    requires forall k :: 0 <= k < |oks| && oks[k] ==> DidAt(g, run, ops, k)
    ensures forall k :: 0 <= k < |oks| && oks[k] ==> DidAt(g, run + more, ops, k)
  {
    forall k | 0 <= k < |oks| && oks[k] ensures DidAt(g, run + more, ops, k) {
      assert DidAt(g, run, ops, k);
    }
  }

  // Any list of operations takes the driver through a run, so every moment of it is crash safe.
  method Session(nvm: Nvm, ops: seq<Op>) returns (oks: seq<bool>, ghost run: seq<State>)
    requires nvm.Valid() && nvm.flash.OneSector(nvm.bankWords) && nvm.Seen().Some?
    requires |nvm.flash.hist| == 1 && !nvm.flash.Pending()
    modifies nvm, nvm.flash, nvm.shadow
    ensures nvm.Valid() && nvm.Seen().Some?
    ensures Run(nvm.Geo(), run) && |run| == 2 * |ops| + 1 && Matches(nvm, run[2 * |ops|])
    ensures run[0].base == old(nvm.Seen().value)
    ensures |oks| == |ops| && forall i :: 0 <= i < |ops| && oks[i] ==> DidAt(nvm.Geo(), run, ops, i)
  {
    hide Step, Did, Selected, Detect, NotACommit;
    ghost var s := State(nvm.flash.hist, nvm.shadow[..], false, 0, nvm.Seen().value, nvm.Seen().value);
    run := [s];
    oks := [];
    for i := 0 to |ops|
      invariant nvm.Valid() && |run| == 2 * i + 1 && run[2 * i] == s && Matches(nvm, s)
      invariant Run(nvm.Geo(), run) && run[0].base == old(nvm.Seen().value)
      invariant |oks| == i && forall k :: 0 <= k < i && oks[k] ==> DidAt(nvm.Geo(), run, ops, k)
    {
      var ok;
      ghost var mid, t;
      ok, mid, t := Perform(nvm, ops[i], s);
      RunExtend(nvm.Geo(), run, mid);
      RunExtend(nvm.Geo(), run + [mid], t);
      DidStays(nvm.Geo(), run, [mid] + [t], ops, oks);
      assert run + ([mid] + [t]) == run + [mid] + [t];
      run, s, oks := run + [mid] + [t], t, oks + [ok];
    }
    RunIsSafe(nvm.Geo(), run, 2 * |ops|, nvm.Mem());
  }

  lemma RunExtend(g: Geometry, run: seq<State>, s: State)
    requires Run(g, run) && Step(g, run[|run| - 1], s)
    ensures Run(g, run + [s])
  {
    hide Step, Start;
    var r := run + [s];
    forall i | 0 <= i < |r| - 1 ensures Step(g, r[i], r[i + 1]) {
      if i < |run| - 1 {
        assert r[i] == run[i] && r[i + 1] == run[i + 1];
      }
    }
  }
}
