/** One agent of the semaphore protocol among the others: what the others may do between two of its accesses, and what
    it means that they do not keep the semaphore for ever. */
module SwFwOthers {
  import opened SwFw

  // What the other agents and the firmware do before the t-th access of the one in view, from the state they find.
  type Others = (nat, State) -> seq<Event>

  predicate ByOther(e: Event, i: nat) {
    match e
    case Call(j, _) => j != i
    case Access(j) => j != i
    case FwGet(_) => true
    case FwAccess => true
  }

  function MoveOne(timeout: nat, i: nat, s: State, e: Event): State {
    if ByOther(e, i) && Enabled(s, e) then Apply(timeout, s, e) else s
  }

  // Their steps in turn; one that is not possible is left out.
  function Moved(timeout: nat, i: nat, s: State, es: seq<Event>): State
    decreases |es|
  {
    if es == [] then s else Moved(timeout, i, MoveOne(timeout, i, s, es[0]), es[1..])
  }

  // --- States of runs ---------------------------------------------------------------------------------

  ghost predicate Reachable(timeout: nat, s: State) {
    exists run, events :: EndsIn(timeout, run, events, s)
  }

  ghost predicate EndsIn(timeout: nat, run: seq<State>, events: seq<Event>, s: State) {
    Run(timeout, run, events) && run[|events|] == s
  }

  lemma StartReachable(timeout: nat, s: State)
    requires Start(s)
    ensures Reachable(timeout, s)
  {
    assert EndsIn(timeout, [s], [], s);
  }

  lemma ReachableInv(timeout: nat, s: State)
    requires Reachable(timeout, s)
    ensures Inv(s)
  {
    var run, events :| EndsIn(timeout, run, events, s);
    RunInv(timeout, run, events, |events|);
  }

  lemma ReachableStep(timeout: nat, s: State, e: Event)
    requires Reachable(timeout, s) && Enabled(s, e)
    ensures Reachable(timeout, Apply(timeout, s, e))
  {
    var run, events :| EndsIn(timeout, run, events, s);
    var run', events' := run + [Apply(timeout, s, e)], events + [e];
    forall k | 0 <= k < |events'|
      ensures Enabled(run'[k], events'[k]) && run'[k + 1] == Apply(timeout, run'[k], events'[k])
    {
      if k < |events| {
        assert run'[k] == run[k] && run'[k + 1] == run[k + 1] && events'[k] == events[k];
      } else {
        assert run'[k] == s;
      }
    }
    assert EndsIn(timeout, run', events', Apply(timeout, s, e));
  }

  lemma {:induction false} MovedReachable(timeout: nat, i: nat, s: State, es: seq<Event>)
    requires Reachable(timeout, s)
    ensures Reachable(timeout, Moved(timeout, i, s, es))
    decreases |es|
  {
    if es != [] {
      if ByOther(es[0], i) && Enabled(s, es[0]) {
        ReachableStep(timeout, s, es[0]);
      }
      MovedReachable(timeout, i, MoveOne(timeout, i, s, es[0]), es[1..]);
    }
  }

  // --- What the others cannot do ------------------------------------------------------------------------

  lemma {:induction false} MovedKeepsMe(timeout: nat, i: nat, s: State, es: seq<Event>)
    requires i < |s.agents|
    ensures |Moved(timeout, i, s, es).agents| == |s.agents| && Moved(timeout, i, s, es).agents[i] == s.agents[i]
    decreases |es|
  {
    if es != [] {
      MovedKeepsMe(timeout, i, MoveOne(timeout, i, s, es[0]), es[1..]);
    }
  }

  lemma OneInside(s: State, i: nat, j: nat)
    requires Inv(s) && i < |s.agents| && j < |s.agents| && i != j && Inside(s.agents[i])
    ensures !Inside(s.agents[j])
  {
  }

  // While an agent is inside with SWESMBI latched, the others change neither the latch nor SW_FW_SYNC.
  lemma OneKeepsLatch(timeout: nat, i: nat, s: State, e: Event)
    requires Inv(s) && i < |s.agents| && Inside(s.agents[i]) && s.regs.swesmbi
    ensures MoveOne(timeout, i, s, e).regs == s.regs
  {
    assert s.regs.smbi;
    if ByOther(e, i) && Enabled(s, e) && e.Access? {
      OneInside(s, i, e.agent);
    }
  }

  lemma {:induction false} MovedKeepsLatch(timeout: nat, i: nat, s: State, es: seq<Event>)
    requires Inv(s) && i < |s.agents| && Inside(s.agents[i]) && s.regs.swesmbi
    ensures Moved(timeout, i, s, es).regs == s.regs
    decreases |es|
  {
    if es != [] {
      OneKeepsLatch(timeout, i, s, es[0]);
      if ByOther(es[0], i) && Enabled(s, es[0]) {
        InvStep(timeout, s, es[0]);
      }
      MovedKeepsLatch(timeout, i, MoveOne(timeout, i, s, es[0]), es[1..]);
    }
  }

  // --- Not contended for ever -----------------------------------------------------------------------------

  // Nobody else is inside the section and the firmware is not on its side.
  predicate FreeFor(s: State, i: nat) {
    s.fwPc.FwIdle? && forall j :: 0 <= j < |s.agents| && j != i ==> !Inside(s.agents[j])
  }

  // When the agent makes its t-th access the others have left, whatever the state of the run they found.
  ghost predicate Leaves(timeout: nat, i: nat, others: Others, t: nat) {
    forall s: State :: Reachable(timeout, s) && i < |s.agents| ==> FreeFor(Moved(timeout, i, s, others(t, s)), i)
  }

  // Long enough for one attempt.
  ghost predicate Quiet(timeout: nat, i: nat, others: Others, u: nat) {
    forall t: nat :: u <= t < u + 8 ==> Leaves(timeout, i, others, t)
  }

  ghost predicate QuietAfter(timeout: nat, i: nat, others: Others, t: nat) {
    exists u: nat :: t <= u && Quiet(timeout, i, others, u)
  }

  ghost predicate Opens(timeout: nat, i: nat, others: Others) {
    forall t: nat :: QuietAfter(timeout, i, others, t)
  }

  // What the agent finds at an access: SMBI clear at a poll when the others have left, and a latch that was latched.
  lemma FoundByAgent(timeout: nat, i: nat, others: Others, t: nat, s: State)
    requires Reachable(timeout, s) && i < |s.agents|
    ensures var w := Moved(timeout, i, s, others(t, s));
      && Reachable(timeout, w) && |w.agents| == |s.agents| && w.agents[i] == s.agents[i]
      && (Leaves(timeout, i, others, t) && !Inside(s.agents[i]) ==> !w.regs.smbi)
      && (Leaves(timeout, i, others, t) ==> !w.regs.fwesmbi)
      && (Inside(s.agents[i]) && s.regs.swesmbi ==> w.regs == s.regs)
  {
    var w := Moved(timeout, i, s, others(t, s));
    MovedReachable(timeout, i, s, others(t, s));
    MovedKeepsMe(timeout, i, s, others(t, s));
    ReachableInv(timeout, s);
    ReachableInv(timeout, w);
    if Inside(s.agents[i]) && s.regs.swesmbi {
      MovedKeepsLatch(timeout, i, s, others(t, s));
    }
    if Leaves(timeout, i, others, t) {
      assert FreeFor(w, i);
    }
  }

  // --- Such neighbours exist ------------------------------------------------------------------------------

  // Accesses until the agent is out of the section, once the firmware is idle.
  function AccessesLeft(r: Regs, pc: Pc): nat {
    match pc
    case Idle(_) => 0
    case PollSmbi(_, _, _) => 0
    case ReadLatch(_, _, _) => 7
    case WriteLatch(_, _, _, _) => 6
    case CheckLatch(_, _, _) => if r.swesmbi then 5 else 8
    case ReadSync(_, _) => 4
    case WriteSync(_, _, _) => 3
    case PutRead(_, _, _) => 2
    case PutWrite(_, _, _) => 1
  }

  function FirmwareLeft(pc: FwPc): nat {
    match pc
    case FwIdle => 0
    case FwRead(_) => 3
    case FwWrite(_, _) => 2
    case FwPut => 1
  }

  // An agent other than i that is inside, from index k on, or the number of agents.
  function InsideFrom(s: State, i: nat, k: nat): (j: nat)
    requires k <= |s.agents|
    ensures k <= j <= |s.agents|
    ensures j < |s.agents| ==> j != i && Inside(s.agents[j])
    ensures forall l :: k <= l < j && l != i ==> !Inside(s.agents[l])
    decreases |s.agents| - k
  {
    if k == |s.agents| || (k != i && Inside(s.agents[k])) then k else InsideFrom(s, i, k + 1)
  }

  // The firmware finishes, and then the agent that is inside.
  function Finish(timeout: nat, i: nat, s: State, fuel: nat): seq<Event>
    decreases fuel
  {
    var j := InsideFrom(s, i, 0);
    if fuel == 0 then []
    else if !s.fwPc.FwIdle? then [FwAccess] + Finish(timeout, i, Apply(timeout, s, FwAccess), fuel - 1)
    else if j < |s.agents| then [Access(j)] + Finish(timeout, i, Apply(timeout, s, Access(j)), fuel - 1)
    else []
  }

  function StepsLeft(s: State, i: nat): nat {
    var j := InsideFrom(s, i, 0);
    FirmwareLeft(s.fwPc) + if j < |s.agents| then AccessesLeft(s.regs, s.agents[j].pc) else 0
  }

  lemma FirmwareFinishes(timeout: nat, i: nat, s: State)
    requires Inv(s) && !s.fwPc.FwIdle?
    ensures StepsLeft(Apply(timeout, s, FwAccess), i) < StepsLeft(s, i)
  {
    var s' := Apply(timeout, s, FwAccess);
    assert s'.agents == s.agents && s'.regs.swesmbi == s.regs.swesmbi;
    SameInside(s, s', i, 0);
  }

  lemma {:induction false} SameInside(s: State, s': State, i: nat, k: nat)
    requires s'.agents == s.agents && k <= |s.agents|
    ensures InsideFrom(s', i, k) == InsideFrom(s, i, k)
    decreases |s.agents| - k
  {
    if k < |s.agents| {
      SameInside(s, s', i, k + 1);
    }
  }

  lemma AgentFinishes(timeout: nat, i: nat, s: State, j: nat)
    requires Inv(s) && s.fwPc.FwIdle? && j == InsideFrom(s, i, 0) && j < |s.agents|
    ensures StepsLeft(Apply(timeout, s, Access(j)), i) < StepsLeft(s, i)
  {
    var s' := Apply(timeout, s, Access(j));
    assert s'.fwPc == s.fwPc && |s'.agents| == |s.agents|;
    forall k | 0 <= k < |s.agents| && k != i && k != j ensures !Inside(s'.agents[k]) {
      OneInside(s, j, k);
    }
    OneAccessLess(timeout, s.regs, s.agents[j]);
  }

  lemma OneAccessLess(timeout: nat, r: Regs, a: Agent)
    requires Inside(a) && !r.fwesmbi
    ensures var (r', a') := Next(timeout, r, a);
      AccessesLeft(r', a'.pc) < AccessesLeft(r, a.pc)
  {
  }

  lemma {:induction false} FinishLeaves(timeout: nat, i: nat, s: State, fuel: nat)
    requires Inv(s) && StepsLeft(s, i) <= fuel
    ensures FreeFor(Moved(timeout, i, s, Finish(timeout, i, s, fuel)), i)
    decreases fuel
  {
    hide Apply, Inv;
    var j := InsideFrom(s, i, 0);
    if !s.fwPc.FwIdle? {
      var s' := Apply(timeout, s, FwAccess);
      InvStep(timeout, s, FwAccess);
      FirmwareFinishes(timeout, i, s);
      FinishLeaves(timeout, i, s', fuel - 1);
      var rest := Finish(timeout, i, s', fuel - 1);
      assert ([FwAccess] + rest)[1..] == rest;
    } else if j < |s.agents| {
      var s' := Apply(timeout, s, Access(j));
      InvStep(timeout, s, Access(j));
      AgentFinishes(timeout, i, s, j);
      FinishLeaves(timeout, i, s', fuel - 1);
      var rest := Finish(timeout, i, s', fuel - 1);
      assert ([Access(j)] + rest)[1..] == rest;
    }
  }

  // Neighbours that finish what they are in at half of the times and do anything at all at the others.
  function Mixed(timeout: nat, i: nat, wild: Others): Others {
    (t: nat, s: State) => if t % 16 < 8 then Finish(timeout, i, s, 11) else wild(t, s)
  }

  // The hypothesis is met, for any number of agents, by neighbours that are otherwise arbitrary.
  lemma OpenNeighbours(timeout: nat, i: nat, wild: Others)
    ensures Opens(timeout, i, Mixed(timeout, i, wild))
  {
    var others := Mixed(timeout, i, wild);
    forall t: nat ensures QuietAfter(timeout, i, others, t) {
      var u := 16 * (t / 16) + 16;
      forall k: nat | u <= k < u + 8 ensures Leaves(timeout, i, others, k) {
        FinishedAt(timeout, i, wild, k, t / 16 + 1);
      }
      assert Quiet(timeout, i, others, u);
    }
  }

  lemma FinishedAt(timeout: nat, i: nat, wild: Others, t: nat, q: nat)
    requires 16 * q <= t < 16 * q + 8
    ensures Leaves(timeout, i, Mixed(timeout, i, wild), t)
  {
    var others := Mixed(timeout, i, wild);
    assert t % 16 < 8;
    forall s: State | Reachable(timeout, s) && i < |s.agents|
      ensures FreeFor(Moved(timeout, i, s, others(t, s)), i)
    {
      ReachableInv(timeout, s);
      FinishLeaves(timeout, i, s, 11);
    }
  }
}
