/** The SerDes link state machine of the 82571 (e1000_82571.c, e1000_mac.c): one poll at a time, over every sequence of
    what the receiver and the status register show. */
module SerdesLink {

  datatype LinkState = Down | AutonegProgress | AutonegComplete | ForcedUp

  // The bits the machine looks at or drives, and the rest of the register.
  datatype Ctrl = Ctrl(slu: bool, fd: bool, tfce: bool, rfce: bool, rest: nat)
  datatype Txcw = Txcw(ane: bool, rest: nat)

  // What a poll reads: STATUS.LU, RXCW.SYNCH, RXCW.IV now and on the second look, RXCW.C.
  datatype Signal = Signal(lu: bool, synch: bool, iv: bool, ivAgain: bool, c: bool)

  datatype Fc = None | RxPause | TxPause | Full | Default | Other

  // 'word' is the TXCW value saved for auto-negotiation.
  datatype Port = Port(state: LinkState, hasLink: bool, ctrl: Ctrl, txcw: Txcw, word: Txcw)

  // Flow control can be forced, or need not be.
  predicate FcValid(autonegFailed: bool, fc: Fc) {
    autonegFailed ==> fc.None? || fc.RxPause? || fc.TxPause? || fc.Full?
  }

  // Does this poll force the link?
  predicate Forces(p: Port, g: Signal) {
    g.synch && !g.iv && p.state.AutonegProgress? && !g.lu
  }

  // Registers and state agree.
  predicate Consistent(p: Port) {
    match p.state
    case ForcedUp => p.txcw == p.word.(ane := false) && p.ctrl.slu && p.ctrl.fd
    case AutonegProgress => p.txcw == p.word && !p.ctrl.slu
    case AutonegComplete => p.txcw == p.word && !p.ctrl.slu
    case Down => true
  }

  function ForcedCtrl(c: Ctrl, autonegFailed: bool, fc: Fc): Ctrl {
    var up := c.(slu := true, fd := true);
    if !autonegFailed then up
    else match fc
      case None => up.(tfce := false, rfce := false)
      case RxPause => up.(tfce := false, rfce := true)
      case TxPause => up.(tfce := true, rfce := false)
      case Full => up.(tfce := true, rfce := true)
      case Default => up
      case Other => up
  }

  // One poll, as a transition.
  function Polled(p: Port, g: Signal, autonegFailed: bool, fc: Fc): Port {
    if !g.synch || (g.iv && g.ivAgain) then p.(state := Down, hasLink := false)
    else if g.iv then p
    else match p.state
      case AutonegComplete => if g.lu then p else p.(state := AutonegProgress)
      case ForcedUp => if g.c then Restarted(p) else p
      case AutonegProgress =>
        if g.lu then p.(state := AutonegComplete, hasLink := true)
        else p.(txcw := p.word.(ane := false), ctrl := ForcedCtrl(p.ctrl, autonegFailed, fc),
                hasLink := p.hasLink || FcValid(autonegFailed, fc),
                state := if FcValid(autonegFailed, fc) then ForcedUp else AutonegProgress)
      case Down => Restarted(p)
  }

  function Restarted(p: Port): Port {
    p.(txcw := p.word, ctrl := p.ctrl.(slu := false), state := AutonegProgress)
  }

  function PolledAll(p: Port, gs: seq<Signal>, autonegFailed: bool, fc: Fc): Port {
    if gs == [] then p else Polled(PolledAll(p, gs[..|gs| - 1], autonegFailed, fc), gs[|gs| - 1], autonegFailed, fc)
  }

  // --- Properties ---------------------------------------------------------------------------------------

  // A poll keeps registers and state in step if and only if it does not force the link with a flow-control mode
  // that cannot be forced.
  lemma KeptExactly(p: Port, g: Signal, autonegFailed: bool, fc: Fc)
    requires Consistent(p)
    ensures Consistent(Polled(p, g, autonegFailed, fc)) <==> !(Forces(p, g) && !FcValid(autonegFailed, fc))
  {
  }

  // Over every sequence of polls: forced up means auto-negotiation off and the link forced at full duplex; the two
  // auto-negotiation states mean the saved word and no forced link.
  lemma {:induction false} AlwaysConsistent(p: Port, gs: seq<Signal>, autonegFailed: bool, fc: Fc)
    requires Consistent(p) && FcValid(autonegFailed, fc)
    ensures Consistent(PolledAll(p, gs, autonegFailed, fc)) && PolledAll(p, gs, autonegFailed, fc).word == p.word
  {
    if gs != [] {
      AlwaysConsistent(p, gs[..|gs| - 1], autonegFailed, fc);
      KeptExactly(PolledAll(p, gs[..|gs| - 1], autonegFailed, fc), gs[|gs| - 1], autonegFailed, fc);
    }
  }

  // Clean sync from a partner that neither negotiates nor shows link.
  predicate Silent(g: Signal) { g.synch && !g.iv && !g.lu && !g.c }

  // From every state such a partner is forced up after two polls, and stays so.
  lemma {:induction false} ReachesForcedUp(p: Port, gs: seq<Signal>, autonegFailed: bool, fc: Fc)
    requires FcValid(autonegFailed, fc) && |gs| >= 2 && forall g :: g in gs ==> Silent(g)
    ensures PolledAll(p, gs, autonegFailed, fc).state == ForcedUp
    ensures !p.state.ForcedUp? ==> PolledAll(p, gs, autonegFailed, fc).hasLink
  {
    var n := |gs| - 1;
    assert gs[0] in gs && gs[n] in gs;
    if n == 1 {
      assert gs[..1][..0] == [] && gs[..1][0] == gs[0];
      assert PolledAll(p, gs[..1], autonegFailed, fc) == Polled(p, gs[0], autonegFailed, fc);
    } else {
      ReachesForcedUp(p, gs[..n], autonegFailed, fc);
    }
  }

  // Clean sync with link and no /C/ ends in a completed negotiation, unless the link was forced.
  lemma {:induction false} ReachesComplete(p: Port, gs: seq<Signal>, autonegFailed: bool, fc: Fc)
    requires |gs| >= 2 && forall g :: g in gs ==> g.synch && !g.iv && g.lu && !g.c
    ensures PolledAll(p, gs, autonegFailed, fc).state == if p.state.ForcedUp? then ForcedUp else AutonegComplete
  {
    var n := |gs| - 1;
    assert gs[0] in gs && gs[n] in gs;
    if n == 1 {
      assert gs[..1][..0] == [] && gs[..1][0] == gs[0];
      assert PolledAll(p, gs[..1], autonegFailed, fc) == Polled(p, gs[0], autonegFailed, fc);
    } else {
      ReachesComplete(p, gs[..n], autonegFailed, fc);
    }
  }

  lemma PolledNext(p: Port, gs: seq<Signal>, g: Signal, autonegFailed: bool, fc: Fc)
    ensures PolledAll(p, gs + [g], autonegFailed, fc)
         == Polled(PolledAll(p, gs, autonegFailed, fc), g, autonegFailed, fc)
  {
    assert (gs + [g])[..|gs|] == gs;
  }

  // A poll that has lost sync, or sees an invalid code twice, takes the link down from every state, and the registers
  // stay as they are; a single invalid code changes nothing.
  lemma GoesDown(p: Port, gs: seq<Signal>, g: Signal, autonegFailed: bool, fc: Fc)
    ensures var before, after := PolledAll(p, gs, autonegFailed, fc), PolledAll(p, gs + [g], autonegFailed, fc);
      && (!g.synch || (g.iv && g.ivAgain) ==> after == before.(state := Down, hasLink := false))
      && (g.synch && g.iv && !g.ivAgain ==> after == before)
  {
    PolledNext(p, gs, g, autonegFailed, fc);
  }

  // From there clean sync starts a negotiation; so does /C/ on a forced port, and a completed negotiation whose link
  // bit goes away is taken up again.  A forced port without /C/ and a complete one with the link bit stay as they are.
  lemma Restarts(p: Port, gs: seq<Signal>, g: Signal, autonegFailed: bool, fc: Fc)
    requires g.synch && !g.iv && !PolledAll(p, gs, autonegFailed, fc).state.AutonegProgress?
    ensures var before, after := PolledAll(p, gs, autonegFailed, fc), PolledAll(p, gs + [g], autonegFailed, fc);
      && after.hasLink == before.hasLink
      && (before.state.Down? || (before.state.ForcedUp? && g.c) ==>
            && after.state == AutonegProgress
            && after.txcw == p.word && after.ctrl == before.ctrl.(slu := false))
      && (before.state.AutonegComplete? && !g.lu ==> after == before.(state := AutonegProgress))
      && (before.state.ForcedUp? && !g.c ==> after == before)
      && (before.state.AutonegComplete? && g.lu ==> after == before)
  {
    PolledNext(p, gs, g, autonegFailed, fc);
    SameWord(p, gs, autonegFailed, fc);
  }

  lemma {:induction false} SameWord(p: Port, gs: seq<Signal>, autonegFailed: bool, fc: Fc)
    ensures PolledAll(p, gs, autonegFailed, fc).word == p.word
  {
    if gs != [] {
      SameWord(p, gs[..|gs| - 1], autonegFailed, fc);
    }
  }

  predicate Loses(g: Signal) { !g.synch || (g.iv && g.ivAgain) }

  // The k-th poll completes a negotiation or forces the link.
  predicate Brings(p: Port, gs: seq<Signal>, k: nat, autonegFailed: bool, fc: Fc)
    requires k < |gs|
  {
    && PolledAll(p, gs[..k], autonegFailed, fc).state == AutonegProgress
    && gs[k].synch && !gs[k].iv && (gs[k].lu || FcValid(autonegFailed, fc))
  }

  ghost predicate Keeps(gs: seq<Signal>, k: nat) {
    forall j :: k <= j < |gs| ==> !Loses(gs[j])
  }

  ghost predicate Brought(p: Port, gs: seq<Signal>, autonegFailed: bool, fc: Fc) {
    exists k :: 0 <= k < |gs| && Brings(p, gs, k, autonegFailed, fc) && Keeps(gs, k + 1)
  }

  // After any polls there is link exactly if one of them completed a negotiation or forced the link, or there was link
  // at the start, and no poll after that lost it.
  lemma {:induction false} HasLinkExactly(p: Port, gs: seq<Signal>, autonegFailed: bool, fc: Fc)
    ensures PolledAll(p, gs, autonegFailed, fc).hasLink <==>
              (p.hasLink && Keeps(gs, 0)) || Brought(p, gs, autonegFailed, fc)
  {
    if gs != [] {
      var n := |gs| - 1;
      var was := gs[..n];
      HasLinkExactly(p, was, autonegFailed, fc);
      assert Keeps(gs, 0) <==> Keeps(was, 0) && !Loses(gs[n]) by {
        assert forall j :: 0 <= j < n ==> was[j] == gs[j];
      }
      BroughtNext(p, gs, autonegFailed, fc);
      hide Keeps, Brought;
      LinkNext(PolledAll(p, was, autonegFailed, fc), gs[n], autonegFailed, fc);
    }
  }

  lemma LinkNext(p: Port, g: Signal, autonegFailed: bool, fc: Fc)
    ensures Polled(p, g, autonegFailed, fc).hasLink <==>
              && !Loses(g)
              && (|| p.hasLink
                  || (p.state == AutonegProgress && g.synch && !g.iv && (g.lu || FcValid(autonegFailed, fc))))
  {
  }

  lemma BroughtNext(p: Port, gs: seq<Signal>, autonegFailed: bool, fc: Fc)
    requires gs != []
    ensures var n := |gs| - 1;
      Brought(p, gs, autonegFailed, fc) <==>
        (Brought(p, gs[..n], autonegFailed, fc) && !Loses(gs[n])) || Brings(p, gs, n, autonegFailed, fc)
  {
    hide PolledAll, FcValid;
    var n := |gs| - 1;
    var was := gs[..n];
    assert forall j :: 0 <= j < n ==> was[j] == gs[j];
    if k :| 0 <= k < |gs| && Brings(p, gs, k, autonegFailed, fc) && Keeps(gs, k + 1) {
      if k < n {
        assert was[..k] == gs[..k];
        assert Brings(p, was, k, autonegFailed, fc) && Keeps(was, k + 1);
      }
    }
    if Brings(p, gs, n, autonegFailed, fc) {
      assert Keeps(gs, n + 1);
    }
    if !Loses(gs[n]) && Brought(p, was, autonegFailed, fc) {
      var k :| 0 <= k < |was| && Brings(p, was, k, autonegFailed, fc) && Keeps(was, k + 1);
      assert was[..k] == gs[..k];
      assert Brings(p, gs, k, autonegFailed, fc) && Keeps(gs, k + 1);
    }
  }

  // --- The driver -------------------------------------------------------------------------------------------

  class Serdes {
    const word: Txcw
    const autonegFailed: bool
    const fc: Fc
    var state: LinkState
    var hasLink: bool
    var ctrl: Ctrl
    var txcw: Txcw

    constructor (word: Txcw, autonegFailed: bool, fc: Fc, ctrl: Ctrl, txcw: Txcw)
      ensures Now() == Port(Down, false, ctrl, txcw, word)
      ensures this.autonegFailed == autonegFailed && this.fc == fc
    {
      this.word, this.autonegFailed, this.fc, this.ctrl, this.txcw := word, autonegFailed, fc, ctrl, txcw;
      state, hasLink := Down, false;
    }

    function Now(): Port
      reads this
    {
      Port(state, hasLink, ctrl, txcw, word)
    }

    // e1000e_force_mac_fc
    method ForceMacFc() returns (ok: bool)
      modifies `ctrl
      ensures ok <==> FcValid(true, fc)
      ensures ctrl == if ok then old(ctrl).(tfce := fc.TxPause? || fc.Full?, rfce := fc.RxPause? || fc.Full?)
                      else old(ctrl)
    {
      var c := ctrl;
      match fc {
        case None => c := c.(tfce := false, rfce := false);
        case RxPause =>
          c := c.(tfce := false);
          c := c.(rfce := true);
        case TxPause =>
          c := c.(rfce := false);
          c := c.(tfce := true);
        case Full => c := c.(tfce := true, rfce := true);
        case _ => return false;
      }
      ctrl := c;
      ok := true;
    }

    // The part of e1000e_config_fc_after_link_up that concerns SerDes.
    method ConfigFcAfterLinkUp() returns (ok: bool)
      modifies `ctrl
      ensures ok <==> FcValid(autonegFailed, fc)
      ensures ctrl == if ok && autonegFailed
                      then old(ctrl).(tfce := fc.TxPause? || fc.Full?, rfce := fc.RxPause? || fc.Full?) else old(ctrl)
    {
      ok := true;
      if autonegFailed {
        ok := ForceMacFc();
      }
    }

    // e1000_check_for_serdes_link_82571
    method CheckForLink(g: Signal) returns (ok: bool)
      modifies this
      ensures Now() == Polled(old(Now()), g, autonegFailed, fc)
      ensures !ok <==> Forces(old(Now()), g) && !FcValid(autonegFailed, fc)
    {
      ok := true;
      var c := ctrl;
      if g.synch && !g.iv {
        match state {
          case AutonegComplete =>
            if !g.lu {
              state := AutonegProgress;
            }
          case ForcedUp =>
            if g.c {
              txcw := word;
              ctrl := c.(slu := false);
              state := AutonegProgress;
            }
          case AutonegProgress =>
            if g.lu {
              state := AutonegComplete;
              hasLink := true;
            } else {
              txcw := word.(ane := false);
              c := c.(slu := true, fd := true);
              ctrl := c;
              ok := ConfigFcAfterLinkUp();
              if ok {
                state := ForcedUp;
                hasLink := true;
              }
            }
          case Down =>
            txcw := word;
            ctrl := c.(slu := false);
            state := AutonegProgress;
        }
      } else if !g.synch {
        hasLink := false;
        state := Down;
      } else if g.ivAgain {
        state := Down;
        hasLink := false;
      }
    }
  }
}
