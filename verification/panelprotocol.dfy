/** How an end of the panel protocol answers what it receives (panel-net.c), and how an exchange of answers ends. */
module PanelProtocol {
  import opened Bytes
  import opened Crc16
  import opened PanelWire

  const CONNECT: u8 := 0x05
  const DISCONNECT: u8 := 0x06
  const WRITE: u8 := 0x08
  const ACK: u8 := 0x0B
  const NACK: u8 := 0x0C
  const CONFIRM: u8 := 0x0D
  const RESET: u8 := 0x0E

  // 0 idle, 1 connecting, 2 connected.
  type Mode = m: nat | m <= 2

  datatype Reaction = Reaction(mode: Mode, reply: seq<u8>)

  // The answer to a command: the new mode and the commands sent back.
  function OnCommand(mode: Mode, c: u8): Reaction {
    if mode != 2 then
      if c == CONNECT then Reaction(1, [ACK])
      else if c == ACK then Reaction(2, [CONFIRM])
      else if c == NACK then Reaction(0, [CONFIRM])
      else if c == CONFIRM then Reaction(2, [])
      else if c == RESET then Reaction(1, [CONNECT])
      else Reaction(0, [NACK])
    else if c == ACK then Reaction(2, [CONFIRM])
    else if c == CONNECT then Reaction(2, [NACK])
    else if c == DISCONNECT then Reaction(2, [ACK])
    else if c == RESET then Reaction(0, [CONNECT])
    else Reaction(2, [])
  }

  // The answer to any body.  A data frame with a bad CRC is answered with NACK.
  function OnBody(mode: Mode, body: seq<u8>): Reaction {
    if |body| == 1 then OnCommand(mode, body[0])
    else if mode != 2 || Crc(body) != Zeros(16) then Reaction(mode, [NACK])
    else Reaction(mode, [])
  }

  // Is a body passed on to the WRITE handler?  The CRC is not asked.
  predicate PassedOn(mode: Mode, body: seq<u8>) {
    |body| > 1 && mode == 2 && body[0] == WRITE
  }

  // What an end has done so far: its mode, all it wrote to the line, the bodies passed on.
  datatype Ctl = Ctl(mode: Mode, wire: seq<u8>, passed: seq<seq<u8>>)

  function EncodeCommands(cs: seq<u8>): seq<u8> {
    if cs == [] then [] else EncodeCommands(cs[..|cs| - 1]) + Encode(Command(cs[|cs| - 1]))
  }

  lemma OneCommand(c: u8)
    ensures EncodeCommands([c]) == Encode(Command(c))
  {
    assert [c][..0] == [];
  }

  function Handle(c: Ctl, body: seq<u8>): Ctl {
    Ctl(OnBody(c.mode, body).mode, c.wire + EncodeCommands(OnBody(c.mode, body).reply),
        if PassedOn(c.mode, body) then c.passed + [body] else c.passed)
  }

  function HandleAll(c: Ctl, bodies: seq<seq<u8>>): Ctl {
    if bodies == [] then c else Handle(HandleAll(c, bodies[..|bodies| - 1]), bodies[|bodies| - 1])
  }

  lemma HandleNext(c: Ctl, bodies: seq<seq<u8>>, body: seq<u8>)
    ensures HandleAll(c, bodies + [body]) == Handle(HandleAll(c, bodies), body)
  {
    assert (bodies + [body])[..|bodies|] == bodies;
  }

  lemma {:induction false} HandleAppend(c: Ctl, a: seq<seq<u8>>, b: seq<seq<u8>>)
    ensures HandleAll(c, a + b) == HandleAll(HandleAll(c, a), b)
  {
    if b == [] {
      assert a + b == a;
    } else {
      var n := |b| - 1;
      hide Handle, HandleAll;
      HandleAppend(c, a, b[..n]);
      LastSplits(a, b);
      HandleNext(c, a + b[..n], b[n]);
      HandleNext(HandleAll(c, a), b[..n], b[n]);
    }
  }

  lemma LastSplits(a: seq<seq<u8>>, b: seq<seq<u8>>)
    requires b != []
    ensures var n := |b| - 1;
      b == b[..n] + [b[n]] && a + b == a + b[..n] + [b[n]]
  {
  }

  // --- One end: parser and protocol together --------------------------------------------------------------

  datatype Node = Node(frame: seq<u8>, esc: bool, ctl: Ctl)

  // What reading one chunk does.
  function Received(n: Node, chunk: seq<u8>): Node {
    Node(ParseAll(Rx(n.frame, n.esc, []), chunk).frame,
         ParseAll(Rx(n.frame, n.esc, []), chunk).esc,
         HandleAll(n.ctl, ParseAll(Rx(n.frame, n.esc, []), chunk).out))
  }

  function ReceivedAll(n: Node, chunks: seq<seq<u8>>): Node
    decreases |chunks|
  {
    if chunks == [] then n else ReceivedAll(Received(n, chunks[0]), chunks[1..])
  }

  lemma {:induction false} ReceivedTwice(n: Node, s: seq<u8>, t: seq<u8>)
    ensures Received(Received(n, s), t) == Received(n, s + t)
  {
    var start := Rx(n.frame, n.esc, []);
    var mid := ParseAll(start, s);
    ParseAppend(start, s, t);
    OutPrefix(mid, t);
    HandleAppend(n.ctl, mid.out, ParseAll(Rx(mid.frame, mid.esc, []), t).out);
  }

  lemma {:induction false} ReceivedJoined(n: Node, chunks: seq<seq<u8>>)
    ensures ReceivedAll(n, chunks) == Received(n, Joined(chunks))
    decreases |chunks|
  {
    if chunks != [] {
      ReceivedJoined(Received(n, chunks[0]), chunks[1..]);
      ReceivedTwice(n, chunks[0], Joined(chunks[1..]));
    }
  }

  // End to end: whatever frames are written, in whatever pieces they are read, the receiver acts on the bodies
  // that were meant, in order, and is ready for more.
  lemma Delivered(n: Node, fs: seq<Frame>, chunks: seq<seq<u8>>)
    requires n.frame == [] && !n.esc
    requires forall f :: f in fs ==> Sendable(f)
    requires Joined(chunks) == EncodeAll(fs)
    ensures ReceivedAll(n, chunks) == Node([], false, HandleAll(n.ctl, Bodies(fs)))
  {
    ReceivedJoined(n, chunks);
    StreamRoundTrip(fs);
  }

  // A connected receiver takes intact data frames without a word and passes them on in order.
  lemma {:induction false} DataAccepted(c: Ctl, fs: seq<Frame>)
    requires c.mode == 2 && forall f :: f in fs ==> f.Data? && f.cmd == WRITE
    ensures HandleAll(c, Bodies(fs)) == Ctl(2, c.wire, c.passed + Bodies(fs))
  {
    if fs == [] {
      assert c.passed + Bodies(fs) == c.passed;
    } else {
      hide Handle, Body, HandleAll;
      var n := |fs| - 1;
      DataAccepted(c, fs[..n]);
      NextAccepted(c, Bodies(fs[..n]), fs[n]);
      assert Bodies(fs) == Bodies(fs[..n]) + [Body(fs[n])];
    }
  }

  lemma NextAccepted(c: Ctl, bodies: seq<seq<u8>>, f: Frame)
    requires f.Data? && f.cmd == WRITE && HandleAll(c, bodies) == Ctl(2, c.wire, c.passed + bodies)
    ensures HandleAll(c, bodies + [Body(f)]) == Ctl(2, c.wire, c.passed + (bodies + [Body(f)]))
  {
    hide Handle, Body, HandleAll;
    HandleNext(c, bodies, Body(f));
    DataHandled(HandleAll(c, bodies), f);
    Regroup(c.passed, bodies, Body(f));
  }

  lemma Regroup(a: seq<seq<u8>>, b: seq<seq<u8>>, x: seq<u8>)
    ensures a + b + [x] == a + (b + [x])
  {
  }

  lemma DataHandled(c: Ctl, f: Frame)
    requires c.mode == 2 && f.Data? && f.cmd == WRITE
    ensures Handle(c, Body(f)) == Ctl(2, c.wire, c.passed + [Body(f)])
  {
    AppendedCrcIsZero(Payload(f.cmd, f.data));
    assert c.wire + [] == c.wire;
  }

  // A data body changed in one byte or in two adjacent bytes is answered with NACK, connected or not; a connected
  // receiver passes it on all the same.
  lemma DamageAnswered(c: Ctl, f: Frame, body: seq<u8>, k: nat)
    requires f.Data? && |body| == |Body(f)| && k < |body| && body != Body(f)
    requires forall i :: 0 <= i < |body| && i != k && i != k + 1 ==> body[i] == Body(f)[i]
    ensures Handle(c, body).wire == c.wire + Encode(Command(NACK)) && Handle(c, body).mode == c.mode
    ensures Handle(c, body).passed == if c.mode == 2 && body[0] == WRITE then c.passed + [body] else c.passed
  {
    AppendedCrcIsZero(Payload(f.cmd, f.data));
    DamageDetected(Body(f), body, k);
    OneCommand(NACK);
  }

  // --- Two ends ----------------------------------------------------------------------------------------------

  // The modes of two ends and the bodies on their way to each, first to arrive first.
  datatype Link = Link(a: Mode, b: Mode, toA: seq<seq<u8>>, toB: seq<seq<u8>>)

  predicate CanDeliver(l: Link, atA: bool) { if atA then l.toA != [] else l.toB != [] }

  function AsBodies(cs: seq<u8>): seq<seq<u8>> {
    if cs == [] then [] else AsBodies(cs[..|cs| - 1]) + [[cs[|cs| - 1]]]
  }

  // One end takes the next body and answers it.
  function Deliver(l: Link, atA: bool): Link
    requires CanDeliver(l, atA)
  {
    if atA then
      Link(OnBody(l.a, l.toA[0]).mode, l.b, l.toA[1..], l.toB + AsBodies(OnBody(l.a, l.toA[0]).reply))
    else
      Link(l.a, OnBody(l.b, l.toB[0]).mode, l.toA + AsBodies(OnBody(l.b, l.toB[0]).reply), l.toB[1..])
  }

  predicate IsRun(l: Link, who: seq<bool>)
    decreases |who|
  {
    who == [] || (CanDeliver(l, who[0]) && IsRun(Deliver(l, who[0]), who[1..]))
  }

  function RunLink(l: Link, who: seq<bool>): Link
    requires IsRun(l, who)
    decreases |who|
  {
    if who == [] then l else RunLink(Deliver(l, who[0]), who[1..])
  }

  // How many deliveries a body can still cause.
  function Rank(body: seq<u8>): nat {
    if |body| != 1 then 3
    else if body[0] == RESET then 4
    else if body[0] == CONFIRM then 1
    else if body[0] == ACK || body[0] == NACK then 2
    else 3
  }

  function Ranks(bs: seq<seq<u8>>): nat {
    if bs == [] then 0 else Rank(bs[0]) + Ranks(bs[1..])
  }

  function LinkRank(l: Link): nat { Ranks(l.toA) + Ranks(l.toB) }

  // A reply ranks strictly below what it answers, in every mode.
  lemma ReplyRanksLower(mode: Mode, body: seq<u8>)
    ensures Ranks(AsBodies(OnBody(mode, body).reply)) < Rank(body)
    ensures |OnBody(mode, body).reply| <= 1
  {
    var r := OnBody(mode, body).reply;
    if r != [] {
      assert r == [r[0]] && r[..0] == [];
      assert AsBodies(r) == [[r[0]]] && AsBodies(r)[1..] == [];
      assert Ranks(AsBodies(r)) == Rank([r[0]]);
    }
  }

  lemma {:induction false} RanksAppend(s: seq<seq<u8>>, t: seq<seq<u8>>)
    ensures Ranks(s + t) == Ranks(s) + Ranks(t)
  {
    if s == [] {
      assert s + t == t;
    } else {
      assert (s + t)[1..] == s[1..] + t;
      RanksAppend(s[1..], t);
    }
  }

  // Without new input an exchange dies out: no run delivers more than the ranks of what was under way.
  lemma {:induction false} Quiesces(l: Link, who: seq<bool>)
    requires IsRun(l, who)
    ensures |who| + LinkRank(RunLink(l, who)) <= LinkRank(l)
    decreases |who|
  {
    if who != [] {
      var m := Deliver(l, who[0]);
      if who[0] {
        ReplyRanksLower(l.a, l.toA[0]);
        RanksAppend(l.toB, AsBodies(OnBody(l.a, l.toA[0]).reply));
      } else {
        ReplyRanksLower(l.b, l.toB[0]);
        RanksAppend(l.toA, AsBodies(OnBody(l.b, l.toB[0]).reply));
      }
      Quiesces(m, who[1..]);
    }
  }

  // --- Two ends that start at the same time ---------------------------------------------------------------------

  // What each end sends in turn, starting with RESET.
  function Opening(k: nat): seq<seq<u8>> { [[RESET], [CONNECT], [ACK], [CONFIRM]][..if k < 4 then k else 4] }

  // The mode after k bodies of the other end.
  function ModeAfter(k: nat): Mode { if k == 0 then 0 else if k <= 2 then 1 else 2 }

  // One body sent at the start and one more for each of the first three received.
  function SentAfter(k: nat): nat { if k < 3 then k + 1 else 4 }

  // i bodies have arrived at a and j at b.
  predicate Started(l: Link, i: nat, j: nat) {
    && i <= SentAfter(j) && j <= SentAfter(i)
    && l.a == ModeAfter(i) && l.b == ModeAfter(j)
    && l.toA == Opening(SentAfter(j))[i..] && l.toB == Opening(SentAfter(i))[j..]
  }

  const POWERED_ON := Link(0, 0, [[RESET]], [[RESET]])

  // In every order of delivery both ends take at most four bodies, and when the line is silent they have taken
  // four each and both are connected.
  lemma StartsConnected(who: seq<bool>)
    requires IsRun(POWERED_ON, who)
    ensures |who| <= 8
    ensures RunLink(POWERED_ON, who).toA == [] && RunLink(POWERED_ON, who).toB == [] ==>
              && |who| == 8
              && RunLink(POWERED_ON, who).a == 2 && RunLink(POWERED_ON, who).b == 2
  {
    assert Opening(1)[0..] == [[RESET]];
    var i, j := StartedRun(POWERED_ON, 0, 0, who);
  }

  lemma {:induction false} StartedRun(l: Link, i: nat, j: nat, who: seq<bool>) returns (i': nat, j': nat)
    requires Started(l, i, j) && IsRun(l, who)
    ensures Started(RunLink(l, who), i', j') && i' + j' == i + j + |who|
    decreases |who|
  {
    i', j' := i, j;
    if who != [] {
      if who[0] {
        StartedStep(l, i, j);
        i', j' := StartedRun(Deliver(l, true), i + 1, j, who[1..]);
      } else {
        StartedStep(Swapped(l), j, i);
        i', j' := StartedRun(Deliver(l, false), i, j + 1, who[1..]);
      }
    }
  }

  function Swapped(l: Link): Link { Link(l.b, l.a, l.toB, l.toA) }

  lemma StartedStep(l: Link, i: nat, j: nat)
    requires Started(l, i, j) && l.toA != []
    ensures Started(Deliver(l, true), i + 1, j)
  {
    hide OnCommand, Opening, AsBodies;
    OpeningAt(SentAfter(j), i);
    OpeningAnswered(i);
    OpeningGrows(i, j);
  }

  lemma OpeningAt(k: nat, i: nat)
    requires k <= 4
    ensures |Opening(k)| == k
    ensures i < k ==> Opening(k)[i] == [Sent(i)]
  {
  }

  // The i-th command each end sends.
  function Sent(i: nat): u8
    requires i < 4
  {
    if i == 0 then RESET else if i == 1 then CONNECT else if i == 2 then ACK else CONFIRM
  }

  // The next command of the other end is answered with the next of one's own, if there is one.
  lemma OpeningAnswered(i: nat)
    requires i < 4
    ensures OnCommand(ModeAfter(i), Sent(i)) == Reaction(ModeAfter(i + 1), if i < 3 then [Sent(i + 1)] else [])
  {
  }

  lemma OpeningGrows(i: nat, j: nat)
    requires i < 4 && j <= SentAfter(i)
    ensures Opening(SentAfter(i))[j..] + AsBodies(if i < 3 then [Sent(i + 1)] else []) == Opening(SentAfter(i + 1))[j..]
  {
    if i < 3 {
      hide Opening;
      OpeningAt(i + 1, 0);
      OpeningNext(i + 1);
      assert [Sent(i + 1)][..0] == [];
      assert AsBodies([Sent(i + 1)]) == [[Sent(i + 1)]];
    } else {
      assert AsBodies([]) == [];
    }
  }

  lemma OpeningNext(k: nat)
    requires k < 4
    ensures Opening(k + 1) == Opening(k) + [[Sent(k)]]
  {
  }

  // --- A connected end whose peer starts again -----------------------------------------------------------------

  // The link after k deliveries when end b has started again and its RESET is on the way to the connected end a.
  function Reconnecting(k: nat): Link {
    if k == 0 then Link(2, 0, [[RESET]], [])
    else if k == 1 then Link(0, 0, [], [[CONNECT]])
    else if k == 2 then Link(0, 1, [[ACK]], [])
    else if k == 3 then Link(2, 1, [], [[CONFIRM]])
    else Link(2, 2, [], [])
  }

  lemma ReconnectStep(k: nat)
    requires k < 4
    ensures CanDeliver(Reconnecting(k), k % 2 == 0) && !CanDeliver(Reconnecting(k), k % 2 == 1)
    ensures Deliver(Reconnecting(k), k % 2 == 0) == Reconnecting(k + 1)
  {
    assert forall c: u8 :: AsBodies([c]) == [[c]] by {
      forall c: u8 ensures AsBodies([c]) == [[c]] {
        assert [c][..0] == [];
      }
    }
  }

  // In every order of delivery the two are connected again when the line is silent, after four bodies.
  lemma Reconnects(who: seq<bool>)
    requires IsRun(Link(2, 0, [[RESET]], []), who)
    ensures |who| <= 4
    ensures var l := RunLink(Link(2, 0, [[RESET]], []), who);
      l.toA == [] && l.toB == [] ==> |who| == 4 && l.a == 2 && l.b == 2
  {
    assert Reconnecting(0) == Link(2, 0, [[RESET]], []);
    ReconnectRun(0, who);
    hide Deliver, CanDeliver;
  }

  lemma {:induction false} ReconnectRun(k: nat, who: seq<bool>)
    requires k <= 4 && IsRun(Reconnecting(k), who)
    ensures k + |who| <= 4 && RunLink(Reconnecting(k), who) == Reconnecting(k + |who|)
    decreases |who|
  {
    if who != [] {
      if k == 4 {
        assert false;
      } else {
        ReconnectStep(k);
        ReconnectRun(k + 1, who[1..]);
      }
    }
  }

  // What goes out on the line for each command, and the mode after it, for a connected end ...
  lemma ConnectedAnswers(c: Ctl, k: u8)
    requires c.mode == 2
    ensures var h := Handle(c, [k]);
      && h.passed == c.passed && h.mode == (if k == 0x0E then 0 else 2)
      && h.wire == c.wire + (if k == 0x0B then [0xFF, 0x0D, 0xFF]
                             else if k == 0x05 then [0xFF, 0x0C, 0xFF]
                             else if k == 0x06 then [0xFF, 0x0B, 0xFF]
                             else if k == 0x0E then [0xFF, 0x05, 0xFF]
                             else [])
  {
    OneCommand(ACK);
    OneCommand(NACK);
    OneCommand(CONFIRM);
    OneCommand(CONNECT);
  }

  // ... and for one that is not.
  lemma UnconnectedAnswers(c: Ctl, k: u8)
    requires c.mode != 2
    ensures var h := Handle(c, [k]);
      && h.passed == c.passed
      && h.mode == (if k == 0x05 || k == 0x0E then 1 else if k == 0x0B || k == 0x0D then 2 else 0)
      && h.wire == c.wire + (if k == 0x05 then [0xFF, 0x0B, 0xFF]
                             else if k == 0x0B || k == 0x0C then [0xFF, 0x0D, 0xFF]
                             else if k == 0x0D then []
                             else if k == 0x0E then [0xFF, 0x05, 0xFF]
                             else [0xFF, 0x0C, 0xFF])
  {
    OneCommand(ACK);
    OneCommand(NACK);
    OneCommand(CONFIRM);
    OneCommand(CONNECT);
  }

  // A body of more than one byte: answered with NACK unless the end is connected and the CRC is right, and passed on
  // when the end is connected and it is a WRITE.
  lemma FrameAnswers(c: Ctl, body: seq<u8>)
    requires |body| > 1
    ensures var h := Handle(c, body);
      && h.mode == c.mode
      && h.wire == c.wire + (if c.mode == 2 && Crc(body) == Zeros(16) then [] else [0xFF, 0x0C, 0xFF])
      && h.passed == c.passed + if c.mode == 2 && body[0] == 0x08 then [body] else []
  {
    OneCommand(NACK);
  }
}
