/** The framing of the panel protocol (panel-net.c): frames between flag bytes, escaped bytes, and the parser whose
    state lives on from one read to the next. */
module PanelWire {
  import opened Bytes
  import opened Crc16

  const FRAME: u8 := 0xFF
  const ESC: u8 := 0x1B

  predicate Special(b: u8) { b == FRAME || b == ESC }

  datatype Frame = Command(cmd: u8) | Data(cmd: u8, data: seq<u8>)

  // --- What is sent -----------------------------------------------------------------------------------

  function StuffByte(b: u8): seq<u8> {
    if Special(b) then [ESC, b] else [b]
  }

  function Stuff(s: seq<u8>): seq<u8> {
    if s == [] then [] else Stuff(s[..|s| - 1]) + StuffByte(s[|s| - 1])
  }

  function LengthHigh(n: nat): u8 { n / 0x100 % 0x100 }
  function LengthLow(n: nat): u8 { n % 0x100 }

  // The bytes under the CRC.
  function Payload(cmd: u8, data: seq<u8>): seq<u8> {
    [cmd, LengthHigh(|data|), LengthLow(|data|)] + data
  }

  // The command and the two length bytes go out as they are.
  function Encode(f: Frame): seq<u8> {
    match f
    case Command(c) => [FRAME, c, FRAME]
    case Data(c, d) => [FRAME, c, LengthHigh(|d|), LengthLow(|d|)] + Stuff(d + Trailer(c, d)) + [FRAME]
  }

  function Trailer(cmd: u8, data: seq<u8>): seq<u8> {
    [HighByte(Crc(Payload(cmd, data))), LowByte(Crc(Payload(cmd, data)))]
  }

  // What the other end should take for the frame.
  function Body(f: Frame): (b: seq<u8>)
    ensures b != []
  {
    match f
    case Command(c) => [c]
    case Data(c, d) => Payload(c, d) + Trailer(c, d)
  }

  function EncodeAll(fs: seq<Frame>): seq<u8> {
    if fs == [] then [] else EncodeAll(fs[..|fs| - 1]) + Encode(fs[|fs| - 1])
  }

  function Bodies(fs: seq<Frame>): (bs: seq<seq<u8>>)
    ensures |bs| == |fs| && forall i :: 0 <= i < |fs| ==> bs[i] == Body(fs[i])
  {
    if fs == [] then [] else Bodies(fs[..|fs| - 1]) + [Body(fs[|fs| - 1])]
  }

  // --- The parser ---------------------------------------------------------------------------------------

  // The frame so far, the escape flag, and the bodies dispatched, in order.
  datatype Rx = Rx(frame: seq<u8>, esc: bool, out: seq<seq<u8>>)

  const IDLE := Rx([], false, [])

  function Parse(rx: Rx, c: u8): Rx {
    if c == ESC && !rx.esc then Rx(rx.frame, true, rx.out)
    else if rx.esc || c != FRAME then Rx(rx.frame + [c], false, rx.out)
    else if rx.frame == [] then rx
    else Rx([], false, rx.out + [rx.frame])
  }

  function ParseAll(rx: Rx, s: seq<u8>): Rx {
    if s == [] then rx else Parse(ParseAll(rx, s[..|s| - 1]), s[|s| - 1])
  }

  // One call for each read from the port.
  function ParseReads(rx: Rx, chunks: seq<seq<u8>>): Rx
    decreases |chunks|
  {
    if chunks == [] then rx else ParseReads(ParseAll(rx, chunks[0]), chunks[1..])
  }

  function Joined(chunks: seq<seq<u8>>): seq<u8> {
    if chunks == [] then [] else chunks[0] + Joined(chunks[1..])
  }

  lemma {:induction false} ParseAppend(rx: Rx, s: seq<u8>, t: seq<u8>)
    ensures ParseAll(rx, s + t) == ParseAll(ParseAll(rx, s), t)
  {
    if t == [] {
      assert s + t == s;
    } else {
      var n := |t| - 1;
      assert (s + t)[..|s| + n] == s + t[..n];
      ParseAppend(rx, s, t[..n]);
    }
  }

  lemma ParseNext(rx: Rx, s: seq<u8>, c: u8)
    ensures ParseAll(rx, s + [c]) == Parse(ParseAll(rx, s), c)
  {
    assert (s + [c])[..|s|] == s;
  }

  // Only the byte stream counts, not how the reads cut it up.
  lemma {:induction false} ReadsDoNotMatter(rx: Rx, chunks: seq<seq<u8>>)
    ensures ParseReads(rx, chunks) == ParseAll(rx, Joined(chunks))
    decreases |chunks|
  {
    if chunks != [] {
      ReadsDoNotMatter(ParseAll(rx, chunks[0]), chunks[1..]);
      ParseAppend(rx, chunks[0], Joined(chunks[1..]));
    }
  }

  // --- Round trip ---------------------------------------------------------------------------------------

  // The bytes that are sent without escape are no flags.
  predicate Sendable(f: Frame) {
    !Special(f.cmd) && (f.Data? ==> !Special(LengthHigh(|f.data|)) && !Special(LengthLow(|f.data|)))
  }

  lemma {:induction false} ParseStuffed(rx: Rx, s: seq<u8>)
    requires !rx.esc
    ensures ParseAll(rx, Stuff(s)) == Rx(rx.frame + s, false, rx.out)
  {
    if s == [] {
      assert rx.frame + s == rx.frame;
    } else {
      var n := |s| - 1;
      ParseStuffed(rx, s[..n]);
      ParseStuffedByte(rx, Stuff(s[..n]), s[n]);
      assert rx.frame + s[..n] + [s[n]] == rx.frame + s;
    }
  }

  lemma ParseStuffedByte(rx: Rx, sofar: seq<u8>, b: u8)
    ensures var mid := ParseAll(rx, sofar);
            ParseAll(rx, sofar + StuffByte(b)) == if Special(b) then Parse(Parse(mid, ESC), b) else Parse(mid, b)
  {
    if Special(b) {
      assert sofar + StuffByte(b) == sofar + [ESC] + [b];
      ParseNext(rx, sofar, ESC);
      ParseNext(rx, sofar + [ESC], b);
    } else {
      ParseNext(rx, sofar, b);
    }
  }

  // What a flag does outside an escape.
  function Flushed(rx: Rx): seq<seq<u8>> {
    if rx.frame == [] then rx.out else rx.out + [rx.frame]
  }

  // The four bytes before the data.
  lemma ParseHeader(rx: Rx, a: u8, b: u8, c: u8, d: u8)
    ensures ParseAll(rx, [a, b, c, d]) == Parse(Parse(Parse(Parse(rx, a), b), c), d)
  {
    assert [a, b, c, d] == [] + [a] + [b] + [c] + [d];
    assert [] + [a] == [a];
    ParseNext(rx, [], a);
    ParseNext(rx, [a], b);
    ParseNext(rx, [a] + [b], c);
    ParseNext(rx, [a] + [b] + [c], d);
  }

  lemma ParseCommand(rx: Rx, c: u8)
    ensures ParseAll(rx, [FRAME, c, FRAME]) == Parse(Parse(Parse(rx, FRAME), c), FRAME)
  {
    assert [FRAME, c, FRAME] == [] + [FRAME] + [c] + [FRAME];
    assert [] + [FRAME] == [FRAME];
    ParseNext(rx, [], FRAME);
    ParseNext(rx, [FRAME], c);
    ParseNext(rx, [FRAME] + [c], FRAME);
  }

  lemma GoodHeader(rx: Rx, c: u8, hi: u8, lo: u8)
    requires !rx.esc && !Special(c) && !Special(hi) && !Special(lo)
    ensures ParseAll(rx, [FRAME, c, hi, lo]) == Rx([c, hi, lo], false, Flushed(rx))
  {
    hide ParseAll;
    ParseHeader(rx, FRAME, c, hi, lo);
    assert Parse(rx, FRAME) == Rx([], false, Flushed(rx));
    assert [] + [c] + [hi] + [lo] == [c, hi, lo];
  }

  // A frame comes through whatever lies before it, unless that ends inside an escape.
  lemma FrameComesThrough(rx: Rx, f: Frame)
    requires !rx.esc && Sendable(f)
    ensures ParseAll(rx, Encode(f)) == Rx([], false, Flushed(rx) + [Body(f)])
  {
    match f
    case Command(c) =>
      ParseCommand(rx, c);
      assert Parse(rx, FRAME) == Rx([], false, Flushed(rx)) && [] + [c] == [c];
    case Data(c, d) =>
      var hi, lo := LengthHigh(|d|), LengthLow(|d|);
      GoodHeader(rx, c, hi, lo);
      ParseTail(rx, [FRAME, c, hi, lo], d + Trailer(c, d));
      assert [c, hi, lo] + (d + Trailer(c, d)) == Body(f);
      assert Encode(f) == [FRAME, c, hi, lo] + Stuff(d + Trailer(c, d)) + [FRAME];
  }

  lemma ParseTail(rx: Rx, head: seq<u8>, tail: seq<u8>)
    ensures ParseAll(rx, head + Stuff(tail) + [FRAME]) == Parse(ParseAll(ParseAll(rx, head), Stuff(tail)), FRAME)
    ensures var mid := ParseAll(rx, head);
            !mid.esc ==>
              ParseAll(rx, head + Stuff(tail) + [FRAME]) == Parse(Rx(mid.frame + tail, false, mid.out), FRAME)
  {
    ParseNext(rx, head + Stuff(tail), FRAME);
    ParseAppend(rx, head, Stuff(tail));
    if !ParseAll(rx, head).esc {
      ParseStuffed(ParseAll(rx, head), tail);
    }
  }

  // What the two ends agree on byte for byte: flag, command, length with its high byte first, data, flag.
  lemma LengthSent(c: u8, d: seq<u8>)
    ensures var e := Encode(Data(c, d));
      && |e| >= 5 + |d| && e[0] == 0xFF && e[1] == c && e[|e| - 1] == 0xFF
      && 0x100 * (e[2] as int) + (e[3] as int) == |d| % 0x1_0000
    ensures var b := Body(Data(c, d));
      && |b| == |d| + 5 && b[0] == c && b[3..3 + |d|] == d
      && 0x100 * (b[1] as int) + (b[2] as int) == |d| % 0x1_0000
  {
    LengthBytes(|d|);
    StuffedSize(d + Trailer(c, d));
    hide LengthHigh, LengthLow, Stuff, Trailer;
  }

  // A flag or an escape among the data goes out behind an escape, every other byte as it is.
  lemma EscapesSent(b: u8)
    ensures Stuff([b]) == if b == 0xFF || b == 0x1B then [0x1B, b] else [b]
  {
    assert [b][..0] == [];
  }

  lemma LengthBytes(n: nat)
    ensures 0x100 * (LengthHigh(n) as int) + (LengthLow(n) as int) == n % 0x1_0000
  {
    var q: int, r: int := n / 0x1_0000, n % 0x1_0000;
    assert n == 0x1_0000 * q + r && n / 0x100 == 0x100 * q + r / 0x100;
    assert n / 0x100 % 0x100 == r / 0x100;
    assert n % 0x100 == r % 0x100;
  }

  lemma {:induction false} StuffedSize(s: seq<u8>)
    ensures |s| <= |Stuff(s)| <= 2 * |s|
  {
    if s != [] {
      StuffedSize(s[..|s| - 1]);
    }
  }

  // Every list of frames arrives, in order.
  lemma {:induction false} StreamRoundTrip(fs: seq<Frame>)
    requires forall f :: f in fs ==> Sendable(f)
    ensures ParseAll(IDLE, EncodeAll(fs)) == Rx([], false, Bodies(fs))
  {
    if fs != [] {
      var n := |fs| - 1;
      StreamRoundTrip(fs[..n]);
      ParseAppend(IDLE, EncodeAll(fs[..n]), Encode(fs[n]));
      FrameComesThrough(Rx([], false, Bodies(fs[..n])), fs[n]);
    }
  }

  predicate HasLength(b: seq<u8>, n: nat) {
    |b| == n + 5 && 0x100 * (b[1] as int) + (b[2] as int) == n % 0x1_0000
  }

  lemma SoundBody(c: u8, d: seq<u8>)
    ensures Crc(Body(Data(c, d))) == Zeros(16) && HasLength(Body(Data(c, d)), |d|)
  {
    hide Crc;
    AppendedCrcIsZero(Payload(c, d));
    LengthSent(c, d);
  }

  // The same for the port: any list of frames, cut into reads anywhere; every data body has CRC zero.
  lemma PortRoundTrip(fs: seq<Frame>, chunks: seq<seq<u8>>)
    requires forall f :: f in fs ==> Sendable(f)
    requires Joined(chunks) == EncodeAll(fs)
    ensures ParseReads(IDLE, chunks) == Rx([], false, Bodies(fs))
    ensures forall i :: 0 <= i < |fs| && fs[i].Data? ==> Crc(Bodies(fs)[i]) == Zeros(16)
    // The length read from a body is the number of its data bytes.
    ensures forall i :: 0 <= i < |fs| && fs[i].Data? ==> HasLength(Bodies(fs)[i], |fs[i].data|)
  {
    hide Body, Crc, HasLength, Encode;
    ReadsDoNotMatter(IDLE, chunks);
    StreamRoundTrip(fs);
    forall i | 0 <= i < |fs| && fs[i].Data?
      ensures Crc(Bodies(fs)[i]) == Zeros(16) && HasLength(Bodies(fs)[i], |fs[i].data|)
    {
      SoundBody(fs[i].cmd, fs[i].data);
    }
  }

  // --- The condition is exact ------------------------------------------------------------------------------

  function Size(out: seq<seq<u8>>): nat {
    if out == [] then 0 else Size(out[..|out| - 1]) + |out[|out| - 1]|
  }

  // Bytes taken for content.
  function Kept(rx: Rx): nat { Size(rx.out) + |rx.frame| }

  // A byte adds at most itself; a flag or the start of an escape adds nothing.
  lemma ParseKeeps(rx: Rx, c: u8)
    ensures Kept(rx) <= Kept(Parse(rx, c)) <= Kept(rx) + 1
    ensures Special(c) && !rx.esc ==> Kept(Parse(rx, c)) == Kept(rx)
    ensures rx.esc ==> Kept(Parse(rx, c)) == Kept(rx) + 1 && !Parse(rx, c).esc
  {
    assert (rx.out + [rx.frame])[..|rx.out|] == rx.out;
  }

  // A stuffed byte adds at most one, even in the middle of an escape.
  lemma {:induction false} StuffedKeeps(rx: Rx, s: seq<u8>)
    ensures Kept(ParseAll(rx, Stuff(s))) <= Kept(rx) + |s|
  {
    if s != [] {
      var n := |s| - 1;
      StuffedKeeps(rx, s[..n]);
      var mid := ParseAll(rx, Stuff(s[..n]));
      ParseStuffedByte(rx, Stuff(s[..n]), s[n]);
      ParseKeeps(mid, s[n]);
      ParseKeeps(mid, ESC);
      ParseKeeps(Parse(mid, ESC), s[n]);
    }
  }

  // A flag byte among the first three costs at least one byte of content.
  lemma HeaderKeeps(c: u8, hi: u8, lo: u8)
    requires Special(c) || Special(hi) || Special(lo)
    ensures Kept(ParseAll(IDLE, [FRAME, c, hi, lo])) <= 2
  {
    ParseHeader(IDLE, FRAME, c, hi, lo);
    var r0 := Parse(IDLE, FRAME);
    var r1 := Parse(r0, c);
    var r2 := Parse(r1, hi);
    assert r0 == IDLE && Kept(IDLE) == 0;
    ParseKeeps(r0, c);
    ParseKeeps(r1, hi);
    ParseKeeps(r2, lo);
  }

  // A frame is read back as it was meant if and only if no byte sent without escape is a flag or an escape.
  lemma RoundTripExactly(f: Frame)
    ensures ParseAll(IDLE, Encode(f)) == Rx([], false, [Body(f)]) <==> Sendable(f)
  {
    if Sendable(f) {
      FrameComesThrough(IDLE, f);
    } else {
      assert [Body(f)][..0] == [] && Size([]) == 0 && Size([Body(f)]) == |Body(f)|;
      match f
      case Command(c) =>
        ParseCommand(IDLE, c);
      case Data(c, d) =>
        var head := [FRAME, c, LengthHigh(|d|), LengthLow(|d|)];
        var tail := d + Trailer(c, d);
        HeaderKeeps(c, LengthHigh(|d|), LengthLow(|d|));
        StuffedKeeps(ParseAll(IDLE, head), tail);
        ParseTail(IDLE, head, tail);
        ParseKeeps(ParseAll(ParseAll(IDLE, head), Stuff(tail)), FRAME);
    }
  }

  // A frame that fits the transmit buffer has no special length byte: the command alone decides.
  lemma ShortFrames(f: Frame)
    requires |Encode(f)| <= 32
    ensures Sendable(f) <==> !Special(f.cmd)
  {
    if f.Data? {
      var tail := f.data + Trailer(f.cmd, f.data);
      StuffedLength(tail);
      assert |Encode(f)| == 5 + |Stuff(tail)|;
      ShortLength(|f.data|);
    }
  }

  lemma ShortLength(n: nat)
    requires n < ESC
    ensures !Special(LengthHigh(n)) && !Special(LengthLow(n))
  {
  }

  lemma {:induction false} StuffedLength(s: seq<u8>)
    ensures |s| <= |Stuff(s)| <= 2 * |s|
  {
    if s != [] {
      StuffedLength(s[..|s| - 1]);
    }
  }

  // The bodies already dispatched play no part.
  lemma {:induction false} OutPrefix(rx: Rx, s: seq<u8>)
    ensures ParseAll(rx, s).frame == ParseAll(Rx(rx.frame, rx.esc, []), s).frame
    ensures ParseAll(rx, s).esc == ParseAll(Rx(rx.frame, rx.esc, []), s).esc
    ensures ParseAll(rx, s).out == rx.out + ParseAll(Rx(rx.frame, rx.esc, []), s).out
  {
    if s != [] {
      OutPrefix(rx, s[..|s| - 1]);
    }
  }

  // --- The receive buffer ----------------------------------------------------------------------------------

  // What is in the frame now is the beginning of the frame later, or of the next body dispatched.
  lemma {:induction false} FrameEndsUp(rx: Rx, s: seq<u8>)
    ensures var r := ParseAll(rx, s);
            rx.out <= r.out && (r.out == rx.out ==> rx.frame <= r.frame) &&
            (r.out != rx.out ==> rx.frame <= r.out[|rx.out|])
  {
    if s != [] {
      FrameEndsUp(rx, s[..|s| - 1]);
    }
  }

  // The receive buffer never holds more than the longest body.
  lemma BufferHolds(fs: seq<Frame>, sofar: seq<u8>, rest: seq<u8>, room: nat)
    requires forall f :: f in fs ==> Sendable(f) && |Body(f)| <= room
    requires sofar + rest == EncodeAll(fs)
    ensures |ParseAll(IDLE, sofar).frame| <= room
  {
    StreamRoundTrip(fs);
    ParseAppend(IDLE, sofar, rest);
    var rx := ParseAll(IDLE, sofar);
    FrameEndsUp(rx, rest);
    if Bodies(fs) != rx.out {
      assert fs[|rx.out|] in fs;
    }
  }
}
