/** An end of the panel protocol (panel-net.c): the fixed buffers, the parser loop, and the writer that copes with
    partial writes. */
module PanelEnd {
  import opened BitStrings
  import opened Bytes
  import opened Crc16
  import opened PanelWire
  import opened PanelProtocol

  const RXFRAME_SIZE := 22
  const TXFRAME_SIZE := 32

  ghost predicate WorksAfter(writes: nat -> int, t: nat) { exists u: nat :: t <= u && writes(u) > 0 }

  // The port does not fail for ever.
  ghost predicate Recovers(writes: nat -> int) { forall t: nat :: WorksAfter(writes, t) }

  class Panel {
    // What the operating system takes of each write: any number of bytes, or a failure (negative).
    const writes: nat -> int
    const dataframe: array<u8>
    const txframe: array<u8>

    var mode: Mode
    var length: nat
    var escFlag: bool
    var clock: nat
    var wire: seq<u8>
    var passed: seq<seq<u8>>

    constructor (writes: nat -> int)
      ensures this.writes == writes && fresh(dataframe) && fresh(txframe)
      ensures dataframe.Length == 22 && txframe.Length == 32 && dataframe != txframe
      ensures length == 0 && View() == Node([], false, Ctl(0, [], []))
    {
      this.writes := writes;
      dataframe := new u8[RXFRAME_SIZE];
      txframe := new u8[TXFRAME_SIZE];
      mode, length, escFlag, clock, wire, passed := 0, 0, false, 0, [], [];
    }

    ghost predicate Valid()
      reads this
    {
      && dataframe.Length == RXFRAME_SIZE && txframe.Length == TXFRAME_SIZE && dataframe != txframe
      && length <= RXFRAME_SIZE && Recovers(writes)
    }

    ghost function View(): Node
      requires length <= dataframe.Length
      reads this, dataframe
    {
      Node(dataframe[..length], escFlag, Ctl(mode, wire, passed))
    }

    // write(2): takes up to all of s.
    method Write(s: seq<u8>) returns (ret: int)
      modifies `wire, `clock
      ensures clock == old(clock) + 1
      ensures ret <= |s| && (ret < 0 <==> writes(old(clock)) < 0)
      ensures writes(old(clock)) > 0 && s != [] ==> ret > 0
      ensures wire == if ret < 0 then old(wire) else old(wire) + s[..ret]
    {
      ret := writes(clock);
      clock := clock + 1;
      if ret > |s| {
        ret := |s|;
      }
      if ret >= 0 {
        wire := wire + s[..ret];
      }
    }

    // Everything is written, in order and once, whatever each write takes.
    method PutCharString(s: seq<u8>) returns (n: nat)
      requires Valid() && s != []
      modifies `wire, `clock
      ensures wire == old(wire) + s && n == |s|
    {
      var size := |s|;
      assert WorksAfter(writes, clock);
      ghost var due: nat :| clock <= due && writes(due) > 0;
      var first := true;
      while first || size > 0
        invariant 0 <= size <= |s| && wire == old(wire) + s[..|s| - size]
        invariant size > 0 ==> clock <= due && writes(due) > 0
        invariant first ==> size > 0
        decreases size, due - clock
      {
        var ret := Write(s[|s| - size..]);
        if ret >= 0 {
          assert s[..|s| - size] + s[|s| - size..][..ret] == s[..|s| - (size - ret)];
          size := size - ret;
        }
        if size > 0 && due < clock {
          assert WorksAfter(writes, clock);
          due :| clock <= due && writes(due) > 0;
        }
        first := false;
      }
      n := |s|;
    }

    method SendCmdFrame(cmd: u8)
      requires Valid()
      modifies `wire, `clock
      ensures wire == old(wire) + Encode(Command(cmd))
    {
      var n := PutCharString([FRAME, cmd, FRAME]);
    }

    // Escapes one byte into the transmit buffer.
    method PutStuffed(i: nat, c: u8) returns (k: nat)
      requires i + |StuffByte(c)| <= txframe.Length
      modifies txframe
      ensures k == i + |StuffByte(c)| && txframe[..k] == old(txframe[..i]) + StuffByte(c)
    {
      k := i;
      if c == FRAME || c == ESC {
        txframe[k] := ESC;
        k := k + 1;
      }
      txframe[k] := c;
      k := k + 1;
    }

    // Needs a frame that fits the transmit buffer.
    method SendDataFrame(cmd: u8, data: seq<u8>)
      requires Valid() && |Encode(Data(cmd, data))| <= TXFRAME_SIZE
      modifies txframe, `wire, `clock
      ensures wire == old(wire) + Encode(Data(cmd, data))
      // The third and fourth byte are the length, high byte first.
      ensures |wire| >= |old(wire)| + 5
      ensures 0x100 * (wire[|old(wire)| + 2] as int) + (wire[|old(wire)| + 3] as int) == |data|
    {
      hide Stuff, Crc, Payload, LengthHigh, LengthLow, HighByte, LowByte, StuffByte, Encode;
      LengthSent(cmd, data);
      ghost var p := Payload(cmd, data);
      EncodeParts(cmd, data);
      PayloadParts(cmd, data);
      EncodedFrom4(cmd, data);
      var crc := FillHeader(cmd, |data|);
      var i;
      i, crc := FillData(p, data, crc);
      i := PutStuffed(i, HighByte(crc));
      i := PutStuffed(i, LowByte(crc));
      i := PutFlag(i);
      WriteFrame(i);
    }

    method PutFlag(i: nat) returns (k: nat)
      requires i < txframe.Length
      modifies txframe
      ensures k == i + 1 && txframe[..k] == old(txframe[..i]) + [FRAME]
    {
      txframe[i] := FRAME;
      k := i + 1;
    }

    // Stuffs the data behind the header and carries the CRC along; p is all that the CRC covers.
    method FillData(ghost p: seq<u8>, data: seq<u8>, crc0: Reg) returns (i: nat, crc: Reg)
      requires 4 + |Stuff(data)| <= txframe.Length
      requires |p| == 3 + |data| && p[3..] == data && crc0 == Crc(p[..3])
      modifies txframe
      ensures i == 4 + |Stuff(data)| && txframe[..i] == old(txframe[..4]) + Stuff(data) && crc == Crc(p)
    {
      hide Stuff, Crc;
      ghost var head := txframe[..4];
      StuffNothing(data);
      var j := 0;
      i, crc := 4, crc0;
      while j < |data|
        invariant 0 <= j <= |data|
        invariant i == 4 + |Stuff(data[..j])|
        invariant i <= txframe.Length && txframe[..i] == head + Stuff(data[..j])
        invariant crc == Crc(p[..3 + j])
      {
        StuffNext(data, j);
        i := PutStuffed(i, data[j]);
        Associate(head, Stuff(data[..j]), StuffByte(data[j]));
        crc := CrcStep(crc, data[j]);
        CrcNext(p, 3 + j);
        j := j + 1;
      }
      assert data[..j] == data && p[..3 + j] == p;
    }

    // Flag, command and length; returns the CRC of the last three.
    method FillHeader(cmd: u8, length: nat) returns (crc: Reg)
      requires txframe.Length == TXFRAME_SIZE
      modifies txframe
      ensures txframe[..4] == [FRAME, cmd, LengthHigh(length), LengthLow(length)]
      ensures crc == Crc([cmd, LengthHigh(length), LengthLow(length)])
    {
      txframe[0], txframe[1] := FRAME, cmd;
      crc := CrcStep(Zeros(16), cmd);
      txframe[2] := LengthHigh(length);
      crc := CrcStep(crc, txframe[2]);
      txframe[3] := LengthLow(length);
      crc := CrcStep(crc, txframe[3]);
      HeaderCrc(cmd, LengthHigh(length), LengthLow(length));
    }

    // Writes the first n bytes of the transmit buffer.
    method WriteFrame(n: nat)
      requires Valid() && n <= TXFRAME_SIZE
      modifies `wire, `clock
      ensures wire == old(wire) + txframe[..n]
    {
      var i, at := n, 0;
      while i > 0
        invariant at + i == n && i >= 0
        invariant wire == old(wire) + txframe[..at]
      {
        var k := PutCharString(txframe[at..at + i]);
        i := i - k;
        at := at + k;
      }
    }

    // The running CRC is kept in an unsigned short.
    method CrcStep(crc: Reg, c: u8) returns (r: Reg)
      ensures r == Feed(crc, Bits(c, 8))
    {
      var wide: Int32 := Zeros(16) + crc;
      assert Low16(wide) == crc;
      var out := ByteCRC16(c, wide);
      r := Low16(out);
    }

    // Answers the body in the receive buffer that is longer than one byte.
    method DoFrameAnalysis(size: nat)
      requires Valid() && 1 < size <= RXFRAME_SIZE
      modifies `wire, `clock, `passed
      ensures Ctl(mode, wire, passed) == Handle(old(Ctl(mode, wire, passed)), dataframe[..size])
    {
      OneCommand(NACK);
      if mode != 2 {
        SendCmdFrame(NACK);
        return;
      }
      var crc := CalcCRC16Bytes(size, dataframe[..]);
      assert dataframe[..][..size] == dataframe[..size];
      if crc != Zeros(16) {
        SendCmdFrame(NACK);
      }
      if dataframe[0] == WRITE {
        passed := passed + [dataframe[..size]];
      }
    }

    // Answers a command.
    method DoCmdAction(c: u8)
      requires Valid()
      modifies `mode, `wire, `clock
      ensures mode == OnCommand(old(mode), c).mode
      ensures wire == old(wire) + EncodeCommands(OnCommand(old(mode), c).reply)
    {
      OneCommand(ACK);
      OneCommand(NACK);
      OneCommand(CONFIRM);
      OneCommand(CONNECT);
      if mode != 2 {
        if c == CONNECT {
          mode := 1;
          SendCmdFrame(ACK);
        } else if c == ACK {
          SendCmdFrame(CONFIRM);
          mode := 2;
        } else if c == NACK {
          SendCmdFrame(CONFIRM);
          mode := 0;
        } else if c == CONFIRM {
          mode := 2;
        } else if c == RESET {
          mode := 0;
          SendCmdFrame(CONNECT);
          mode := 1;
        } else {
          SendCmdFrame(NACK);
          mode := 0;
        }
      } else {
        if c == ACK {
          SendCmdFrame(CONFIRM);
        } else if c == NACK || c == CONFIRM {
        } else if c == CONNECT {
          SendCmdFrame(NACK);
        } else if c == DISCONNECT {
          SendCmdFrame(ACK);
        } else if c == RESET {
          mode := 0;
          SendCmdFrame(CONNECT);
        }
      }
    }

    // One byte from the line.
    method Take(c: u8)
      requires Valid()
      requires |Parse(Rx(View().frame, escFlag, []), c).frame| <= RXFRAME_SIZE
      modifies dataframe, `length, `escFlag, `mode, `wire, `clock, `passed
      ensures Valid()
      ensures View() == Received(old(View()), [c])
    {
      OneByte(View(), c);
      if c == ESC {
        if escFlag {
          escFlag := false;
          Keep(c);
        } else {
          escFlag := true;
        }
        return;
      }
      if escFlag {
        escFlag := false;
        Keep(c);
        return;
      }
      if c == FRAME {
        if length > 0 {
          if length == 1 {
            DoCmdAction(dataframe[0]);
          } else {
            DoFrameAnalysis(length);
          }
          length := 0;
        }
      } else {
        Keep(c);
      }
    }

    method Keep(c: u8)
      requires length < dataframe.Length
      modifies dataframe, `length
      ensures length == old(length) + 1 && dataframe[..length] == old(dataframe[..length]) + [c]
    {
      dataframe[length] := c;
      length := length + 1;
    }

    // The bytes of one read.  The parser has room for no more than 22 bytes of a frame.
    method Receive(inBuf: seq<u8>)
      requires Valid()
      requires forall n :: 0 <= n <= |inBuf| ==> |Received(View(), inBuf[..n]).frame| <= RXFRAME_SIZE
      modifies dataframe, `length, `escFlag, `mode, `wire, `clock, `passed
      ensures Valid()
      ensures View() == Received(old(View()), inBuf)
    {
      ghost var was := View();
      var i := 0;
      assert inBuf[..0] == [];
      while i < |inBuf|
        invariant 0 <= i <= |inBuf| && Valid()
        invariant View() == Received(was, inBuf[..i])
      {
        assert inBuf[..i + 1] == inBuf[..i] + [inBuf[i]];
        ReceivedTwice(was, inBuf[..i], [inBuf[i]]);
        OneByte(View(), inBuf[i]);
        Take(inBuf[i]);
        i := i + 1;
      }
      assert inBuf[..i] == inBuf;
    }
  }

  lemma HeaderCrc(cmd: u8, hi: u8, lo: u8)
    ensures Crc([cmd, hi, lo]) == Feed(Feed(Feed(Zeros(16), Bits(cmd, 8)), Bits(hi, 8)), Bits(lo, 8))
  {
    hide Feed, Bits, Stream;
    var s := [cmd, hi, lo];
    EmptyCrc();
    CrcNext(s, 0);
    CrcNext(s, 1);
    CrcNext(s, 2);
    assert s[..0] == [] && s[..3] == s;
  }

  lemma EmptyCrc()
    ensures Crc([]) == Zeros(16)
  {
  }

  lemma StuffLast(s: seq<u8>, a: u8, b: u8)
    ensures Stuff(s + [a, b]) == Stuff(s) + StuffByte(a) + StuffByte(b)
  {
    var t := s + [a, b];
    assert t[..|s|] == s && t[..|s| + 2] == t;
    StuffNext(t, |s|);
    StuffNext(t, |s| + 1);
  }

  lemma PayloadParts(cmd: u8, data: seq<u8>)
    ensures var p := Payload(cmd, data);
      |p| == 3 + |data| && p[3..] == data && p[..3] == [cmd, LengthHigh(|data|), LengthLow(|data|)]
  {
  }

  lemma EncodedFrom4(cmd: u8, data: seq<u8>)
    ensures |Encode(Data(cmd, data))|
         == 5 + |Stuff(data)|
            + |StuffByte(HighByte(Crc(Payload(cmd, data))))| + |StuffByte(LowByte(Crc(Payload(cmd, data))))|
  {
    EncodeParts(cmd, data);
  }

  lemma EncodeParts(cmd: u8, data: seq<u8>)
    ensures Encode(Data(cmd, data)) ==
              [FRAME, cmd, LengthHigh(|data|), LengthLow(|data|)] + Stuff(data)
              + StuffByte(HighByte(Crc(Payload(cmd, data)))) + StuffByte(LowByte(Crc(Payload(cmd, data)))) + [FRAME]
  {
    var hi, lo := Trailer(cmd, data)[0], Trailer(cmd, data)[1];
    StuffLast(data, hi, lo);
    assert Trailer(cmd, data) == [hi, lo];
    Regroup([FRAME, cmd, LengthHigh(|data|), LengthLow(|data|)], Stuff(data), StuffByte(hi), StuffByte(lo), [FRAME]);
  }

  lemma Associate(a: seq<u8>, b: seq<u8>, c: seq<u8>)
    ensures a + b + c == a + (b + c)
  {
  }

  lemma Regroup(a: seq<u8>, b: seq<u8>, c: seq<u8>, d: seq<u8>, e: seq<u8>)
    ensures a + (b + c + d) + e == a + b + c + d + e
  {
  }

  lemma StuffNothing(s: seq<u8>)
    ensures Stuff(s[..0]) == []
  {
  }

  // The buffer still has room for the next byte of the frame and the closing flag.
  lemma StuffNext(s: seq<u8>, j: nat)
    requires j < |s|
    ensures Stuff(s[..j + 1]) == Stuff(s[..j]) + StuffByte(s[j])
    ensures |Stuff(s[..j + 1])| <= |Stuff(s)|
  {
    assert s[..j + 1][..j] == s[..j];
    StuffGrows(s, j + 1);
  }

  lemma {:induction false} StuffGrows(s: seq<u8>, j: nat)
    requires j <= |s|
    ensures |Stuff(s[..j])| <= |Stuff(s)|
  {
    if j < |s| {
      StuffGrows(s[..|s| - 1], j);
      assert s[..|s| - 1][..j] == s[..j];
    } else {
      assert s[..j] == s;
    }
  }

  lemma OneByte(n: Node, c: u8)
    ensures Received(n, [c]) == (var r := Parse(Rx(n.frame, n.esc, []), c);
                                 Node(r.frame, r.esc, if r.out == [] then n.ctl else Handle(n.ctl, n.frame)))
  {
    var start := Rx(n.frame, n.esc, []);
    ParseNext(start, [], c);
    assert [] + [c] == [c];
    if c == FRAME && !n.esc && n.frame != [] {
      HandleNext(n.ctl, [], n.frame);
      assert [] + [n.frame] == [n.frame];
    }
  }
}
