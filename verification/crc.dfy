/** The CRC-16 of the panel protocol (panel-net.c): generator x^16 + x^12 + x^5 + 1, register starting at 0,
    most significant bit first.  Registers and ints are strings of bits, most significant first. */
module Crc16 {
  import opened Bytes
  import opened BitStrings

  type Reg = r: seq<bool> | |r| == 16 witness seq(16, _ => false)

  // --- Vectors of bits ------------------------------------------------------------------------------

  function Zeros(n: nat): (z: seq<bool>)
    ensures |z| == n && forall i :: 0 <= i < n ==> !z[i]
  {
    seq(n, _ => false)
  }

  function Xor(a: seq<bool>, b: seq<bool>): (c: seq<bool>)
    requires |a| == |b|
    ensures |c| == |a| && forall i :: 0 <= i < |a| ==> c[i] == (a[i] != b[i])
  {
    seq(|a|, i requires 0 <= i < |a| => a[i] != b[i])
  }

  // The generator without its leading term: bits 12, 5 and 0.
  predicate InGenerator(i: nat) { i == 3 || i == 10 || i == 15 }

  // Multiplication by x: the top bit falls out and comes back as the generator.
  function Shift(c: Reg): (r: Reg)
    ensures forall i :: 0 <= i < 16 ==> r[i] == ((i < 15 && c[i + 1]) != (c[0] && InGenerator(i)))
  {
    seq(16, i requires 0 <= i < 16 => (i < 15 && c[i + 1]) != (c[0] && InGenerator(i)))
  }

  function ShiftN(c: Reg, n: nat): Reg {
    if n == 0 then c else Shift(ShiftN(c, n - 1))
  }

  // --- The CRC of a bit string: one step of polynomial division for each bit -----------------------------

  function FeedBit(c: Reg, b: bool): Reg { Shift(c[0 := c[0] != b]) }

  function Feed(c: Reg, bits: seq<bool>): Reg {
    if bits == [] then c else FeedBit(Feed(c, bits[..|bits| - 1]), bits[|bits| - 1])
  }

  // The bits of a byte string, as they are sent.
  function Stream(s: seq<u8>): (b: seq<bool>)
    ensures |b| == 8 * |s|
  {
    if s == [] then [] else Stream(s[..|s| - 1]) + Bits(s[|s| - 1], 8)
  }

  function Crc(s: seq<u8>): Reg { Feed(Zeros(16), Stream(s)) }

  // --- Linear and one to one --------------------------------------------------------------------------

  lemma ShiftXor(a: Reg, b: Reg)
    ensures Shift(Xor(a, b)) == Xor(Shift(a), Shift(b))
  {
  }

  lemma {:induction false} ShiftNXor(a: Reg, b: Reg, n: nat)
    ensures ShiftN(Xor(a, b), n) == Xor(ShiftN(a, n), ShiftN(b, n))
  {
    if n > 0 {
      ShiftNXor(a, b, n - 1);
      ShiftXor(ShiftN(a, n - 1), ShiftN(b, n - 1));
    }
  }

  lemma ShiftKernel(c: Reg)
    ensures Shift(c) == Zeros(16) <==> c == Zeros(16)
  {
    if Shift(c) == Zeros(16) {
      assert !Shift(c)[15];
      forall i | 0 < i < 16 ensures !c[i] {
        assert !Shift(c)[i - 1];
      }
    }
  }

  lemma {:induction false} ShiftNKernel(c: Reg, n: nat)
    ensures ShiftN(c, n) == Zeros(16) <==> c == Zeros(16)
  {
    if n > 0 {
      ShiftNKernel(c, n - 1);
      ShiftKernel(ShiftN(c, n - 1));
    }
  }

  lemma {:induction false} ShiftNSplit(c: Reg, n: nat)
    requires n > 0
    ensures ShiftN(c, n) == ShiftN(Shift(c), n - 1)
  {
    if n > 1 {
      ShiftNSplit(c, n - 1);
    }
  }

  lemma FeedBitXor(a: Reg, b: Reg, x: bool, y: bool)
    ensures FeedBit(Xor(a, b), x != y) == Xor(FeedBit(a, x), FeedBit(b, y))
  {
    ShiftXor(a[0 := a[0] != x], b[0 := b[0] != y]);
    assert Xor(a, b)[0 := Xor(a, b)[0] != (x != y)] == Xor(a[0 := a[0] != x], b[0 := b[0] != y]);
  }

  // The CRC of a difference is the difference of the CRCs.
  lemma {:induction false} FeedXor(a: Reg, b: Reg, s: seq<bool>, t: seq<bool>)
    requires |s| == |t|
    ensures Feed(Xor(a, b), Xor(s, t)) == Xor(Feed(a, s), Feed(b, t))
  {
    if s != [] {
      var n := |s| - 1;
      assert Xor(s, t)[..n] == Xor(s[..n], t[..n]);
      FeedXor(a, b, s[..n], t[..n]);
      FeedBitXor(Feed(a, s[..n]), Feed(b, t[..n]), s[n], t[n]);
    }
  }

  lemma {:induction false} FeedAppend(c: Reg, s: seq<bool>, t: seq<bool>)
    ensures Feed(c, s + t) == Feed(Feed(c, s), t)
  {
    if t == [] {
      assert s + t == s;
    } else {
      var n := |t| - 1;
      assert (s + t)[..|s| + n] == s + t[..n];
      FeedAppend(c, s, t[..n]);
    }
  }

  lemma {:induction false} FeedZeros(c: Reg, n: nat)
    ensures Feed(c, Zeros(n)) == ShiftN(c, n)
  {
    if n > 0 {
      assert Zeros(n)[..n - 1] == Zeros(n - 1);
      FeedZeros(c, n - 1);
      var d := ShiftN(c, n - 1);
      assert d[0 := d[0] != false] == d;
    }
  }

  // At most 16 bits may be added to the register first and shifted through afterwards.
  function Pad(bits: seq<bool>): (r: Reg)
    requires |bits| <= 16
  {
    bits + Zeros(16 - |bits|)
  }

  lemma {:induction false} FeedIsShift(c: Reg, bits: seq<bool>)
    requires |bits| <= 16
    ensures Feed(c, bits) == ShiftN(Xor(c, Pad(bits)), |bits|)
    decreases |bits|
  {
    if bits == [] {
      assert Xor(c, Pad(bits)) == c;
    } else {
      var first, rest := bits[..1], bits[1..];
      assert bits == first + rest;
      FeedAppend(c, first, rest);
      var d := c[0 := c[0] != bits[0]];
      assert first[..0] == [] && Feed(c, first) == FeedBit(c, bits[0]);
      FeedIsShift(Shift(d), rest);
      ShiftNSplit(Xor(c, Pad(bits)), |bits|);
      hide Shift, Xor, Pad;
      PadSplits(c, bits);
      ShiftXor(d, Behind(rest));
    }
  }

  // The bits with room for one more in front.
  function Behind(rest: seq<bool>): Reg
    requires |rest| <= 15
  {
    [false] + rest + Zeros(15 - |rest|)
  }

  lemma PadSplits(c: Reg, bits: seq<bool>)
    requires 0 < |bits| <= 16
    ensures Xor(c, Pad(bits)) == Xor(c[0 := c[0] != bits[0]], Behind(bits[1..]))
    ensures Shift(Behind(bits[1..])) == Pad(bits[1..])
  {
  }

  // --- Error detection --------------------------------------------------------------------------------

  // An error that starts anywhere, spans at most 16 bits and is not nothing.
  lemma {:induction false} BurstIsSeen(before: nat, burst: seq<bool>, after: nat)
    requires |burst| <= 16 && burst != Zeros(|burst|)
    ensures Feed(Zeros(16), Zeros(before) + burst + Zeros(after)) != Zeros(16)
  {
    var z := Zeros(16);
    FeedAppend(z, Zeros(before) + burst, Zeros(after));
    FeedAppend(z, Zeros(before), burst);
    FeedZeros(z, before);
    ShiftNKernel(z, before);
    FeedIsShift(z, burst);
    assert Xor(z, Pad(burst)) == Pad(burst);
    var i := SomeBit(burst);
    assert Pad(burst)[i];
    ShiftNKernel(Pad(burst), |burst|);
    FeedZeros(Feed(z, Zeros(before) + burst), after);
    ShiftNKernel(Feed(z, Zeros(before) + burst), after);
  }

  lemma SomeBit(b: seq<bool>) returns (i: nat)
    requires b != Zeros(|b|)
    ensures i < |b| && b[i]
  {
    if forall i :: 0 <= i < |b| ==> !b[i] {
      NoBits(b);
      assert false;
    }
    i :| 0 <= i < |b| && b[i];
  }

  // The difference of two strings that differ only inside a window.
  lemma BurstOf(a: seq<bool>, b: seq<bool>, at: nat, span: nat) returns (burst: seq<bool>)
    requires |a| == |b| && a != b && at + span <= |a|
    requires forall i :: 0 <= i < |a| && !(at <= i < at + span) ==> a[i] == b[i]
    ensures |burst| == span && burst != Zeros(span)
    ensures Xor(a, b) == Zeros(at) + burst + Zeros(|a| - at - span)
  {
    burst := Xor(a, b)[at..at + span];
    var i :| 0 <= i < |a| && a[i] != b[i];
    assert burst[i - at];
  }

  lemma NoBits(b: seq<bool>)
    requires forall i :: 0 <= i < |b| ==> !b[i]
    ensures b == Zeros(|b|)
  {
  }

  lemma XorSelf(a: seq<bool>)
    ensures Xor(a, a) == Zeros(|a|)
  {
  }

  // Two strings of the same length that differ, and only within 16 consecutive bits, never have the same CRC.
  lemma {:induction false} BurstDetected(s: seq<u8>, t: seq<u8>, at: nat, span: nat)
    requires |s| == |t| && span <= 16 && at + span <= 8 * |s|
    requires Stream(s) != Stream(t)
    requires forall i :: 0 <= i < 8 * |s| && !(at <= i < at + span) ==> Stream(s)[i] == Stream(t)[i]
    ensures Crc(s) != Crc(t)
  {
    var a, b := Stream(s), Stream(t);
    var e := Xor(a, b);
    var burst := BurstOf(a, b, at, span);
    BurstIsSeen(at, burst, |e| - at - span);
    FeedXor(Zeros(16), Zeros(16), a, b);
    XorSelf(Zeros(16));
    if Crc(s) == Crc(t) {
      XorSelf(Crc(s));
      assert false;
    }
  }

  lemma {:induction false} StreamAt(s: seq<u8>, k: nat)
    requires k < |s|
    ensures Stream(s)[8 * k..8 * k + 8] == Bits(s[k], 8)
  {
    if k < |s| - 1 {
      StreamAt(s[..|s| - 1], k);
    }
  }

  lemma {:induction false} StreamAppend(s: seq<u8>, t: seq<u8>)
    ensures Stream(s + t) == Stream(s) + Stream(t)
  {
    if t == [] {
      assert s + t == s;
    } else {
      var n := |t| - 1;
      assert (s + t)[..|s| + n] == s + t[..n];
      StreamAppend(s, t[..n]);
    }
  }

  lemma StreamOne(v: u8)
    ensures Stream([v]) == Bits(v, 8)
  {
    assert [v][..0] == [];
  }

  lemma BytesAreTheirBits(v: u8, w: u8)
    ensures Bits(v, 8) == Bits(w, 8) ==> v == w
  {
    RoundTripBits(v, 8);
    RoundTripBits(w, 8);
    assert Pow2(8) == 0x100;
    LowPartSmall(v, 8);
    LowPartSmall(w, 8);
  }

  // A body whose CRC is zero and that is changed in one byte or in two adjacent bytes has a CRC that is not zero.
  lemma {:induction false} DamageDetected(s: seq<u8>, t: seq<u8>, k: nat)
    requires |s| == |t| && k < |s| && Crc(s) == Zeros(16)
    requires s != t && forall i :: 0 <= i < |s| && i != k && i != k + 1 ==> s[i] == t[i]
    ensures Crc(t) != Zeros(16)
  {
    hide Stream, Bits, Feed;
    var span := if k + 1 < |s| then 16 else 8;
    var i :| 0 <= i < |s| && s[i] != t[i];
    StreamAt(s, i);
    StreamAt(t, i);
    BytesAreTheirBits(s[i], t[i]);
    forall j | 0 <= j < 8 * |s| && !(8 * k <= j < 8 * k + span) ensures Stream(s)[j] == Stream(t)[j] {
      SameBit(s, t, j / 8, j % 8);
    }
    BurstDetected(s, t, 8 * k, span);
  }

  lemma SameBit(s: seq<u8>, t: seq<u8>, k: nat, i: nat)
    requires |s| == |t| && k < |s| && i < 8 && s[k] == t[k]
    ensures Stream(s)[8 * k + i] == Stream(t)[8 * k + i]
  {
    hide Stream, Bits;
    StreamAt(s, k);
    StreamAt(t, k);
    assert Stream(s)[8 * k + i] == Stream(s)[8 * k..8 * k + 8][i];
    assert Stream(t)[8 * k + i] == Stream(t)[8 * k..8 * k + 8][i];
  }

  // --- Appending the CRC --------------------------------------------------------------------------------

  function HighByte(c: Reg): u8 {
    assert Pow2(8) == 0x100;
    FromBits(c[..8])
  }

  function LowByte(c: Reg): u8 {
    assert Pow2(8) == 0x100;
    FromBits(c[8..])
  }

  lemma {:induction false} AppendedCrcIsZero(s: seq<u8>)
    ensures Crc(s + [HighByte(Crc(s)), LowByte(Crc(s))]) == Zeros(16)
  {
    hide Stream, Bits, Feed, ShiftN, FromBits;
    var c := Crc(s);
    var hi, lo := HighByte(c), LowByte(c);
    BitsOfFromBits(c[..8]);
    BitsOfFromBits(c[8..]);
    StreamAppend(s, [hi, lo]);
    StreamAppend([hi], [lo]);
    assert [hi] + [lo] == [hi, lo];
    StreamOne(hi);
    StreamOne(lo);
    assert Stream([hi, lo]) == c;
    FeedAppend(Zeros(16), Stream(s), c);
    FeedIsShift(c, c);
    assert Xor(c, Pad(c)) == Zeros(16);
    ShiftNKernel(Zeros(16), 16);
  }

  // --- The code, on 32-bit ints --------------------------------------------------------------------------

  type Int32 = x: seq<bool> | |x| == 32 witness seq(32, _ => false)

  function Low16(x: Int32): Reg { x[16..] }

  function Shl(x: Int32, n: nat): Int32
    requires n <= 32
  {
    x[n..] + Zeros(n)
  }

  // Arithmetic shift, as for a signed int.
  function Sar(x: Int32, n: nat): Int32
    requires n <= 32
  {
    seq(n, _ => x[0]) + x[..32 - n]
  }

  function And255(x: Int32): Int32 { Zeros(24) + x[24..] }

  // Is bit 15 set?
  predicate Test8000(x: Int32) { x[16] }

  const X1021: Int32 :=
    [false, false, false, false, false, false, false, false, false, false, false, false, false, false, false, false,
     false, false, false, true, false, false, false, false, false, false, true, false, false, false, false, true]

  function Value(v: u8): Int32 { Zeros(24) + Bits(v, 8) }

  // ByteCRC16.  The register may be any int: only its low 16 bits matter.
  method ByteCRC16(value: u8, crcin: Int32) returns (r: Int32)
    ensures Low16(r) == Feed(Low16(crcin), Bits(value, 8))
  {
    hide Xor, Shift, Low16, Feed, Bits, Sar, And255, ShiftN;
    var k: Int32 := Shl(And255(Xor(Sar(crcin, 8), Value(value))), 8);
    var crc: Int32 := Zeros(32);
    var bits := 8;
    ghost var start: Reg := Xor(Low16(crcin)[..8], Bits(value, 8)) + Zeros(8);
    StartOfByte(crcin, Bits(value, 8));
    assert ShiftN(start, 0) == start by {
      NoShift(start);
    }
    while bits > 0
      invariant 0 <= bits <= 8
      invariant Low16(Xor(crc, k)) == ShiftN(start, 8 - bits)
      // What is left of k lies above bit 7 + the rounds made.
      invariant forall i :: 16 + bits <= i < 32 ==> !k[i]
    {
      ghost var crc0, k0 := crc, k;
      if Test8000(Xor(crc, k)) {
        crc := Xor(Shl(crc, 1), X1021);
      } else {
        crc := Shl(crc, 1);
      }
      k := Shl(k, 1);
      RoundShifts(crc0, k0);
      bits := bits - 1;
      NextShift(start, 8 - bits);
    }
    NothingLeft(crc, k);
    r := Xor(Shl(crcin, 8), crc);
    StepSplits(Low16(crcin), Bits(value, 8));
    LowOfResult(crcin, crc);
  }

  lemma NoShift(c: Reg)
    ensures ShiftN(c, 0) == c
  {
  }

  lemma NextShift(c: Reg, n: nat)
    requires n > 0
    ensures ShiftN(c, n) == Shift(ShiftN(c, n - 1))
  {
  }

  // A round of the loop, in either branch, is one shift of the register that crc and k hold between them.
  lemma RoundShifts(crc: Int32, k: Int32)
    ensures var next := if Test8000(Xor(crc, k)) then Xor(Shl(crc, 1), X1021) else Shl(crc, 1);
      Low16(Xor(next, Shl(k, 1))) == Shift(Low16(Xor(crc, k)))
  {
    var next := if Test8000(Xor(crc, k)) then Xor(Shl(crc, 1), X1021) else Shl(crc, 1);
    forall i | 0 <= i < 16 ensures Low16(Xor(next, Shl(k, 1)))[i] == Shift(Low16(Xor(crc, k)))[i] {
      ShlBit(crc, i);
      ShlBit(k, i);
      GeneratorBit(i);
    }
  }

  lemma ShlBit(x: Int32, i: nat)
    requires i < 16
    ensures Shl(x, 1)[16 + i] == (i < 15 && x[16 + (i + 1)])
  {
  }

  lemma GeneratorBit(i: nat)
    requires i < 16
    ensures X1021[16 + i] == InGenerator(i)
  {
    if i < 8 {
      assert !X1021[16] && !X1021[17] && !X1021[18] && X1021[19];
      assert !X1021[20] && !X1021[21] && !X1021[22] && !X1021[23];
    } else {
      assert !X1021[24] && !X1021[25] && X1021[26] && !X1021[27];
      assert !X1021[28] && !X1021[29] && !X1021[30] && X1021[31];
    }
  }

  lemma NothingLeft(crc: Int32, k: Int32)
    requires forall i :: 16 <= i < 32 ==> !k[i]
    ensures Low16(Xor(crc, k)) == Low16(crc)
  {
  }

  lemma LowOfResult(crcin: Int32, crc: Int32)
    ensures Low16(Xor(Shl(crcin, 8), crc)) == Xor(Low16(crcin)[8..] + Zeros(8), Low16(crc))
  {
  }

  lemma StartOfByte(c: Int32, v: seq<bool>)
    requires |v| == 8
    ensures var k := Shl(And255(Xor(Sar(c, 8), Zeros(24) + v)), 8);
      && Low16(Xor(Zeros(32), k)) == Xor(Low16(c)[..8], v) + Zeros(8)
      && forall i :: 24 <= i < 32 ==> !k[i]
  {
    TopByte(c, v);
  }

  // The mask and the shifts select the byte above the lowest one.
  lemma TopByte(c: Int32, v: seq<bool>)
    requires |v| == 8
    ensures Shl(And255(Xor(Sar(c, 8), Zeros(24) + v)), 8) == Zeros(16) + Xor(Low16(c)[..8], v) + Zeros(8)
  {
    var x: Int32 := Xor(Sar(c, 8), Zeros(24) + v);
    assert x[24..] == Xor(Low16(c)[..8], v);
  }

  // Eight rounds move the low byte of the register up and reduce the rest.
  lemma StepSplits(c: Reg, v: seq<bool>)
    requires |v| == 8
    ensures Feed(c, v) == Xor(c[8..] + Zeros(8), ShiftN(Xor(c[..8], v) + Zeros(8), 8))
  {
    var hi: Reg, lo: Reg := Xor(c[..8], v) + Zeros(8), Zeros(8) + c[8..];
    hide Feed, ShiftN, Shift;
    FeedIsShift(c, v);
    assert Xor(c, Pad(v)) == Xor(lo, hi);
    ShiftNXor(lo, hi, 8);
    MovesUp(c[8..], 8);
  }

  lemma {:induction false} MovesUp(b: seq<bool>, n: nat)
    requires |b| == 8 && n <= 8
    ensures ShiftN(Zeros(8) + b, n) == Zeros(8 - n) + b + Zeros(n)
  {
    if n == 0 {
      assert Zeros(8) + b == Zeros(8 - n) + b + Zeros(n);
    } else {
      MovesUp(b, n - 1);
      assert Shift(Zeros(8 - (n - 1)) + b + Zeros(n - 1)) == Zeros(8 - n) + b + Zeros(n);
    }
  }

  // CalcCRC16Bytes: keeps the untruncated int from byte to byte and truncates at the end.
  method CalcCRC16Bytes(count: nat, buffer: seq<u8>) returns (r: Reg)
    requires 1 <= count <= |buffer|
    ensures r == Crc(buffer[..count])
  {
    var crc: Int32 := Zeros(32);
    var i := 0;
    assert Low16(crc) == Zeros(16) && buffer[..0] == [];
    while i < count
      invariant 0 <= i <= count && Low16(crc) == Crc(buffer[..i])
    {
      crc := ByteCRC16(buffer[i], crc);
      CrcNext(buffer, i);
      i := i + 1;
    }
    r := Low16(crc);
  }

  lemma CrcNext(s: seq<u8>, i: nat)
    requires i < |s|
    ensures Crc(s[..i + 1]) == Feed(Crc(s[..i]), Bits(s[i], 8))
  {
    assert s[..i + 1][..i] == s[..i];
    FeedAppend(Zeros(16), Stream(s[..i]), Bits(s[i], 8));
  }
}
