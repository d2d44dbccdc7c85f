/** Numbers as strings of bits, most significant first. */
module BitStrings {
  import opened Bytes

  // The bit of d that the power of two 'mask' selects.
  predicate HasBit(d: nat, mask: nat) {
    if mask <= 1 then mask == 1 && d % 2 == 1 else HasBit(d / 2, mask / 2)
  }

  // The low 'count' bits of d, most significant first.
  function Bits(d: nat, count: nat): (b: seq<bool>)
    ensures |b| == count
  {
    if count == 0 then [] else [HasBit(d, Pow2(count - 1))] + Bits(d, count - 1)
  }

  function FromBits(b: seq<bool>): (n: nat)
    ensures n < Pow2(|b|)
  {
    if b == [] then 0 else 2 * FromBits(b[..|b| - 1]) + (if b[|b| - 1] then 1 else 0)
  }

  lemma {:induction false} BitsSnoc(d: nat, count: nat)
    requires count > 0
    ensures Bits(d, count) == Bits(d / 2, count - 1) + [d % 2 == 1]
  {
    if count > 1 {
      BitsSnoc(d, count - 1);
    }
  }

  // The low 'count' bits of d as a number.
  function LowPart(d: nat, count: nat): nat {
    if count == 0 then 0 else 2 * LowPart(d / 2, count - 1) + d % 2
  }

  lemma {:induction false} LowPartSmall(d: nat, count: nat)
    requires d < Pow2(count)
    ensures LowPart(d, count) == d
  {
    if count > 0 {
      LowPartSmall(d / 2, count - 1);
    }
  }

  lemma {:induction false} LowPartAdd(d: nat, q: nat, count: nat)
    ensures LowPart(d + q * Pow2(count), count) == LowPart(d, count)
  {
    if count > 0 {
      Halve(q, d, count);
      LowPartAdd(d / 2, q, count - 1);
    }
  }

  lemma Halve(q: nat, d: nat, count: nat)
    requires count > 0
    ensures (d + q * Pow2(count)) / 2 == d / 2 + q * Pow2(count - 1)
    ensures (d + q * Pow2(count)) % 2 == d % 2
  {
    var t := q * Pow2(count - 1);
    assert q * Pow2(count) == 2 * t;
  }

  lemma LowPartByte(d: nat)
    ensures LowPart(d, 8) == d % 0x100
  {
    assert Pow2(8) == 0x100;
    LowPartAdd(d % 0x100, d / 0x100, 8);
    LowPartSmall(d % 0x100, 8);
  }

  // What is sent is what is received, as far as the width allows.
  lemma {:induction false} RoundTripBits(d: nat, count: nat)
    ensures FromBits(Bits(d, count)) == LowPart(d, count)
  {
    if count > 0 {
      BitsSnoc(d, count);
      assert Bits(d, count)[..count - 1] == Bits(d / 2, count - 1);
      RoundTripBits(d / 2, count - 1);
    }
  }

  lemma {:induction false} BitsOfFromBits(b: seq<bool>)
    ensures Bits(FromBits(b), |b|) == b
  {
    if b != [] {
      var c := b[..|b| - 1];
      BitsOfFromBits(c);
      BitsSnoc(FromBits(b), |b|);
      assert b == c + [b[|b| - 1]];
    }
  }
}
