// Bytes, 16-bit words and running checksums, in the widths the drivers use.
module Bytes {

  type u8 = x: int | 0 <= x < 0x100

  type u16 = x: int | 0 <= x < 0x1_0000

  function Lo(w: u16): u8 { w % 0x100 }

  function Hi(w: u16): u8 { w / 0x100 }

  function Word(lo: u8, hi: u8): u16 { lo + 0x100 * hi }

  lemma WordOfParts(w: u16)
    ensures Word(Lo(w), Hi(w)) == w
  {
  }

  // Bitwise and of the low n bits.
  function AndBits(a: nat, b: nat, n: nat): (r: nat)
    ensures r <= a && r <= b
  {
    if n == 0 then 0
    else 2 * AndBits(a / 2, b / 2, n - 1) + (if a % 2 == 1 && b % 2 == 1 then 1 else 0)
  }

  function And(a: u8, b: u8): u8 { AndBits(a, b, 8) }

  lemma {:induction false} AndTwice(a: nat, b: nat, n: nat)
    ensures AndBits(AndBits(a, b, n), b, n) == AndBits(a, b, n)
  {
    if n > 0 {
      AndTwice(a / 2, b / 2, n - 1);
      var r := AndBits(a, b, n);
      assert r / 2 == AndBits(a / 2, b / 2, n - 1);
    }
  }

  lemma AndFull(b: u8)
    ensures And(0xFF, b) == b
  {
    AndOnes(b, 0xFF, 8);
  }

  lemma {:induction false} AndOnes(b: nat, ones: nat, n: nat)
    requires b <= ones && ones + 1 == Pow2(n)
    ensures AndBits(ones, b, n) == b
  {
    if n > 0 {
      AndOnes(b / 2, ones / 2, n - 1);
    }
  }

  function Pow2(n: nat): (p: nat)
    ensures p > 0
  {
    if n == 0 then 1 else 2 * Pow2(n - 1)
  }

  lemma {:induction false} AndZero(a: nat, n: nat)
    ensures AndBits(a, 0, n) == 0
  {
  }

  // Clearing bit 6 of a byte whose two top bits are set only clears bits.
  lemma AndClearBit6(x: nat)
    requires x < 0x40
    ensures And(0xC0 + x, 0x80 + x) == 0x80 + x
  {
    AndLow(x, 6, 0x40);
  }

  lemma {:induction false} AndLow(x: nat, k: nat, h: nat)
    requires x < h == Pow2(k)
    ensures AndBits(3 * h + x, 2 * h + x, k + 2) == 2 * h + x
  {
    if k > 0 {
      AndLow(x / 2, k - 1, h / 2);
    } else {
      assert AndBits(3, 2, 2) == 2 * AndBits(1, 1, 1);
    }
  }

  // A u16 accumulator wraps modulo 2^16.
  function Add(a: u16, b: u16): u16 { (a + b) % 0x1_0000 }

  function Sub(a: u16, b: u16): u16 { (a - b) % 0x1_0000 }

  // The sum of the first n words.
  function Sum(s: seq<u16>, n: nat): u16
    requires n <= |s|
  {
    if n == 0 then 0 else Add(Sum(s, n - 1), s[n - 1])
  }

  // The words added up without wrap, from the front.
  function Plain(s: seq<u16>): nat
    decreases |s|
  {
    if s == [] then 0 else s[0] + Plain(s[1..])
  }

  lemma {:induction false} PlainSnoc(s: seq<u16>, w: u16)
    ensures Plain(s + [w]) == Plain(s) + w
    decreases |s|
  {
    if s == [] {
      assert [w][1..] == [];
    } else {
      assert (s + [w])[1..] == s[1..] + [w];
      PlainSnoc(s[1..], w);
    }
  }

  // The accumulator that wraps at every word ends with the plain sum modulo 2^16.
  lemma {:induction false} SumIsPlain(s: seq<u16>, n: nat)
    requires n <= |s|
    ensures Sum(s, n) == Plain(s[..n]) % 0x1_0000
  {
    if n > 0 {
      SumIsPlain(s, n - 1);
      PlainSnoc(s[..n - 1], s[n - 1]);
      assert s[..n] == s[..n - 1] + [s[n - 1]];
      WrapsOnce(Plain(s[..n - 1]), s[n - 1]);
    }
  }

  lemma WrapsOnce(a: nat, w: u16)
    ensures (a % 0x1_0000 + w) % 0x1_0000 == (a + w) % 0x1_0000
  {
  }

  lemma AddSub(a: u16, b: u16)
    ensures Add(a, Sub(b, a)) == b
  {
  }

  lemma {:induction false} SumFrame(s: seq<u16>, t: seq<u16>, n: nat)
    requires n <= |s| && n <= |t| && forall k :: 0 <= k < n ==> s[k] == t[k]
    ensures Sum(s, n) == Sum(t, n)
  {
    if n > 0 {
      SumFrame(s, t, n - 1);
    }
  }

  lemma AddInjective(a: u16, x: u16, y: u16)
    ensures Add(a, x) == Add(a, y) <==> x == y
    ensures Add(x, a) == Add(y, a) <==> x == y
  {
  }

  // Replacing word k by a different one changes the sum.
  lemma {:induction false} SumReplace(s: seq<u16>, k: nat, w: u16, n: nat)
    requires k < n <= |s|
    ensures Sum(s[k := w], n) == Sum(s, n) <==> w == s[k]
  {
    var t := s[k := w];
    if n == k + 1 {
      SumFrame(s, t, k);
      AddInjective(Sum(s, k), w, s[k]);
    } else {
      SumReplace(s, k, w, n - 1);
      AddInjective(s[n - 1], Sum(t, n - 1), Sum(s, n - 1));
    }
  }
}
