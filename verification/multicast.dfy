/** The receive-address registers and the multicast hash table (e1000_mac.c, e1000_82571.c). */
module ReceiveFilter {
  import opened BitStrings
  import opened Bytes

  type Addr = a: seq<u8> | |a| == 6 witness [0, 0, 0, 0, 0, 0]

  // A table register, bit 0 first.
  type Bits32 = w: seq<bool> | |w| == 32 witness seq(32, _ => false)

  const ZERO: Addr := [0, 0, 0, 0, 0, 0]
  const RAH_AV := 0x8000_0000

  // --- Bitwise or --------------------------------------------------------------------------------------

  function OrBits(a: nat, b: nat, n: nat): nat {
    if n == 0 then 0
    else 2 * OrBits(a / 2, b / 2, n - 1) + (if a % 2 == 1 || b % 2 == 1 then 1 else 0)
  }

  function Shl(x: nat, k: nat): nat { x * Pow2(k) }

  function Shr(x: nat, k: nat): nat { if k == 0 then x else Shr(x / 2, k - 1) }

  lemma {:induction false} OrDisjoint(x: nat, y: nat, k: nat, n: nat)
    requires x < Pow2(k) && x + Shl(y, k) < Pow2(n)
    ensures OrBits(x, Shl(y, k), n) == x + Shl(y, k)
  {
    if n == 0 {
    } else if k == 0 {
      OrDisjoint(0, y / 2, 0, n - 1);
    } else {
      Twice(y, k);
      OrDisjoint(x / 2, y, k - 1, n - 1);
    }
  }

  lemma Twice(y: nat, k: nat)
    requires k > 0
    ensures Shl(y, k) == 2 * Shl(y, k - 1)
  {
  }

  lemma {:induction false} AndLowBits(v: nat, j: nat, n: nat)
    requires j <= n
    ensures AndBits(Pow2(j) - 1, v, n) == LowPart(v, j)
  {
    if j > 0 {
      AndLowBits(v / 2, j - 1, n - 1);
    } else if n > 0 {
      AndLowBits(v / 2, 0, n - 1);
    }
  }

  lemma LowPartIs(j: nat, r: nat, q: nat)
    requires r < Pow2(j)
    ensures LowPart(r + q * Pow2(j), j) == r
  {
    LowPartAdd(r, q, j);
    LowPartSmall(r, j);
  }

  // --- The hash ------------------------------------------------------------------------------------------

  predicate ValidCount(regs: nat) { regs in {8, 16, 32, 64, 128} }

  function Log(regs: nat): nat
    requires ValidCount(regs)
    ensures regs == 8 * Pow2(Log(regs))
  {
    assert Pow2(1) == 2 && Pow2(2) == 4 && Pow2(3) == 8 && Pow2(4) == 16;
    if regs == 8 then 0 else if regs == 16 then 1 else if regs == 32 then 2 else if regs == 64 then 3 else 4
  }

  // What the filter type adds to the shift.
  function Extra(filterType: nat): nat {
    if filterType == 1 then 1 else if filterType == 2 then 2 else if filterType == 3 then 4 else 0
  }

  function Upper(a: Addr): nat { Word(a[4], a[5]) }

  // Twelve bits at most of the last two bytes of the address.
  function HashOf(regs: nat, filterType: nat, a: Addr): (h: nat)
    requires ValidCount(regs)
    ensures h < 32 * regs
  {
    Shr(Upper(a), 8 - Log(regs) - Extra(filterType)) % (32 * regs)
  }

  // Register count times bits per register, less one.
  function Mask(regs: nat): nat
    requires regs > 0
  {
    32 * regs - 1
  }

  // The search for the shift ends if and only if the table has a power of two of registers, at least eight.
  lemma SearchEnds(regs: nat)
    requires 1 <= regs <= 128
    ensures (exists k: nat :: Shr(Mask(regs), k) == 0xFF) <==> ValidCount(regs)
  {
    hide Shr;
    if ValidCount(regs) {
      ShortShift(regs, Log(regs));
    }
    if k: nat :| Shr(Mask(regs), k) == 0xFF {
      if k <= 4 {
        ShortShift(regs, k);
        FirstPowers(k);
      } else {
        LongShift(regs, k);
      }
    }
  }

  lemma ShortShift(regs: nat, k: nat)
    requires regs > 0 && k <= 4
    ensures Shr(Mask(regs), k) == 0xFF <==> regs == 8 * Pow2(k)
  {
    hide Shr, Pow2;
    ShrBounds(Mask(regs), k);
    FirstPowers(k);
  }

  lemma LongShift(regs: nat, k: nat)
    requires 1 <= regs <= 128 && k >= 5
    ensures Shr(Mask(regs), k) < 0x80
  {
    hide Shr;
    ShrTwice(Mask(regs), 5, k - 5);
    ShrSmaller(Shr(Mask(regs), 5), k - 5);
    ShrBounds(Mask(regs), 5);
    FirstPowers(5);
  }

  lemma FirstPowers(k: nat)
    ensures k <= 5 ==> Pow2(k) == if k == 0 then 1 else if k == 1 then 2 else if k == 2 then 4 else if k == 3 then 8
                                  else if k == 4 then 16 else 32
  {
    assert Pow2(5) == 2 * Pow2(4) == 4 * Pow2(3);
  }

  lemma {:induction false} ShrBounds(x: nat, k: nat)
    ensures Shr(x, k) * Pow2(k) <= x < Shr(x, k) * Pow2(k) + Pow2(k)
  {
    if k > 0 {
      ShrBounds(x / 2, k - 1);
      hide Shr, Pow2;
      ShrUnfolds(x, k);
      Doubled(Shr(x, k), Pow2(k - 1));
    }
  }

  lemma ShrUnfolds(x: nat, k: nat)
    requires k > 0
    ensures Shr(x, k) == Shr(x / 2, k - 1) && Pow2(k) == 2 * Pow2(k - 1)
  {
  }

  lemma Doubled(s: nat, p: nat)
    ensures s * (2 * p) == 2 * (s * p)
  {
  }

  lemma {:induction false} ShrTwice(x: nat, j: nat, k: nat)
    ensures Shr(Shr(x, j), k) == Shr(x, j + k)
  {
    if j > 0 {
      ShrTwice(x / 2, j - 1, k);
    }
  }

  lemma {:induction false} ShrSmaller(x: nat, k: nat)
    ensures Shr(x, k) <= x
  {
    if k > 0 {
      ShrSmaller(x / 2, k - 1);
    }
  }

  // The comment on the hash gives an example for 128 registers.  Its value for filter type 2 is not what the code
  // computes.
  lemma DocumentedHashes(a: Addr)
    requires a == [0x01, 0xAA, 0x00, 0x12, 0x34, 0x56]
    ensures HashOf(128, 0, a) == 0x563 && HashOf(128, 1, a) == 0xAC6
    ensures HashOf(128, 2, a) == 0x58D != 0x163 && HashOf(128, 3, a) == 0x634
  {
    assert Pow2(1) == 2 && Pow2(2) == 4 && Pow2(3) == 8 && Pow2(4) == 16 && Pow2(0) == 1;
  }

  // --- One receive address ----------------------------------------------------------------------------------

  function LowOf(a: Addr): nat { Wide(Word(a[0], a[1]), Word(a[2], a[3])) }

  function Wide(low: nat, high: nat): nat { low + 0x1_0000 * high }

  function HighOf(a: Addr): nat {
    (if a == ZERO then 0 else RAH_AV) + Upper(a)
  }

  // The pair in numbers: bytes in little-endian order, and the valid bit unless the address is zero.
  lemma LowRegisterOf(a: Addr)
    ensures LowOf(a) == LittleEndian(a[0], a[1], a[2], a[3])
  {
    InTwos(a[0], a[1], a[2], a[3]);
  }

  lemma HighRegisterOf(a: Addr)
    ensures HighOf(a) == if a == ZERO then 0 else 0x8000_0000 + LittleEndian(a[4], a[5], 0, 0)
  {
    InTwos(a[4], a[5], 0, 0);
  }

  // By Horner's rule, from the highest byte.
  function LittleEndian(a: int, b: int, c: int, d: int): int { ((d * 0x100 + c) * 0x100 + b) * 0x100 + a }

  lemma InTwos(a: u8, b: u8, c: u8, d: u8)
    ensures Wide(Word(a, b), Word(c, d)) == LittleEndian(a, b, c, d)
    ensures c == d == 0 ==> Word(a, b) == LittleEndian(a, b, 0, 0)
  {
  }

  // Would a register pair accept this destination?
  predicate Matches(low: nat, high: nat, d: Addr) {
    low == LowOf(d) && high == RAH_AV + Upper(d)
  }

  lemma WordInjective(a: u8, b: u8, c: u8, d: u8)
    ensures Word(a, b) == Word(c, d) <==> a == c && b == d
  {
  }

  lemma WideInjective(a: u16, b: u16, c: u16, d: u16)
    ensures Wide(a, b) == Wide(c, d) <==> a == c && b == d
  {
  }

  lemma AddrInjective(a: Addr, d: Addr)
    ensures LowOf(a) == LowOf(d) && Upper(a) == Upper(d) <==> a == d
  {
    if LowOf(a) == LowOf(d) && Upper(a) == Upper(d) {
      WideInjective(Word(a[0], a[1]), Word(a[2], a[3]), Word(d[0], d[1]), Word(d[2], d[3]));
      WordInjective(a[0], a[1], d[0], d[1]);
      WordInjective(a[2], a[3], d[2], d[3]);
      WordInjective(a[4], a[5], d[4], d[5]);
      assert forall i :: 0 <= i < 6 ==> a[i] == d[i];
    }
  }

  // A pair accepts the address it was set to and no other; one set to zero accepts nothing.
  lemma MatchesExactly(a: Addr, d: Addr)
    ensures Matches(LowOf(a), HighOf(a), d) <==> a == d && a != ZERO
  {
    AddrInjective(a, d);
    assert Upper(a) < RAH_AV && Upper(d) < RAH_AV;
  }

  // --- The filter as a whole -----------------------------------------------------------------------------------

  // The address pairs.
  datatype Pairs = Pairs(low: seq<nat>, high: seq<nat>)

  predicate Pair(s: Pairs, i: nat, a: Addr)
    requires i < |s.low| == |s.high|
  {
    s.low[i] == LowOf(a) && s.high[i] == HighOf(a)
  }

  ghost predicate ExactHit(s: Pairs, d: Addr)
    requires |s.low| == |s.high|
  {
    exists i :: 0 <= i < |s.low| && Matches(s.low[i], s.high[i], d)
  }

  predicate HashHit(mta: seq<Bits32>, filterType: nat, d: Addr)
    requires ValidCount(|mta|)
  {
    mta[HashOf(|mta|, filterType, d) / 32][HashOf(|mta|, filterType, d) % 32]
  }

  // Does one of the addresses from index lo on hash to this bit?
  ghost predicate Hashed(regs: nat, filterType: nat, list: seq<Addr>, lo: nat, bit: nat)
    requires ValidCount(regs)
  {
    exists k :: lo <= k < |list| && HashOf(regs, filterType, list[k]) == bit
  }

  // How many addresses get a pair of their own.
  function Exact(list: seq<Addr>, used: nat, count: nat): nat {
    if count <= used then 0 else if |list| < count - used then |list| else count - used
  }

  function Listed(list: seq<Addr>, k: nat): Addr { if k < |list| then list[k] else ZERO }

  // The pairs from 'used' to 'count' hold the first addresses, then zeros; the others are as they were.
  ghost predicate PairsFilled(s: Pairs, was: Pairs, list: seq<Addr>, used: nat, count: nat)
    requires |s.low| == |s.high| == |was.low| == |was.high| && count <= |s.low|
  {
    forall i :: 0 <= i < |s.low| ==> PairFilled(s, was, list, used, count, i)
  }

  predicate PairFilled(s: Pairs, was: Pairs, list: seq<Addr>, used: nat, count: nat, i: nat)
    requires i < |s.low| == |s.high| == |was.low| == |was.high|
  {
    if used <= i < count then Pair(s, i, Listed(list, i - used))
    else s.low[i] == was.low[i] && s.high[i] == was.high[i]
  }

  // A table bit is set exactly when an address without a pair hashes to it.
  ghost predicate TableFilled(mta: seq<Bits32>, filterType: nat, list: seq<Addr>, lo: nat)
    requires ValidCount(|mta|)
  {
    forall r, b :: 0 <= r < |mta| && 0 <= b < 32 ==>
      (mta[r][b] <==> Hashed(|mta|, filterType, list, lo, 32 * r + b))
  }

  // The pairs accept exactly the nonzero addresses at the front of the list, and what the other pairs accept.
  lemma ExactAgrees(s: Pairs, was: Pairs, list: seq<Addr>, used: nat, count: nat, d: Addr)
    requires |s.low| == |s.high| == |was.low| == |was.high| && count <= |s.low|
    requires PairsFilled(s, was, list, used, count)
    ensures ExactHit(s, d) <==>
            || (exists i :: 0 <= i < |s.low| && !(used <= i < count) && Matches(was.low[i], was.high[i], d))
            || (d != ZERO && d in list[..Exact(list, used, count)])
  {
    var n := Exact(list, used, count);
    if i :| 0 <= i < |s.low| && Matches(s.low[i], s.high[i], d) {
      assert PairFilled(s, was, list, used, count, i);
      if used <= i < count {
        var a := Listed(list, i - used);
        assert Pair(s, i, a);
        MatchesExactly(a, d);
        assert list[..n][i - used] == a;
      }
    }
    if d != ZERO && d in list[..n] {
      var k :| 0 <= k < n && list[..n][k] == d;
      MatchesExactly(list[k], d);
      assert PairFilled(s, was, list, used, count, used + k);
      assert Matches(s.low[used + k], s.high[used + k], d);
    }
    if i :| 0 <= i < |s.low| && !(used <= i < count) && Matches(was.low[i], was.high[i], d) {
      assert PairFilled(s, was, list, used, count, i);
      assert Matches(s.low[i], s.high[i], d);
    }
  }

  // The table accepts exactly what hashes like an address that found no pair.
  lemma HashAgrees(mta: seq<Bits32>, filterType: nat, list: seq<Addr>, lo: nat, d: Addr)
    requires ValidCount(|mta|) && TableFilled(mta, filterType, list, lo)
    ensures HashHit(mta, filterType, d) <==> Hashed(|mta|, filterType, list, lo, HashOf(|mta|, filterType, d))
  {
    var h := HashOf(|mta|, filterType, d);
    assert h == 32 * (h / 32) + h % 32;
  }

  // No listed address is lost.
  lemma ListedAccepted(s: Pairs, was: Pairs, mta: seq<Bits32>, filterType: nat, list: seq<Addr>, used: nat, count: nat,
                       k: nat)
    requires |s.low| == |s.high| == |was.low| == |was.high| && count <= |s.low| && ValidCount(|mta|)
    requires PairsFilled(s, was, list, used, count) && TableFilled(mta, filterType, list, Exact(list, used, count))
    requires k < |list| && list[k] != ZERO
    ensures ExactHit(s, list[k]) || HashHit(mta, filterType, list[k])
  {
    var n := Exact(list, used, count);
    if k < n {
      assert list[..n][k] == list[k];
      ExactAgrees(s, was, list, used, count, list[k]);
    } else {
      HashAgrees(mta, filterType, list, n, list[k]);
    }
  }

  // --- The driver -------------------------------------------------------------------------------------------------

  datatype Op =
    | SetMac(addr: Addr)                                  // a locally administered address (netdev.c)
    | SetLaa(on: bool)
    | Update(list: seq<Addr>, used: nat, count: nat)
    | Init
    | Clobber(junkLow: nat, junkHigh: nat)                // the other port reloads RAR[0]

  class Filter {
    const regs: nat
    const filterType: nat
    const entries: nat
    const is82571: bool
    const ral: array<nat>
    const rah: array<nat>
    const mta: array<Bits32>
    var macAddr: Addr
    var laaPresent: bool

    constructor (regs: nat, filterType: nat, entries: nat, is82571: bool, macAddr: Addr)
      requires ValidCount(regs) && entries > 0
      ensures Valid() && fresh(ral) && fresh(rah) && fresh(mta) && !laaPresent && this.macAddr == macAddr
      ensures this.entries == entries && this.regs == regs && this.filterType == filterType && this.is82571 == is82571
    {
      this.regs, this.filterType, this.entries, this.is82571 := regs, filterType, entries, is82571;
      ral, rah, mta := new nat[entries], new nat[entries], new Bits32[regs];
      this.macAddr, laaPresent := macAddr, false;
    }

    ghost predicate Valid()
      reads this
    {
      && ValidCount(regs) && entries > 0
      && ral.Length == rah.Length == entries && mta.Length == regs && ral != rah
      && (laaPresent ==> is82571)
    }

    ghost function Now(): Pairs
      reads this, ral, rah
    {
      Pairs(ral[..], rah[..])
    }

    // e1000e_rar_set
    method RarSet(addr: Addr, index: nat)
      requires Valid() && index < entries
      modifies ral, rah
      ensures ral[..] == old(ral[..])[index := LowOf(addr)]
      ensures rah[..] == old(rah[..])[index := HighOf(addr)]
    {
      var low, high := Pack(addr);
      ral[index] := low;
      rah[index] := high;
    }

    static method Pack(addr: Addr) returns (low: nat, high: nat)
      ensures low == LowOf(addr) && high == HighOf(addr)
    {
      low := OrBits(OrBits(OrBits(addr[0], Shl(addr[1], 8), 32), Shl(addr[2], 16), 32), Shl(addr[3], 24), 32);
      high := OrBits(addr[4], Shl(addr[5], 8), 32);
      LowIsOr(addr);
      HighIsOr(addr);
      if low != 0 || high != 0 {
        high := OrBits(high, RAH_AV, 32);
      }
    }

    // e1000_hash_mc_addr_generic
    method HashMcAddr(addr: Addr) returns (h: nat)
      requires Valid()
      ensures h == HashOf(regs, filterType, addr)
    {
      hide AndBits, OrBits, Shl, Shr, Pow2, Upper;
      var bitShift := FindShift();
      if filterType == 1 {
        bitShift := bitShift + 1;
      } else if filterType == 2 {
        bitShift := bitShift + 2;
      } else if filterType == 3 {
        bitShift := bitShift + 4;
      }
      h := AndBits(Mask(regs), OrBits(Shr(addr[4], 8 - bitShift), Shl(addr[5], bitShift), 32), 32);
      LimitsOfOr();
      HashIsClosed(regs, bitShift, addr, 32);
    }

    // How far can 0xFF be shifted left inside the mask?
    method FindShift() returns (bitShift: nat)
      requires Valid()
      ensures bitShift == Log(regs)
    {
      bitShift := 0;
      MaskShifts(regs);
      while Shr(Mask(regs), bitShift) != 0xFF
        invariant bitShift <= Log(regs)
        decreases Log(regs) - bitShift
      {
        bitShift := bitShift + 1;
      }
    }

    // e1000_mta_set_generic
    method MtaSet(hash: nat)
      requires Valid() && hash < 32 * regs
      modifies mta
      ensures forall r, b :: 0 <= r < regs && 0 <= b < 32 ==> mta[r][b] == (32 * r + b == hash || old(mta[r][b]))
    {
      var reg := AndBits(regs - 1, hash / 32, 32);
      var bit := hash % 32;
      RegisterIndex(regs, hash / 32);
      mta[reg] := mta[reg][bit := true];
    }

    // e1000e_update_mc_addr_list_generic
    method UpdateMcAddrList(list: seq<Addr>, used: nat, count: nat)
      requires Valid() && count <= entries
      modifies ral, rah, mta
      ensures PairsFilled(Now(), old(Now()), list, used, count)
      ensures TableFilled(mta[..], filterType, list, Exact(list, used, count))
    {
      ghost var was := Now();
      var next := 0;
      var i := used;
      while i < count
        invariant used <= i && (i <= count || i == used)
        invariant next == Exact(list, used, i)
        invariant ral.Length == |was.low| && rah.Length == |was.high|
        invariant forall j :: 0 <= j < entries ==> PairFilled(Now(), was, list, used, i, j)
      {
        ghost var before := Now();
        assert Listed(list, i - used) == if next < |list| then list[next] else ZERO;
        if next < |list| {
          RarSet(list[next], i);
          next := next + 1;
        } else {
          RarSet(ZERO, i);
        }
        i := i + 1;
        forall j | 0 <= j < entries ensures PairFilled(Now(), was, list, used, i, j) {
          assert PairFilled(before, was, list, used, i - 1, j);
        }
      }
      ghost var filled := Now();
      forall j | 0 <= j < entries
        ensures PairFilled(filled, was, list, used, count, j)
      {
        assert PairFilled(filled, was, list, used, i, j);
      }
      assert PairsFilled(filled, was, list, used, count);
      ClearTable();
      LoadTable(list, next);
    }

    method ClearTable()
      requires Valid()
      modifies mta
      ensures forall r, b :: 0 <= r < regs && 0 <= b < 32 ==> !mta[r][b]
    {
      var i := 0;
      while i < regs
        invariant 0 <= i <= regs
        invariant forall r, b :: 0 <= r < i && 0 <= b < 32 ==> !mta[r][b]
      {
        mta[i] := seq(32, _ => false);
        i := i + 1;
      }
    }

    method LoadTable(list: seq<Addr>, first: nat)
      requires Valid() && first <= |list|
      requires forall r, b :: 0 <= r < regs && 0 <= b < 32 ==> !mta[r][b]
      modifies mta
      ensures TableFilled(mta[..], filterType, list, first)
    {
      var n := first;
      while n < |list|
        invariant first <= n <= |list|
        invariant forall r, b :: 0 <= r < regs && 0 <= b < 32 ==>
                    (mta[r][b] <==> Hashed(regs, filterType, list[..n], first, 32 * r + b))
      {
        var h := HashMcAddr(list[n]);
        HashedNext(regs, filterType, list, first, n);
        MtaSet(h);
        n := n + 1;
      }
      assert list[..n] == list;
    }

    // e1000e_init_rx_addrs
    method InitRxAddrs(count: nat)
      requires Valid() && count <= entries
      modifies ral, rah
      ensures Pair(Now(), 0, macAddr)
      ensures forall i :: 1 <= i < entries ==>
        if i < count then Pair(Now(), i, ZERO) else ral[i] == old(ral[i]) && rah[i] == old(rah[i])
    {
      RarSet(macAddr, 0);
      var i := 1;
      while i < count
        invariant 1 <= i && (i <= count || i == 1)
        invariant Pair(Now(), 0, macAddr)
        invariant forall j :: 1 <= j < entries ==>
          if j < i then Pair(Now(), j, ZERO) else ral[j] == old(ral[j]) && rah[j] == old(rah[j])
      {
        RarSet(ZERO, i);
        i := i + 1;
      }
    }

    // e1000e_set_laa_state_82571
    method SetLaaState(on: bool)
      requires Valid()
      modifies this, ral, rah
      ensures Valid() && macAddr == old(macAddr)
      ensures laaPresent == if is82571 then on else old(laaPresent)
      ensures is82571 && on ==> Pair(Now(), entries - 1, macAddr)
      ensures !(is82571 && on) ==> ral[..] == old(ral[..]) && rah[..] == old(rah[..])
      ensures forall i :: 0 <= i < entries - 1 ==> ral[i] == old(ral[i]) && rah[i] == old(rah[i])
    {
      if !is82571 {
        return;
      }
      laaPresent := on;
      if on {
        RarSet(macAddr, entries - 1);
      }
    }

    // The address is safe: while a locally administered address is in force, the last pair holds it.
    ghost predicate LaaHeld()
      requires Valid()
      reads this, ral, rah
    {
      laaPresent ==> Pair(Now(), entries - 1, macAddr)
    }

    // One pair less for the driver's own use while the last is reserved.
    function Usable(count: nat): nat
      requires count > 0
      reads this
    {
      if laaPresent then count - 1 else count
    }

    ghost predicate SamePair(was: Pairs, i: nat)
      requires Valid() && i < entries == |was.low| == |was.high|
      reads this, ral, rah
    {
      ral[i] == was.low[i] && rah[i] == was.high[i]
    }

    // What the driver does to the filter.
    method Perform(op: Op)
      requires Valid() && LaaHeld() && (op.Update? ==> 1 <= op.count <= entries)
      modifies this, ral, rah, mta
      ensures Valid() && LaaHeld()
      ensures macAddr == if op.SetMac? then op.addr else old(macAddr)
      ensures laaPresent == if is82571 && op.SetMac? then true
                            else if is82571 && op.SetLaa? then op.on else old(laaPresent)
      ensures op.SetMac? || op.Init? ==> Pair(Now(), 0, macAddr)
      ensures op.Update? ==>
                // Only a locally administered address keeps the last pair from being filled.
                && var count := if laaPresent then op.count - 1 else op.count;
                && PairsFilled(Now(), old(Now()), op.list, op.used, count)
                && TableFilled(mta[..], filterType, op.list, Exact(op.list, op.used, count))
      ensures op.Init? ==> forall i :: 1 <= i < entries ==>
        if laaPresent && i == entries - 1 then SamePair(old(Now()), i) else Pair(Now(), i, ZERO)
      ensures op.Init? ==> forall r, b :: 0 <= r < regs && 0 <= b < 32 ==> !mta[r][b]
      ensures op.SetMac? ==> forall i :: 1 <= i < entries && !(is82571 && i == entries - 1) ==> SamePair(old(Now()), i)
      ensures op.SetLaa? ==> forall i :: 0 <= i < entries && !(is82571 && op.on && i == entries - 1) ==>
        SamePair(old(Now()), i)
      ensures op.Clobber? ==> forall i :: (if entries > 1 then 1 else 0) <= i < entries ==> SamePair(old(Now()), i)
      ensures op.Clobber? && entries > 1 ==> ral[0] == op.junkLow && rah[0] == op.junkHigh
      ensures !op.Update? && !op.Init? ==> mta[..] == old(mta[..])
    {
      match op
      case SetMac(addr) =>
        macAddr := addr;
        RarSet(macAddr, 0);
        if is82571 {
          SetLaaState(true);
        }
      case SetLaa(on) =>
        SetLaaState(on);
      case Update(list, used, count) =>
        // e1000_update_mc_addr_list_82571
        var rarCount := Usable(count);
        ghost var was := Now();
        UpdateMcAddrList(list, used, rarCount);
        assert PairFilled(Now(), was, list, used, rarCount, entries - 1);
      case Init =>
        // e1000_init_hw_82571, the part on addresses
        var rarCount := Usable(entries);
        InitRxAddrs(rarCount);
        ClearTable();
      case Clobber(low, high) =>
        if entries > 1 {
          ral[0], rah[0] := low, high;
        }
    }

    // Over any run, resets of the other port included, a locally administered address is never lost: some pair
    // accepts it at every point.
    method Run(ops: seq<Op>)
      requires Valid() && LaaHeld() && forall op :: op in ops && op.Update? ==> 1 <= op.count <= entries
      modifies this, ral, rah, mta
      ensures Valid() && LaaHeld()
      ensures laaPresent && macAddr != ZERO ==> ExactHit(Now(), macAddr)
    {
      var i := 0;
      while i < |ops|
        invariant 0 <= i <= |ops| && Valid() && LaaHeld()
      {
        assert ops[i] in ops;
        Perform(ops[i]);
        i := i + 1;
      }
      MatchesExactly(macAddr, macAddr);
    }
  }

  // --- Arithmetic of the code ---------------------------------------------------------------------------------------

  lemma Powers()
    ensures Pow2(0) == 1 && Pow2(1) == 2 && Pow2(2) == 4 && Pow2(3) == 8 && Pow2(4) == 16 && Pow2(5) == 32
    ensures Pow2(6) == 64 && Pow2(7) == 128 && Pow2(8) == 0x100 && Pow2(16) == 0x1_0000 && Pow2(24) == 0x100_0000
    ensures Pow2(31) == RAH_AV && Pow2(32) == 0x1_0000_0000
  {
    assert Pow2(8) == 0x100;
    assert Pow2(16) == 0x1_0000;
    assert Pow2(24) == 0x100_0000;
  }

  lemma Shifted(x: nat)
    ensures Shl(x, 8) == 0x100 * x && Shl(x, 16) == 0x1_0000 * x && Shl(x, 24) == 0x100_0000 * x
    ensures Shl(x, 31) == RAH_AV * x
  {
    Powers();
  }

  lemma LowIsOr(a: Addr)
    ensures OrBits(OrBits(OrBits(a[0], Shl(a[1], 8), 32), Shl(a[2], 16), 32), Shl(a[3], 24), 32) == LowOf(a)
    ensures LowOf(a) == 0 <==> a[..4] == [0, 0, 0, 0]
  {
    hide OrBits, Pow2, Shl;
    LimitsOfOr();
    Shifted(a[1]);
    Shifted(a[2]);
    Shifted(a[3]);
    var x := Word(a[0], a[1]);
    var y := Wide(x, a[2]);
    OrDisjoint(a[0], a[1], 8, 32);
    OrDisjoint(x, a[2], 16, 32);
    OrDisjoint(y, a[3], 24, 32);
  }

  lemma LimitsOfOr()
    ensures Pow2(8) == 0x100 && Pow2(16) == 0x1_0000 && Pow2(24) == 0x100_0000
    ensures Pow2(31) == RAH_AV && Pow2(32) == 0x1_0000_0000
  {
    Powers();
  }

  lemma HighIsOr(a: Addr)
    ensures OrBits(a[4], Shl(a[5], 8), 32) == Upper(a)
    ensures OrBits(Upper(a), RAH_AV, 32) == RAH_AV + Upper(a)
    ensures Upper(a) == 0 <==> a[4] == a[5] == 0
  {
    LimitsOfOr();
    Shifted(a[5]);
    Shifted(1);
    OrDisjoint(a[4], a[5], 8, 32);
    OrDisjoint(Upper(a), 1, 31, 32);
  }

  lemma MaskShifts(regs: nat)
    requires ValidCount(regs)
    ensures Shr(Mask(regs), Log(regs)) == 0xFF
    ensures forall j :: 0 <= j < Log(regs) ==> Shr(Mask(regs), j) != 0xFF
  {
    Powers();
  }

  // The code's shifts, or and mask are a division and a remainder; n is the width of a word.
  lemma HashIsClosed(regs: nat, shift: nat, a: Addr, n: nat)
    requires ValidCount(regs) && shift <= 8 && n >= 12 && Pow2(n) > 0x1_0000
    ensures AndBits(Mask(regs), OrBits(Shr(a[4], 8 - shift), Shl(a[5], shift), n), n)
         == Shr(Upper(a), 8 - shift) % (32 * regs)
  {
    SplitByte(a[4], a[5], shift);
    OrDisjoint(Shr(a[4], 8 - shift), a[5], shift, n);
    MaskIsMod(regs, Shr(Upper(a), 8 - shift), n);
  }

  lemma MaskIsMod(regs: nat, v: nat, n: nat)
    requires ValidCount(regs) && n >= 12
    ensures AndBits(Mask(regs), v, n) == v % (32 * regs)
  {
    hide AndBits, Pow2;
    MaskPowers();
    if regs == 8 {
      MaskIs(8, n, v % 0x100, v / 0x100);
    } else if regs == 16 {
      MaskIs(9, n, v % 0x200, v / 0x200);
    } else if regs == 32 {
      MaskIs(10, n, v % 0x400, v / 0x400);
    } else if regs == 64 {
      MaskIs(11, n, v % 0x800, v / 0x800);
    } else {
      MaskIs(12, n, v % 0x1000, v / 0x1000);
    }
  }

  lemma MaskPowers()
    ensures Pow2(8) == 0x100 && Pow2(9) == 0x200 && Pow2(10) == 0x400 && Pow2(11) == 0x800 && Pow2(12) == 0x1000
  {
  }

  lemma MaskIs(k: nat, n: nat, r: nat, q: nat)
    requires k <= n && r < Pow2(k)
    ensures AndBits(Pow2(k) - 1, r + q * Pow2(k), n) == r
  {
    AndLowBits(r + q * Pow2(k), k, n);
    LowPartIs(k, r, q);
  }

  // Shifting the two bytes right by what is left of eight is shifting them apart.
  lemma SplitByte(lo: u8, hi: u8, shift: nat)
    requires shift <= 8
    ensures Shr(Word(lo, hi), 8 - shift) == Shr(lo, 8 - shift) + Shl(hi, shift)
    ensures Shr(lo, 8 - shift) < Pow2(shift) && Shr(lo, 8 - shift) + Shl(hi, shift) <= 0x1_0000
  {
    assert Pow2(8) == 0x100;
    assert Word(lo, hi) == lo + Shl(hi, 8);
    ShiftApart(lo, hi, 8 - shift, 8);
    ShrSmaller(Word(lo, hi), 8 - shift);
  }

  lemma {:induction false} ShiftApart(lo: nat, hi: nat, k: nat, j: nat)
    requires k <= j && lo < Pow2(j)
    ensures Shr(lo + Shl(hi, j), k) == Shr(lo, k) + Shl(hi, j - k)
    ensures Shr(lo, k) < Pow2(j - k)
  {
    if k > 0 {
      Twice(hi, j);
      ShiftApart(lo / 2, hi, k - 1, j - 1);
    }
  }

  lemma RegisterIndex(regs: nat, r: nat)
    requires ValidCount(regs) && r < regs
    ensures AndBits(regs - 1, r, 32) == r
  {
    var k := Log(regs);
    assert Pow2(k + 1) == 2 * Pow2(k);
    assert Pow2(k + 2) == 2 * Pow2(k + 1);
    assert Pow2(k + 3) == 2 * Pow2(k + 2);
    AndLowBits(r, Log(regs) + 3, 32);
    LowPartSmall(r, Log(regs) + 3);
  }

  lemma HashedNext(regs: nat, filterType: nat, list: seq<Addr>, lo: nat, n: nat)
    requires ValidCount(regs) && lo <= n < |list|
    ensures forall bit :: Hashed(regs, filterType, list[..n + 1], lo, bit) <==>
              Hashed(regs, filterType, list[..n], lo, bit) || HashOf(regs, filterType, list[n]) == bit
  {
    var s, t := list[..n], list[..n + 1];
    forall bit
      ensures Hashed(regs, filterType, t, lo, bit) <==>
                Hashed(regs, filterType, s, lo, bit) || HashOf(regs, filterType, list[n]) == bit
    {
      if k :| lo <= k < |t| && HashOf(regs, filterType, t[k]) == bit {
        assert k < n ==> s[k] == t[k];
      }
      if k :| lo <= k < |s| && HashOf(regs, filterType, s[k]) == bit {
        assert t[k] == s[k];
      }
      assert t[n] == list[n];
    }
  }
}
