/** The SPI EEPROM behind the EECD register and the bit-banged writer that drives it (e1000_nvm.c).

    The part shifts in a bit on every rising clock while it is selected (chip select low), and acts on what
    it has received when it is deselected: WREN sets the write latch, WRITE with the latch set programs the
    data bytes, wrapping inside one page.  After a WRITE it is busy for a number of status reads that the
    constant 'busyTime' decides, and ignores everything but status reads meanwhile. */
module Spi {
  import opened Bytes
  import opened BitStrings

  const WREN_OPCODE := 0x06
  const WRITE_OPCODE := 0x02
  const A8_OPCODE := 0x08
  const RDSR_OPCODE := 0x05
  const OPCODE_BITS := 8
  const MAX_RETRY := 5000
  const GRANT_ATTEMPTS := 1000

  // A word swapped for the wire is its low byte followed by its high byte.
  function Swapped(w: u16): u16 { Hi(w) + 0x100 * Lo(w) }

  lemma {:induction false} BitsJoin(a: nat, b: nat, k: nat, n: nat)
    requires b < Pow2(n)
    ensures Bits(b + a * Pow2(n), k + n) == Bits(a, k) + Bits(b, n)
  {
    if n > 0 {
      Halve(a, b, n);
      BitsSnoc(b + a * Pow2(n), k + n);
      BitsSnoc(b, n);
      BitsJoin(a, b / 2, k, n - 1);
    }
  }

  lemma SwappedBits(w: u16)
    ensures Bits(Swapped(w), 16) == Bits(Lo(w), 8) + Bits(Hi(w), 8)
  {
    assert Pow2(8) == 0x100;
    BitsJoin(Lo(w), Hi(w), 8, 8);
  }

  // --- The part, with the opcodes of its own data sheet ----------------------------------------------

  type Mem = seq<u8>

  function Put(m: Mem, a: nat, b: u8): (r: Mem)
    ensures |r| == |m|
  {
    if a < |m| then m[a := b] else m
  }

  // The whole bytes in a bit stream.
  function BytesIn(b: seq<bool>): seq<u8> {
    if |b| < 8 then [] else BytesIn(b[..|b| - 8]) + [FromByte(b[|b| - 8..])]
  }

  function FromByte(b: seq<bool>): u8
    requires |b| == 8
  {
    assert Pow2(8) == 0x100;
    FromBits(b)
  }

  // Address bits in a command, and bytes in a page.
  datatype Part = Part(addressBits: nat, pageSize: nat)

  predicate Supported(p: Part) {
    (p.addressBits == 8 || p.addressBits == 16) && (p.pageSize == 8 || p.pageSize == 32)
  }

  // The parts that the drivers select: large ones and small ones.
  lemma SelectedParts(large: bool)
    ensures Supported(Part(if large then 16 else 8, if large then 32 else 8))
  {
  }

  function PageOffset(p: Part, a: nat): (r: nat)
    requires Supported(p)
    ensures r <= a && r < p.pageSize
  {
    if p.pageSize == 8 then a % 8 else a % 32
  }

  // The i-th address from a on, wrapping inside the page of a.
  function InPage(p: Part, a: nat, i: nat): nat
    requires Supported(p)
  {
    a - PageOffset(p, a) + PageOffset(p, PageOffset(p, a) + i)
  }

  // Programs 'data' from address a on.
  function PageWrite(m: Mem, p: Part, a: nat, data: seq<u8>): (r: Mem)
    requires Supported(p)
    ensures |r| == |m|
  {
    if data == [] then m
    else Put(PageWrite(m, p, a, data[..|data| - 1]), InPage(p, a, |data| - 1), data[|data| - 1])
  }

  // 'busy' counts the status reads the part will still answer with "not ready".
  datatype Chip = Chip(mem: Mem, wel: bool, busy: nat)

  function Opcode(rx: seq<bool>): nat
    requires |rx| >= 8
  {
    FromBits(rx[..8])
  }

  predicate IsWrite(p: Part, rx: seq<bool>) {
    && |rx| >= 16 + p.addressBits
    && (|rx| - p.addressBits) % 8 == 0
    && (Opcode(rx) == 0x02 || (p.addressBits == 8 && Opcode(rx) == 0x0A))
  }

  function WriteAddress(p: Part, rx: seq<bool>): nat
    requires IsWrite(p, rx)
  {
    FromBits(rx[8..8 + p.addressBits]) + (if Opcode(rx) == 0x02 then 0 else 0x100)
  }

  // The status register, most significant bit first: bit 1 is the write latch, bit 0 "not ready".
  predicate StatusBit(c: Chip, i: nat) {
    (i == 6 && c.wel) || (i == 7 && c.busy > 0)
  }

  // The data-out pin after a rising clock: the status register over and over, once its opcode is in.
  predicate DataOut(c: Chip, rx: seq<bool>) {
    |rx| > 8 && Opcode(rx) == 0x05 && StatusBit(c, (|rx| - 9) % 8)
  }

  // What the pin has shown since the part had received 'first' bits.
  function PinBits(c: Chip, rx: seq<bool>, first: nat): (b: seq<bool>)
    ensures |b| == if |rx| <= first then 0 else |rx| - first
  {
    if |rx| <= first then [] else PinBits(c, rx[..|rx| - 1], first) + [DataOut(c, rx)]
  }

  function Status(c: Chip): nat {
    (if c.wel then 2 else 0) + (if c.busy > 0 then 1 else 0)
  }

  // What deselection does with the bits received.  A WRITE keeps the part busy for 'time' status reads.
  function Latch(p: Part, c: Chip, rx: seq<bool>, time: nat): (r: Chip)
    requires Supported(p)
    ensures |r.mem| == |c.mem|
  {
    if c.busy > 0 then
      if |rx| >= 16 && Opcode(rx) == 0x05 then c.(busy := c.busy - 1) else c
    else if |rx| == 8 && Opcode(rx) == 0x06 then c.(wel := true)
    else if c.wel && IsWrite(p, rx) then
      Chip(PageWrite(c.mem, p, WriteAddress(p, rx), BytesIn(rx[8 + p.addressBits..])), false, time)
    else c
  }

  // --- What the writer is for -----------------------------------------------------------------------

  // Where the driver's command puts word i of a write that starts at word 'offset': A8 comes from 'offset',
  // not from the word.
  function Target(addressBits: nat, offset: nat, i: nat): nat { AddressOf(addressBits, offset, 2 * (offset + i)) }

  // What the part makes of the byte address x in a command whose A8 comes from 'offset'.
  function AddressOf(addressBits: nat, offset: nat, x: nat): nat {
    if addressBits == 8 then x % 0x100 + (if offset >= 128 then 0x100 else 0) else x % 0x1_0000
  }

  // Memory after the first n words, each little-endian at its target.
  function Written(m: Mem, addressBits: nat, offset: nat, data: seq<u16>, n: nat): (r: Mem)
    requires n <= |data|
    ensures |r| == |m|
  {
    if n == 0 then m
    else
      var t := Target(addressBits, offset, n - 1);
      Put(Put(Written(m, addressBits, offset, data, n - 1), t, Lo(data[n - 1])), t + 1, Hi(data[n - 1]))
  }

  // The bytes of words 'begin' up to 'end'.
  function BurstBytes(data: seq<u16>, begin: nat, end: nat): (r: seq<u8>)
    requires begin <= end <= |data|
    ensures |r| == 2 * (end - begin)
    decreases end
  {
    if end == begin then [] else BurstBytes(data, begin, end - 1) + [Lo(data[end - 1]), Hi(data[end - 1])]
  }

  function BurstBits(data: seq<u16>, begin: nat, end: nat): (r: seq<bool>)
    requires begin <= end <= |data|
    ensures |r| == 16 * (end - begin)
    decreases end
  {
    if end == begin then [] else BurstBits(data, begin, end - 1) + Bits(Swapped(data[end - 1]), 16)
  }

  lemma {:induction false} BytesInSnoc(b: seq<bool>, x: u8)
    ensures BytesIn(b + Bits(x, 8)) == BytesIn(b) + [x]
  {
    var c := b + Bits(x, 8);
    assert c[..|c| - 8] == b && c[|c| - 8..] == Bits(x, 8);
    RoundTripBits(x, 8);
    assert Pow2(8) == 0x100;
    LowPartSmall(x, 8);
  }

  lemma {:induction false} WordArrives(b: seq<bool>, w: u16)
    ensures BytesIn(b + Bits(Swapped(w), 16)) == BytesIn(b) + [Lo(w), Hi(w)]
  {
    var lo, hi := Bits(Lo(w), 8), Bits(Hi(w), 8);
    SwappedBits(w);
    assert b + Bits(Swapped(w), 16) == (b + lo) + hi;
    BytesInSnoc(b, Lo(w));
    BytesInSnoc(b + lo, Hi(w));
    assert BytesIn(b) + [Lo(w)] + [Hi(w)] == BytesIn(b) + [Lo(w), Hi(w)];
  }

  lemma {:induction false} BurstArrives(data: seq<u16>, begin: nat, end: nat)
    requires begin <= end <= |data|
    ensures BytesIn(BurstBits(data, begin, end)) == BurstBytes(data, begin, end)
    decreases end
  {
    if end > begin {
      hide Bits, BytesIn, Swapped, BurstBits, BurstBytes;
      BurstArrives(data, begin, end - 1);
      BurstGrows(data, begin, end);
      WordArrives(BurstBits(data, begin, end - 1), data[end - 1]);
    }
  }

  lemma BurstGrows(data: seq<u16>, begin: nat, end: nat)
    requires begin < end <= |data|
    ensures BurstBits(data, begin, end) == BurstBits(data, begin, end - 1) + Bits(Swapped(data[end - 1]), 16)
    ensures BurstBytes(data, begin, end) == BurstBytes(data, begin, end - 1) + [Lo(data[end - 1]), Hi(data[end - 1])]
  {
  }

  // A burst that stays inside its page lands word by word on the words' targets.
  lemma {:induction false} BurstLands(m: Mem, p: Part, offset: nat, data: seq<u16>, begin: nat, end: nat)
    requires Supported(p) && begin <= end <= |data|
    requires PageOffset(p, 2 * (offset + begin)) + 2 * (end - begin) <= p.pageSize
    ensures PageWrite(Written(m, p.addressBits, offset, data, begin), p, Target(p.addressBits, offset, begin),
                      BurstBytes(data, begin, end))
         == Written(m, p.addressBits, offset, data, end)
    decreases end
  {
    hide Target, InPage, Written, PageOffset;
    if end > begin {
      BurstLands(m, p, offset, data, begin, end - 1);
      SamePage(p, offset, begin, end - 1);
      OneMoreWord(Written(m, p.addressBits, offset, data, begin), m, p, offset, data, begin, end,
                  Target(p.addressBits, offset, begin));
    }
  }

  lemma {:induction false} OneMoreWord(m0: Mem, m: Mem, p: Part, offset: nat, data: seq<u16>, begin: nat, end: nat,
                                       a: nat)
    requires Supported(p) && begin < end <= |data|
    requires PageWrite(m0, p, a, BurstBytes(data, begin, end - 1)) == Written(m, p.addressBits, offset, data, end - 1)
    requires InPage(p, a, 2 * (end - 1 - begin)) == Target(p.addressBits, offset, end - 1)
    requires InPage(p, a, 2 * (end - 1 - begin) + 1) == Target(p.addressBits, offset, end - 1) + 1
    ensures PageWrite(m0, p, a, BurstBytes(data, begin, end)) == Written(m, p.addressBits, offset, data, end)
  {
    TwoMore(m0, p, a, BurstBytes(data, begin, end - 1), Lo(data[end - 1]), Hi(data[end - 1]));
  }

  lemma {:induction false} TwoMore(m: Mem, p: Part, a: nat, b: seq<u8>, lo: u8, hi: u8)
    requires Supported(p)
    ensures PageWrite(m, p, a, b + [lo, hi])
         == Put(Put(PageWrite(m, p, a, b), InPage(p, a, |b|), lo), InPage(p, a, |b| + 1), hi)
  {
    assert (b + [lo, hi])[..|b| + 1] == b + [lo] && (b + [lo])[..|b|] == b;
  }

  // Inside a page addresses run on without a wrap, of the page or of the address field.
  lemma SamePage(p: Part, offset: nat, begin: nat, i: nat)
    requires Supported(p) && begin <= i
    requires PageOffset(p, 2 * (offset + begin)) + 2 * (i - begin) + 2 <= p.pageSize
    ensures InPage(p, Target(p.addressBits, offset, begin), 2 * (i - begin)) == Target(p.addressBits, offset, i)
    ensures InPage(p, Target(p.addressBits, offset, begin), 2 * (i - begin) + 1) == Target(p.addressBits, offset, i) + 1
  {
    hide InPage, PageOffset, AddressOf;
    var a, n := Target(p.addressBits, offset, begin), 2 * (i - begin);
    assert 2 * (offset + i) == 2 * (offset + begin) + n;
    TargetRuns(p, offset, 2 * (offset + begin), n);
    StaysInPage(p, a, n);
    StaysInPage(p, a, n + 1);
  }

  lemma TargetRuns(p: Part, offset: nat, x: nat, n: nat)
    requires Supported(p) && PageOffset(p, x) + n < p.pageSize
    ensures PageOffset(p, AddressOf(p.addressBits, offset, x)) == PageOffset(p, x)
    ensures AddressOf(p.addressBits, offset, x + n) == AddressOf(p.addressBits, offset, x) + n
  {
    if p.pageSize == 8 {
      NoCarry8(x, n);
    } else {
      NoCarry32(x, n);
    }
  }

  lemma StaysInPage(p: Part, a: nat, k: nat)
    requires Supported(p) && PageOffset(p, a) + k < p.pageSize
    ensures InPage(p, a, k) == a + k
  {
    var r := PageOffset(p, a) + k;
    if p.pageSize == 8 {
      Mod8(r, 0, r);
    } else {
      Mod32(r, 0, r);
    }
  }

  lemma NoCarry8(x: nat, n: nat)
    requires x % 8 + n < 8
    ensures x % 0x100 % 8 == x % 8 && (x % 0x100 + 0x100) % 8 == x % 8 && x % 0x1_0000 % 8 == x % 8
    ensures (x + n) % 0x100 == x % 0x100 + n && (x + n) % 0x1_0000 == x % 0x1_0000 + n
  {
    NoCarry8Narrow(x, n);
    NoCarry8Wide(x, n);
  }

  lemma NoCarry8Narrow(x: nat, n: nat)
    requires x % 8 + n < 8
    ensures x % 0x100 % 8 == x % 8 && (x % 0x100 + 0x100) % 8 == x % 8 && (x + n) % 0x100 == x % 0x100 + n
  {
    var r := x % 0x100;
    Mod8(x, 32 * (x / 0x100) + r / 8, r % 8);
    Mod8(r + 0x100, 32 + r / 8, r % 8);
    Mod256(x + n, x / 0x100, r + n);
  }

  lemma NoCarry8Wide(x: nat, n: nat)
    requires x % 8 + n < 8
    ensures x % 0x1_0000 % 8 == x % 8 && (x + n) % 0x1_0000 == x % 0x1_0000 + n
  {
    var r := x % 0x1_0000;
    Mod8(x, 8192 * (x / 0x1_0000) + r / 8, r % 8);
    Mod64K(x + n, x / 0x1_0000, r + n);
  }

  lemma NoCarry32(x: nat, n: nat)
    requires x % 32 + n < 32
    ensures x % 0x100 % 32 == x % 32 && (x % 0x100 + 0x100) % 32 == x % 32 && x % 0x1_0000 % 32 == x % 32
    ensures (x + n) % 0x100 == x % 0x100 + n && (x + n) % 0x1_0000 == x % 0x1_0000 + n
  {
    NoCarry32Narrow(x, n);
    NoCarry32Wide(x, n);
  }

  lemma NoCarry32Narrow(x: nat, n: nat)
    requires x % 32 + n < 32
    ensures x % 0x100 % 32 == x % 32 && (x % 0x100 + 0x100) % 32 == x % 32 && (x + n) % 0x100 == x % 0x100 + n
  {
    var r := x % 0x100;
    Mod32(x, 8 * (x / 0x100) + r / 32, r % 32);
    Mod32(r + 0x100, 8 + r / 32, r % 32);
    Mod256(x + n, x / 0x100, r + n);
  }

  lemma NoCarry32Wide(x: nat, n: nat)
    requires x % 32 + n < 32
    ensures x % 0x1_0000 % 32 == x % 32 && (x + n) % 0x1_0000 == x % 0x1_0000 + n
  {
    var r := x % 0x1_0000;
    Mod32(x, 2048 * (x / 0x1_0000) + r / 32, r % 32);
    Mod64K(x + n, x / 0x1_0000, r + n);
  }

  lemma Mod8(x: nat, k: nat, v: nat)
    requires x == 8 * k + v && v < 8
    ensures x % 8 == v
  {
  }

  lemma Mod32(x: nat, k: nat, v: nat)
    requires x == 32 * k + v && v < 32
    ensures x % 32 == v
  {
  }

  lemma Mod256(x: nat, k: nat, v: nat)
    requires x == 0x100 * k + v && v < 0x100
    ensures x % 0x100 == v
  {
  }

  lemma Mod64K(x: nat, k: nat, v: nat)
    requires x == 0x1_0000 * k + v && v < 0x1_0000
    ensures x % 0x1_0000 == v
  {
  }

  // --- What the part makes of the driver's commands ---------------------------------------------------

  // The part's memory changes only by a WRITE while its latch is set, and its latch is set only by WREN.
  lemma NothingElse(p: Part, c: Chip, rx: seq<bool>, time: nat)
    requires Supported(p)
    ensures var c' := Latch(p, c, rx, time);
      && (c'.mem != c.mem ==> c.wel && c.busy == 0 && |rx| >= 24 && FromBits(rx[..8]) in {0x02, 0x0A})
      && (c'.wel && !c.wel ==> |rx| == 8 && FromBits(rx) == 0x06)
  {
    if |rx| == 8 {
      assert rx[..8] == rx;
    }
  }

  lemma OpcodeArrives(op: nat, rest: seq<bool>)
    requires op < 0x100
    ensures Opcode(Bits(op, 8) + rest) == op
  {
    assert (Bits(op, 8) + rest)[..8] == Bits(op, 8);
    assert Pow2(8) == 0x100;
    RoundTripBits(op, 8);
    LowPartSmall(op, 8);
  }

  lemma WrenLatches(p: Part, c: Chip, time: nat)
    requires Supported(p) && c.busy == 0
    ensures Latch(p, c, Bits(WREN_OPCODE, 8), time) == c.(wel := true)
  {
    OpcodeArrives(WREN_OPCODE, []);
    assert Bits(WREN_OPCODE, 8) + [] == Bits(WREN_OPCODE, 8);
  }

  // A status read costs the part one of the reads it stays busy for, and nothing else.
  lemma StatusLatches(p: Part, c: Chip, rx: seq<bool>, time: nat)
    requires Supported(p) && Bits(RDSR_OPCODE, 8) <= rx && |rx| == 16
    ensures Latch(p, c, rx, time) == c.(busy := if c.busy > 0 then c.busy - 1 else 0)
  {
    OpcodeArrives(RDSR_OPCODE, rx[8..]);
    assert Bits(RDSR_OPCODE, 8) + rx[8..] == rx;
  }

  function WriteOpcode(p: Part, offset: nat): nat {
    if p.addressBits == 8 && offset >= 128 then WRITE_OPCODE + A8_OPCODE else WRITE_OPCODE
  }

  lemma AddressArrives(p: Part, x: nat)
    requires Supported(p)
    ensures FromBits(Bits(x, p.addressBits)) == if p.addressBits == 8 then x % 0x100 else x % 0x1_0000
  {
    RoundTripBits(x, p.addressBits);
    if p.addressBits == 8 {
      LowPartByte(x);
    } else {
      LowPartWord(x);
    }
  }

  lemma Pow2Of16()
    ensures Pow2(16) == 0x1_0000
  {
    assert Pow2(8) == 0x100;
    assert Pow2(10) == 0x400;
    assert Pow2(12) == 0x1000;
    assert Pow2(14) == 0x4000;
  }

  lemma LowPartWord(d: nat)
    ensures LowPart(d, 16) == d % 0x1_0000
  {
    Pow2Of16();
    LowPartAdd(d % 0x1_0000, d / 0x1_0000, 16);
    LowPartSmall(d % 0x1_0000, 16);
  }

  function WriteCommand(p: Part, offset: nat, x: nat, burst: seq<bool>): seq<bool> {
    Bits(WriteOpcode(p, offset), 8) + Bits(x, p.addressBits) + burst
  }

  lemma NoBurst(p: Part, offset: nat, x: nat)
    ensures Bits(WriteOpcode(p, offset), 8) + Bits(x, p.addressBits) == WriteCommand(p, offset, x, [])
  {
  }

  // A WRITE programs its bytes and clears the latch.
  lemma WriteProgram(p: Part, c: Chip, offset: nat, x: nat, burst: seq<bool>, time: nat)
    requires Supported(p) && |burst| >= 8 && |burst| % 8 == 0 && c.busy == 0 && c.wel
    ensures Latch(p, c, WriteCommand(p, offset, x, burst), time)
         == Chip(PageWrite(c.mem, p, AddressOf(p.addressBits, offset, x), BytesIn(burst)), false, time)
  {
    WriteDecodes(p, offset, x, burst);
  }

  lemma WriteDecodes(p: Part, offset: nat, x: nat, burst: seq<bool>)
    requires Supported(p) && |burst| >= 8 && |burst| % 8 == 0
    ensures var rx := WriteCommand(p, offset, x, burst);
      && IsWrite(p, rx) && rx[8 + p.addressBits..] == burst
      && WriteAddress(p, rx) == AddressOf(p.addressBits, offset, x)
  {
    hide Bits, FromBits;
    var op, addr := WriteOpcode(p, offset), Bits(x, p.addressBits);
    var rx := WriteCommand(p, offset, x, burst);
    assert rx == Bits(op, 8) + (addr + burst);
    OpcodeArrives(op, addr + burst);
    AddressArrives(p, x);
    assert rx[8..8 + p.addressBits] == addr && rx[8 + p.addressBits..] == burst;
  }

  lemma {:induction false} WriteLatches(m: Mem, p: Part, c: Chip, offset: nat, data: seq<u16>, begin: nat, end: nat,
                                        time: nat)
    requires Supported(p) && begin < end <= |data| && c.busy == 0 && c.wel
    requires c.mem == Written(m, p.addressBits, offset, data, begin)
    requires PageOffset(p, 2 * (offset + begin)) + 2 * (end - begin) <= p.pageSize
    ensures Latch(p, c, WriteCommand(p, offset, 2 * (offset + begin), BurstBits(data, begin, end)), time)
         == Chip(Written(m, p.addressBits, offset, data, end), false, time)
  {
    hide Latch, PageWrite, Written, BytesIn, BurstBits, BurstBytes, WriteCommand, AddressOf, PageOffset;
    WriteProgram(p, c, offset, 2 * (offset + begin), BurstBits(data, begin, end), time);
    BurstArrives(data, begin, end);
    BurstLands(m, p, offset, data, begin, end);
  }

  // --- The driver ---------------------------------------------------------------------------------

  class Port {
    const part: Part
    const wordSize: nat
    // How long the part stays busy after a write that is its k-th command, and whether the k-th look at EECD shows
    // the grant.
    const busyTime: nat -> nat
    const granted: nat -> bool

    // EECD as written, and the part behind it.
    var sk: bool
    var cs: bool
    var di: bool
    var req: bool
    var looks: nat
    var rx: seq<bool>
    var chip: Chip
    var commands: nat

    ghost predicate Valid()
      reads this
    {
      Supported(part) && (cs ==> rx == [])
    }

    // What the part would hold if it were deselected now.
    ghost function IfDeselected(): Chip
      reads this
      requires Valid()
    {
      if cs then chip else Latch(part, chip, rx, busyTime(commands))
    }

    // Between commands: deselected, or selected with nothing received.
    ghost predicate AtRest()
      reads this
    {
      rx == []
    }

    // The part never stays busy for long and access is granted at once.
    ghost predicate Prompt()
      reads this
    {
      chip.busy < 5000 && (forall k :: busyTime(k) < 5000) && (forall k :: granted(k))
    }

    // A write of EECD's serial pins.
    method SetPins(sk': bool, cs': bool, di': bool)
      requires Valid()
      modifies this`sk, this`cs, this`di, this`rx, this`chip, this`commands
      ensures Valid() && sk == sk' && cs == cs' && di == di'
      ensures !old(cs) && cs' ==> rx == [] && chip == Latch(part, old(chip), old(rx), busyTime(old(commands)))
      ensures !old(cs) && cs' ==> Prompt() || !old(Prompt())
      ensures old(cs) && !cs' ==> rx == [] && chip == old(chip)
      ensures old(cs) && cs' ==> rx == old(rx) && chip == old(chip)
      ensures !old(cs) && !cs' ==>
        chip == old(chip) && commands == old(commands) && rx == if !old(sk) && sk' then old(rx) + [di'] else old(rx)
    {
      if !cs && cs' {
        var c := Latch(part, chip, rx, busyTime(commands));
        commands := commands + 1;
        chip, rx := c, [];
      } else if cs != cs' {
        rx := [];
      } else if !cs && !sk && sk' {
        rx := rx + [di'];
      }
      sk, cs, di := sk', cs', di';
    }

    // One bit, raised and lowered with the clock.
    method ClockOut(bit: bool)
      requires Valid() && !cs && !sk
      modifies this`sk, this`cs, this`di, this`rx, this`chip, this`commands
      ensures Valid() && !cs && !sk && chip == old(chip) && commands == old(commands) && rx == old(rx) + [bit]
    {
      SetPins(sk, cs, bit);
      SetPins(true, cs, bit);
      SetPins(false, cs, bit);
    }

    // e1000_shift_out_eec_bits
    method ShiftOut(data: nat, count: nat)
      requires Valid() && !cs && !sk && 1 <= count <= 16
      modifies this`sk, this`cs, this`di, this`rx, this`chip, this`commands
      ensures Valid() && !cs && !sk && chip == old(chip) && commands == old(commands)
      ensures rx == old(rx) + Bits(data, count)
    {
      hide Bits, HasBit;
      var mask := Pow2(count - 1);
      ghost var left := count;
      while mask > 0
        invariant 0 <= left <= count && mask == (if left == 0 then 0 else Pow2(left - 1))
        invariant Valid() && !cs && !sk && chip == old(chip) && commands == old(commands)
        invariant rx + Bits(data, left) == old(rx) + Bits(data, count)
        decreases mask
      {
        var bit := HasBit(data, mask);
        NextBit(rx, data, left);
        ClockOut(bit);
        mask := mask / 2;
        left := left - 1;
      }
      NoBits(rx, data);
      SetPins(sk, cs, false);
    }

    // e1000_shift_in_eec_bits
    method ShiftIn(count: nat) returns (data: nat)
      requires Valid() && !cs && !sk && 1 <= count <= 8
      modifies this`sk, this`cs, this`di, this`rx, this`chip, this`commands
      ensures Valid() && !cs && !sk && chip == old(chip) && commands == old(commands)
      ensures old(rx) <= rx && |rx| == |old(rx)| + count
      ensures data == FromBits(PinBits(chip, rx, |old(rx)|))
    {
      data := 0;
      var i := 0;
      while i < count
        invariant 0 <= i <= count
        invariant Valid() && !cs && !sk && chip == old(chip) && commands == old(commands)
        invariant old(rx) <= rx && |rx| == |old(rx)| + i
        invariant data == FromBits(PinBits(chip, rx, |old(rx)|))
      {
        ghost var sent := rx;
        data := 2 * data;
        SetPins(true, cs, false);
        if DataOut(chip, rx) {
          data := data + 1;
        }
        PinNext(chip, sent, |old(rx)|);
        SetPins(false, cs, false);
        i := i + 1;
      }
    }

    // e1000_standby_nvm: toggling chip select makes the part act on what it has.
    method Standby()
      requires Valid() && !sk
      modifies this`sk, this`cs, this`di, this`rx, this`chip, this`commands
      ensures Valid() && !cs && !sk && AtRest() && chip == old(IfDeselected())
      ensures old(Prompt()) ==> Prompt()
    {
      SetPins(sk, true, di);
      SetPins(sk, false, di);
    }

    // One look at the status register; the command is still open when it returns.
    method PollStatus() returns (busy: bool)
      requires Valid() && !cs && !sk && AtRest()
      modifies this`sk, this`cs, this`di, this`rx, this`chip, this`commands
      ensures Valid() && !cs && !sk && chip == old(chip) && commands == old(commands)
      ensures busy <==> chip.busy > 0
      ensures IfDeselected() == chip.(busy := if chip.busy > 0 then chip.busy - 1 else 0)
    {
      ShiftOut(RDSR_OPCODE, OPCODE_BITS);
      var status := ShiftIn(8);
      StatusRead(chip, rx);
      StatusLatches(part, chip, rx, busyTime(commands));
      busy := status % 2 == 1;
    }

    // e1000_ready_nvm_eeprom
    method Ready() returns (ok: bool)
      requires Valid() && AtRest()
      modifies this`sk, this`cs, this`di, this`rx, this`chip, this`commands
      ensures Valid() && !cs && !sk && chip.mem == old(chip.mem) && IfDeselected() == chip
      ensures ok ==> chip.busy == 0
      ensures old(Prompt()) ==> Prompt() && ok
    {
      SetPins(false, false, di);
      var timeout := MAX_RETRY;
      ok := false;
      while timeout > 0 && !ok
        invariant 0 <= timeout <= MAX_RETRY && Valid() && !cs && !sk
        invariant chip.mem == old(chip.mem) && IfDeselected() == chip && (!ok ==> AtRest())
        invariant ok ==> chip.busy == 0
        invariant old(Prompt()) ==> Prompt() && (!ok ==> chip.busy < timeout)
        decreases timeout, !ok
      {
        var busy := PollStatus();
        if busy {
          Standby();
          timeout := timeout - 1;
        } else {
          ok := true;
        }
      }
    }

    // e1000e_acquire_nvm
    method Acquire() returns (ok: bool)
      modifies this`req, this`looks
      ensures ok == req
      ensures ok <==> exists t :: old(looks) <= t < old(looks) + 1000 && granted(t)
      ensures old(Prompt()) ==> ok
    {
      req := true;
      var timeout := GRANT_ATTEMPTS;
      var gnt := granted(looks);
      looks := looks + 1;
      while timeout > 0 && !gnt
        invariant 0 <= timeout <= GRANT_ATTEMPTS && req && looks == old(looks) + 1 + (GRANT_ATTEMPTS - timeout)
        invariant forall t :: old(looks) <= t < looks - 1 ==> !granted(t)
        invariant gnt == granted(looks - 1)
        invariant old(Prompt()) ==> gnt && timeout > 0
        decreases timeout, !gnt
      {
        gnt := granted(looks);
        looks := looks + 1;
        timeout := timeout - 1;
      }
      ok := timeout > 0;
      if !ok {
        req := false;
      }
    }

    // e1000e_release_nvm: chip select goes high, which commits a page the writer left open.
    method Release()
      requires Valid() && !cs
      modifies this`sk, this`cs, this`di, this`req, this`rx, this`chip, this`commands
      ensures Valid() && cs && !req && chip == old(IfDeselected())
    {
      SetPins(false, true, di);
      req := false;
    }

    // The WREN command, between two standbys.
    method EnableWrite()
      requires Valid() && !cs && !sk && IfDeselected() == chip && chip.busy == 0
      modifies this`sk, this`cs, this`di, this`rx, this`chip, this`commands
      ensures Valid() && !cs && !sk && AtRest() && chip == old(chip).(wel := true)
      ensures old(Prompt()) ==> Prompt()
    {
      Standby();
      ShiftOut(WREN_OPCODE, OPCODE_BITS);
      assert rx == Bits(WREN_OPCODE, 8);
      WrenLatches(part, chip, busyTime(commands));
      Standby();
    }

    // The WRITE command with its address.
    method OpenWrite(offset: nat, begin: nat)
      requires Valid() && !cs && !sk && AtRest()
      modifies this`sk, this`cs, this`di, this`rx, this`chip, this`commands
      ensures Valid() && !cs && !sk && chip == old(chip)
      ensures rx == WriteCommand(part, offset, 2 * (offset + begin), [])
    {
      ShiftOut(WriteOpcode(part, offset), OPCODE_BITS);
      assert rx == Bits(WriteOpcode(part, offset), 8);
      ShiftOut(2 * (offset + begin), part.addressBits);
      NoBurst(part, offset, 2 * (offset + begin));
    }

    // The next word of a burst.
    method ShiftWord(offset: nat, data: seq<u16>, begin: nat, end: nat)
      requires Valid() && !cs && !sk && begin <= end < |data|
      requires rx == WriteCommand(part, offset, 2 * (offset + begin), BurstBits(data, begin, end))
      modifies this`sk, this`cs, this`di, this`rx, this`chip, this`commands
      ensures Valid() && !cs && !sk && chip == old(chip)
      ensures rx == WriteCommand(part, offset, 2 * (offset + begin), BurstBits(data, begin, end + 1))
    {
      ShiftOut(Swapped(data[end]), 16);
      MoreBurst(part, offset, 2 * (offset + begin), BurstBits(data, begin, end), Bits(Swapped(data[end]), 16));
    }

    // The inner loop of e1000e_write_nvm_spi, up to its standby.
    method FillPage(offset: nat, data: seq<u16>, begin: nat) returns (end: nat, atEnd: bool)
      requires Valid() && !cs && !sk && begin < |data|
      requires rx == WriteCommand(part, offset, 2 * (offset + begin), [])
      modifies this`sk, this`cs, this`di, this`rx, this`chip, this`commands
      ensures Valid() && !cs && !sk && chip == old(chip) && begin < end <= |data|
      ensures rx == WriteCommand(part, offset, 2 * (offset + begin), BurstBits(data, begin, end))
      ensures PageOffset(part, 2 * (offset + begin)) + 2 * (end - begin) <= part.pageSize
      ensures atEnd <==> PageOffset(part, 2 * (offset + end)) == 0
      ensures atEnd || end == |data|
    {
      end, atEnd := begin, false;
      while end < |data| && !atEnd
        invariant begin <= end <= |data| && Valid() && !cs && !sk && (end == begin ==> !atEnd) && chip == old(chip)
        invariant rx == WriteCommand(part, offset, 2 * (offset + begin), BurstBits(data, begin, end))
        invariant PageOffset(part, 2 * (offset + begin)) + 2 * (end - begin) <= part.pageSize
        invariant !atEnd ==> PageOffset(part, 2 * (offset + begin)) + 2 * (end - begin) < part.pageSize
        invariant end > begin ==> (atEnd <==> PageOffset(part, 2 * (offset + end)) == 0)
        decreases |data| - end
      {
        ShiftWord(offset, data, begin, end);
        end := end + 1;
        WordsInPage(part, offset, begin, end);
        atEnd := PageOffset(part, 2 * (offset + end)) == 0;
      }
    }

    // One burst of e1000e_write_nvm_spi: from word 'begin' to the end of the page or of the data.
    method SendBurst(ghost m: Mem, offset: nat, data: seq<u16>, begin: nat) returns (end: nat)
      requires Valid() && !cs && !sk && IfDeselected() == chip && chip.busy == 0 && begin < |data|
      requires chip.mem == Written(m, part.addressBits, offset, data, begin)
      modifies this`sk, this`cs, this`di, this`rx, this`chip, this`commands
      ensures Valid() && !cs && !sk && begin < end <= |data|
      ensures IfDeselected().mem == Written(m, part.addressBits, offset, data, end)
      ensures end < |data| ==> AtRest() && PageOffset(part, 2 * (offset + end)) == 0
      ensures old(Prompt()) ==> Prompt()
    {
      EnableWrite();
      OpenWrite(offset, begin);
      var atEnd;
      end, atEnd := FillPage(offset, data, begin);
      WriteLatches(m, part, chip, offset, data, begin, end, busyTime(commands));
      if atEnd {
        Standby();
      }
    }

    // e1000e_write_nvm_spi.  'done' words have reached the part.
    method WriteNvm(offset: nat, data: seq<u16>) returns (ok: bool, ghost done: nat)
      requires Valid() && AtRest()
      modifies this
      ensures Valid() && AtRest()
      ensures ok ==> 0 < |data| && offset + |data| <= wordSize && done == |data|
      ensures done <= |data| && chip.mem == Written(old(chip.mem), part.addressBits, offset, data, done)
      // A write that stops early has written whole pages.
      ensures 0 < done < |data| ==> PageOffset(part, 2 * (offset + done)) == 0
      ensures ok ==> cs && !req
      ensures ok && 2 * wordSize <= |old(chip.mem)| && Addressable(part.addressBits, offset, |data|) ==>
        Faithful(old(chip.mem), chip.mem, offset, data)
      ensures old(Prompt()) ==> ok == (0 < |data| && offset + |data| <= wordSize)
    {
      hide Latch, Faithful, Addressable, PageOffset, Put, Target;
      ok, done := false, 0;
      if offset >= wordSize || |data| > wordSize - offset || |data| == 0 {
        return;
      }
      ok := Acquire();
      if !ok {
        return;
      }
      ghost var m := chip.mem;
      var widx := 0;
      RestKeepsMemory();
      while widx < |data|
        invariant 0 <= widx <= |data| && Valid() && ok && (cs ==> widx == 0)
        invariant widx < |data| ==> AtRest()
        invariant IfDeselected().mem == Written(m, part.addressBits, offset, data, widx)
        invariant 0 < widx < |data| ==> PageOffset(part, 2 * (offset + widx)) == 0
        invariant old(Prompt()) ==> Prompt()
      {
        RestKeepsMemory();
        ok := Ready();
        if !ok {
          break;
        }
        widx := SendBurst(m, offset, data, widx);
      }
      done := widx;
      Release();
      if ok && 2 * wordSize <= |m| && Addressable(part.addressBits, offset, |data|) {
        AddressableWrites(m, part.addressBits, offset, data, |data|);
        assert data[..|data|] == data;
      }
    }

    lemma RestKeepsMemory()
      requires Valid() && AtRest()
      ensures IfDeselected() == chip
    {
    }
  }

  lemma NextBit(sent: seq<bool>, data: nat, left: nat)
    requires left > 0
    ensures sent + Bits(data, left) == sent + [HasBit(data, Pow2(left - 1))] + Bits(data, left - 1)
  {
  }

  lemma NoBits(sent: seq<bool>, data: nat)
    ensures sent + Bits(data, 0) == sent
  {
  }

  lemma MoreBurst(p: Part, offset: nat, x: nat, sent: seq<bool>, more: seq<bool>)
    ensures WriteCommand(p, offset, x, sent) + more == WriteCommand(p, offset, x, sent + more)
  {
  }

  // Words are even-sized, so a burst leaves its page exactly at the page's end.
  lemma WordsInPage(p: Part, offset: nat, begin: nat, end: nat)
    requires Supported(p) && begin < end
    requires PageOffset(p, 2 * (offset + begin)) + 2 * (end - 1 - begin) < p.pageSize
    ensures PageOffset(p, 2 * (offset + begin)) + 2 * (end - begin) <= p.pageSize
    ensures PageOffset(p, 2 * (offset + end)) == 0
       <==> PageOffset(p, 2 * (offset + begin)) + 2 * (end - begin) == p.pageSize
  {
    PageEnd(p, 2 * (offset + begin), 2 * (end - begin));
  }

  lemma PageEnd(p: Part, x: nat, n: nat)
    requires Supported(p) && x % 2 == 0 && n % 2 == 0 && n > 0 && PageOffset(p, x) + n - 2 < p.pageSize
    ensures PageOffset(p, x) + n <= p.pageSize
    ensures PageOffset(p, x + n) == 0 <==> PageOffset(p, x) + n == p.pageSize
  {
    if p.pageSize == 8 {
      PageEnd8(x / 2, n / 2);
    } else {
      PageEnd32(x / 2, n / 2);
    }
  }

  lemma PageEnd8(x: nat, n: nat)
    requires n > 0 && 2 * x % 8 + 2 * n - 2 < 8
    ensures 2 * x % 8 + 2 * n <= 8 && ((2 * x + 2 * n) % 8 == 0 <==> 2 * x % 8 + 2 * n == 8)
  {
    var q, r := x / 4, x % 4;
    Mod8(2 * x, q, 2 * r);
    if r + n < 4 {
      Mod8(2 * x + 2 * n, q, 2 * (r + n));
    }
  }

  lemma PageEnd32(x: nat, n: nat)
    requires n > 0 && 2 * x % 32 + 2 * n - 2 < 32
    ensures 2 * x % 32 + 2 * n <= 32 && ((2 * x + 2 * n) % 32 == 0 <==> 2 * x % 32 + 2 * n == 32)
  {
    var q, r := x / 16, x % 16;
    Mod32(2 * x, q, 2 * r);
    if r + n < 16 {
      Mod32(2 * x + 2 * n, q, 2 * (r + n));
    }
  }

  lemma PinNext(c: Chip, rx: seq<bool>, first: nat)
    requires first <= |rx|
    ensures PinBits(c, rx + [false], first) == PinBits(c, rx, first) + [DataOut(c, rx + [false])]
    ensures FromBits(PinBits(c, rx + [false], first))
         == 2 * FromBits(PinBits(c, rx, first)) + (if DataOut(c, rx + [false]) then 1 else 0)
  {
    assert (rx + [false])[..|rx|] == rx;
    FromBitsSnoc(PinBits(c, rx, first), DataOut(c, rx + [false]));
  }

  lemma {:induction false} FromBitsSnoc(b: seq<bool>, x: bool)
    ensures FromBits(b + [x]) == 2 * FromBits(b) + (if x then 1 else 0)
  {
    assert (b + [x])[..|b|] == b;
  }

  // The eight bits after a status command are the status register.
  lemma StatusRead(c: Chip, rx: seq<bool>)
    requires Bits(RDSR_OPCODE, 8) <= rx && |rx| == 16
    ensures FromBits(PinBits(c, rx, 8)) == Status(c)
  {
    OpcodeArrives(RDSR_OPCODE, rx[8..]);
    assert Bits(RDSR_OPCODE, 8) + rx[8..] == rx;
    StatusSoFar(c, rx);
  }

  lemma {:induction false} StatusSoFar(c: Chip, rx: seq<bool>)
    requires 8 <= |rx| <= 16 && Opcode(rx) == 0x05
    ensures FromBits(PinBits(c, rx, 8))
         == if |rx| < 15 then 0 else if |rx| == 15 then (if c.wel then 1 else 0) else Status(c)
  {
    if |rx| > 8 {
      var sent := rx[..|rx| - 1];
      assert sent[..8] == rx[..8];
      StatusSoFar(c, sent);
      hide Opcode, FromBits;
      Mod8(|rx| - 9, 0, |rx| - 9);
      FromBitsSnoc(PinBits(c, sent, 8), DataOut(c, rx));
    }
  }

  // --- When the write is the one that was asked for -----------------------------------------------------

  // What a caller can check: with eight address bits the write stays on one side of word 128 and below word
  // 256, with sixteen it stays below word 32768.
  predicate Addressable(addressBits: nat, offset: nat, n: nat) {
    if addressBits == 8 then offset + n <= 128 || (128 <= offset && offset + n <= 256)
    else offset + n <= 0x8000
  }

  // Every data word little-endian at its place, every other byte unchanged.
  ghost predicate Faithful(m: Mem, m': Mem, offset: nat, data: seq<u16>) {
    && |m'| == |m|
    && forall a :: 0 <= a < |m| ==>
      m'[a] == if 2 * offset <= a < 2 * (offset + |data|) then ByteAt(data, a - 2 * offset) else m[a]
  }

  function ByteAt(data: seq<u16>, j: nat): u8
    requires j < 2 * |data|
  {
    if j % 2 == 0 then Lo(data[j / 2]) else Hi(data[j / 2])
  }

  lemma {:induction false} AddressableWrites(m: Mem, addressBits: nat, offset: nat, data: seq<u16>, n: nat)
    requires addressBits == 8 || addressBits == 16
    requires n <= |data| && 2 * (offset + n) <= |m| && Addressable(addressBits, offset, n)
    ensures Faithful(m, Written(m, addressBits, offset, data, n), offset, data[..n])
  {
    if n > 0 {
      AddressableWrites(m, addressBits, offset, data, n - 1);
      StaysOnTarget(addressBits, offset, n);
      hide Target, Faithful, Addressable;
      OneMoreInPlace(m, Written(m, addressBits, offset, data, n - 1), offset, data, n);
    }
  }

  lemma StaysOnTarget(addressBits: nat, offset: nat, n: nat)
    requires addressBits == 8 || addressBits == 16
    requires n > 0 && Addressable(addressBits, offset, n)
    ensures Target(addressBits, offset, n - 1) == 2 * (offset + n - 1)
  {
  }

  lemma OneMoreInPlace(m: Mem, w: Mem, offset: nat, data: seq<u16>, n: nat)
    requires 0 < n <= |data| && 2 * (offset + n) <= |m| && Faithful(m, w, offset, data[..n - 1])
    ensures var t := 2 * (offset + n - 1);
      Faithful(m, Put(Put(w, t, Lo(data[n - 1])), t + 1, Hi(data[n - 1])), offset, data[..n])
  {
    var t := 2 * (offset + n - 1);
    var w2 := Put(Put(w, t, Lo(data[n - 1])), t + 1, Hi(data[n - 1]));
    forall a | 0 <= a < |m|
      ensures w2[a] == if 2 * offset <= a < 2 * (offset + n) then ByteAt(data[..n], a - 2 * offset) else m[a]
    {
      if 2 * offset <= a < t {
        SameByteAt(data, n, a - 2 * offset);
      } else if t <= a < t + 2 {
        LastByteAt(data, n);
      }
    }
  }

  lemma SameByteAt(data: seq<u16>, n: nat, j: nat)
    requires 0 < n <= |data| && j < 2 * (n - 1)
    ensures ByteAt(data[..n - 1], j) == ByteAt(data[..n], j)
  {
  }

  lemma LastByteAt(data: seq<u16>, n: nat)
    requires 0 < n <= |data|
    ensures ByteAt(data[..n], 2 * (n - 1)) == Lo(data[n - 1]) && ByteAt(data[..n], 2 * (n - 1) + 1) == Hi(data[n - 1])
  {
  }

  // A write beyond the address field never reaches the byte it is for.
  lemma {:induction false} BeyondIsLost(m: Mem, addressBits: nat, offset: nat, data: seq<u16>, n: nat, a: nat)
    requires addressBits == 8 || addressBits == 16
    requires n <= |data| && a < |m|
    requires a >= if addressBits == 8 then (if offset >= 128 then 0x200 else 0x100) else 0x1_0000
    ensures Written(m, addressBits, offset, data, n)[a] == m[a]
  {
    if n > 0 {
      BeyondIsLost(m, addressBits, offset, data, n - 1, a);
      TargetEven(addressBits, offset, n - 1);
    }
  }

  lemma TargetEven(addressBits: nat, offset: nat, i: nat)
    requires addressBits == 8 || addressBits == 16
    ensures Target(addressBits, offset, i) + 1
          < if addressBits == 8 then (if offset >= 128 then 0x200 else 0x100) else 0x1_0000
  {
    var x := offset + i;
    if addressBits == 8 {
      Mod256(2 * x, x / 0x80, 2 * (x % 0x80));
    } else {
      Mod64K(2 * x, x / 0x8000, 2 * (x % 0x8000));
    }
  }

  // The driver's write is faithful, for every memory and every data of the length, exactly when it is addressable.
  lemma FaithfulExactly(addressBits: nat, offset: nat, n: nat, size: nat)
    requires addressBits == 8 || addressBits == 16
    requires n > 0 && 2 * (offset + n) <= size
    ensures (forall m: Mem, data: seq<u16> :: |m| == size && |data| == n ==>
              Faithful(m, Written(m, addressBits, offset, data, n), offset, data))
       <==> Addressable(addressBits, offset, n)
  {
    if Addressable(addressBits, offset, n) {
      forall m: Mem, data: seq<u16> | |m| == size && |data| == n
        ensures Faithful(m, Written(m, addressBits, offset, data, n), offset, data)
      {
        AddressableWrites(m, addressBits, offset, data, n);
        assert data[..n] == data;
      }
    } else {
      var m: Mem := seq(size, _ => 0);
      var data: seq<u16> := seq(n, _ => 0xFFFF);
      var a := 2 * (offset + n) - 1;
      BeyondIsLost(m, addressBits, offset, data, n, a);
      assert ByteAt(data, a - 2 * offset) == 0xFF;
      assert !Faithful(m, Written(m, addressBits, offset, data, n), offset, data);
    }
  }
}
