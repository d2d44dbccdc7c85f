/** The manageability host interface (e1000_manage.c): a byte buffer written through a RAM of dwords, and the command
    whose bytes add up to zero. */
module HostInterface {
  import opened Bytes

  // A dword of the RAM, by its bytes in address order.
  type Dword = d: seq<u8> | |d| == 4 witness [0, 0, 0, 0]

  const DWORDS := 448
  const MAX_DATA := 0x6F8
  const DHCP_TX_PAYLOAD_CMD: u8 := 64
  const TIMEOUT := 10

  // --- Sums of bytes -------------------------------------------------------------------------------

  // The sum of the first n bytes.
  function ByteSum(s: seq<u8>, n: nat): nat
    requires n <= |s|
  {
    if n == 0 then 0 else ByteSum(s, n - 1) + s[n - 1]
  }

  function Total(s: seq<u8>): nat { ByteSum(s, |s|) }

  // A u8 accumulator wraps modulo 2^8.
  function Add8(a: u8, n: nat): u8 { (a + n) % 0x100 }

  lemma Add8Twice(a: u8, m: nat, n: nat)
    ensures Add8(Add8(a, m), n) == Add8(a, m + n)
  {
  }

  lemma Complement(n: nat)
    ensures Add8((0 - Add8(0, n)) % 0x100, n) == 0
  {
    var r := n % 0x100;
    assert n == 0x100 * (n / 0x100) + r;
    if r > 0 {
      assert (0 - r) % 0x100 == 0x100 - r;
    }
  }

  lemma Add8Nothing(a: u8)
    ensures Add8(a, 0) == a
  {
  }

  lemma {:induction false} SlicedSum(s: seq<u8>, i: nat, j: nat)
    requires i <= j <= |s|
    ensures ByteSum(s, j) == ByteSum(s, i) + Total(s[i..j])
    decreases j
  {
    if i < j {
      SlicedSum(s, i, j - 1);
      SumOfPrefix(s[i..j], j - 1 - i);
      assert s[i..j][..j - 1 - i] == s[i..j - 1];
    }
  }

  lemma {:induction false} SumOfPrefix(s: seq<u8>, n: nat)
    requires n <= |s|
    ensures Total(s[..n]) == ByteSum(s, n)
    decreases |s| + n
  {
    if n > 0 {
      SumOfPrefix(s, n - 1);
      SumOfPrefix(s[..n], n - 1);
      assert s[..n][..n - 1] == s[..n - 1];
    }
  }

  // --- What a write leaves behind -------------------------------------------------------------------

  function RoundUp(n: nat): nat { (n + 3) / 4 * 4 }

  // Byte t of dword d after 'length' bytes of the buffer were written at 'offset': the buffer in its place, zero from
  // there to the end of the last dword, the rest as it was.
  function Want(was: seq<Dword>, buffer: seq<u8>, length: nat, offset: nat, d: nat, t: nat): u8
    requires d < |was| && t < 4 && length <= |buffer|
  {
    if offset <= 4 * d + t < offset + length then buffer[4 * d + t - offset]
    else if offset + length <= 4 * d + t < RoundUp(offset + length) then 0
    else was[d][t]
  }

  ghost predicate Copied(ram: seq<Dword>, was: seq<Dword>, buffer: seq<u8>, length: nat, offset: nat, upto: nat)
    requires length <= |buffer|
  {
    && |ram| == |was|
    && forall d, t :: 0 <= d < |ram| && 0 <= t < 4 ==>
         ram[d][t] == if d < upto then Want(was, buffer, length, offset, d, t) else was[d][t]
  }

  // Written in full.
  ghost predicate Wrote(ram: seq<Dword>, was: seq<Dword>, buffer: seq<u8>, length: nat, offset: nat)
    requires length <= |buffer|
  {
    Copied(ram, was, buffer, length, offset, |was|)
  }

  // --- The 16-bit length --------------------------------------------------------------------------------

  predicate Accepted(length: u16, offset: u16) { 0 < length && offset + length <= MAX_DATA }

  // The length left after the bytes that complete the first dword: a u16, which wraps.
  function LengthLeft(length: u16, offset: u16): u16 {
    if offset % 4 == 0 then length else Sub(length, 4 - offset % 4)
  }

  // One past the last dword written.
  function EndIndex(length: u16, offset: u16): nat {
    (offset + 3) / 4 + (LengthLeft(length, offset) + 3) / 4
  }

  predicate FillsFirst(length: u16, offset: u16) { offset % 4 == 0 || 4 - offset % 4 <= length }

  // The writer stays inside the RAM if and only if an unaligned buffer completes its first dword.
  lemma StaysInRam(length: u16, offset: u16)
    requires Accepted(length, offset)
    ensures EndIndex(length, offset) <= DWORDS <==> FillsFirst(length, offset)
    ensures FillsFirst(length, offset) ==> 4 * EndIndex(length, offset) == RoundUp(offset + length)
  {
    if FillsFirst(length, offset) {
      EndOfFilled(length, offset);
    } else {
      assert LengthLeft(length, offset) == 0x1_0000 + length - (4 - offset % 4);
    }
  }

  lemma EndOfFilled(length: u16, offset: u16)
    requires FillsFirst(length, offset) && 0 < length
    ensures 4 * EndIndex(length, offset) == RoundUp(offset + length)
  {
    var first := (offset + 3) / 4;
    LeftAfterFirst(length, offset);
    hide LengthLeft, FillsFirst;
    Quarters(first, offset + length - 4 * first);
  }

  lemma LeftAfterFirst(length: u16, offset: u16)
    requires FillsFirst(length, offset) && 0 < length
    ensures LengthLeft(length, offset) == offset + length - 4 * ((offset + 3) / 4)
  {
  }

  lemma Quarters(first: nat, left: nat)
    ensures (4 * first + left + 3) / 4 == first + (left + 3) / 4
  {
  }

  // --- The command --------------------------------------------------------------------------------------

  datatype Header = Header(id: u8, checksum: u8, reserved1: u16, reserved2: u16, length: u16)

  function HeaderBytes(h: Header): (b: seq<u8>)
    ensures |b| == 8
  {
    [h.id, h.checksum, Lo(h.reserved1), Hi(h.reserved1), Lo(h.reserved2), Hi(h.reserved2), Lo(h.length), Hi(h.length)]
  }

  predicate HeaderAt(ram: seq<Dword>, h: Header) {
    |ram| >= 2 && ram[0] == HeaderBytes(h)[..4] && ram[1] == HeaderBytes(h)[4..]
  }

  function RamByte(ram: seq<Dword>, b: nat): u8
    requires b < 4 * |ram|
  {
    ram[b / 4][b % 4]
  }

  // The sum of the first n bytes of the RAM.
  function RamSum(ram: seq<Dword>, n: nat): nat
    requires n <= 4 * |ram|
  {
    if n == 0 then 0 else RamSum(ram, n - 1) + RamByte(ram, n - 1)
  }

  // A whole command: the header, then the payload.
  ghost predicate HoldsCommand(ram: seq<Dword>, payload: seq<u8>) {
    && |payload| < 0x1_0000 && 8 + |payload| <= 4 * |ram|
    && RamByte(ram, 0) == 64
    && Word(RamByte(ram, 6), RamByte(ram, 7)) == |payload|
    && (forall b :: 2 <= b < 6 ==> RamByte(ram, b) == 0)
    && (forall k :: 8 <= k < 8 + |payload| ==> RamByte(ram, k) == payload[k - 8])
  }

  lemma WroteBytes(ram: seq<Dword>, was: seq<Dword>, buffer: seq<u8>, length: nat)
    requires length <= |buffer| && 8 + length <= 4 * |was|
    requires Wrote(ram, was, buffer, length, 8)
    ensures |ram| == |was|
    ensures forall b :: 0 <= b < 8 ==> RamByte(ram, b) == RamByte(was, b)
    ensures forall b :: 8 <= b < 8 + length ==> RamByte(ram, b) == buffer[b - 8]
  {
    forall b | 0 <= b < 4 * |was|
      ensures RamByte(ram, b) == Want(was, buffer, length, 8, b / 4, b % 4)
    {
    }
  }

  // Neither the payload nor the header touches a byte past the last dword.
  lemma BeyondKept(ram: seq<Dword>, mid: seq<Dword>, was: seq<Dword>, buffer: seq<u8>, length: nat, b: nat)
    requires length <= |buffer| && RoundUp(8 + length) <= b < 4 * |was|
    requires Wrote(mid, was, buffer, length, 8) && |ram| == |mid| == |was| && ram[2..] == mid[2..]
    ensures RamByte(ram, b) == RamByte(was, b)
  {
    assert ram[2..][b / 4 - 2] == mid[2..][b / 4 - 2];
    assert mid[b / 4][b % 4] == Want(was, buffer, length, 8, b / 4, b % 4);
  }

  lemma {:induction false} PayloadSum(ram: seq<Dword>, payload: seq<u8>, n: nat)
    requires n <= |payload| && 8 + |payload| <= 4 * |ram|
    requires forall b :: 8 <= b < 8 + |payload| ==> RamByte(ram, b) == payload[b - 8]
    ensures RamSum(ram, 8 + n) == RamSum(ram, 8) + ByteSum(payload, n)
  {
    if n > 0 {
      PayloadSum(ram, payload, n - 1);
      assert RamByte(ram, 8 + n - 1) == payload[n - 1];
    }
  }

  lemma HeaderSum(ram: seq<Dword>, h: Header)
    requires HeaderAt(ram, h)
    ensures RamSum(ram, 8) == Total(HeaderBytes(h))
    ensures forall k :: 0 <= k < 8 ==> RamByte(ram, k) == HeaderBytes(h)[k]
  {
    var b := HeaderBytes(h);
    forall k | 0 <= k < 8 ensures b[k] == RamByte(ram, k) {
      assert k < 4 ==> b[..4][k] == b[k];
      assert k >= 4 ==> b[4..][k - 4] == b[k];
    }
    RamPrefix(ram, b, 8);
  }

  lemma {:induction false} RamPrefix(ram: seq<Dword>, b: seq<u8>, n: nat)
    requires n <= |b| <= 4 * |ram| && forall k :: 0 <= k < |b| ==> b[k] == RamByte(ram, k)
    ensures RamSum(ram, n) == ByteSum(b, n)
  {
    if n > 0 {
      RamPrefix(ram, b, n - 1);
    }
  }

  lemma {:induction false} ByteSumReplace(s: seq<u8>, k: nat, v: u8, n: nat)
    requires k < n <= |s|
    ensures ByteSum(s[k := v], n) + s[k] == ByteSum(s, n) + v
  {
    if n == k + 1 {
      ByteSumFrame(s, s[k := v], k);
    } else {
      ByteSumReplace(s, k, v, n - 1);
    }
  }

  lemma {:induction false} ByteSumFrame(s: seq<u8>, t: seq<u8>, n: nat)
    requires n <= |s| && n <= |t| && forall k :: 0 <= k < n ==> s[k] == t[k]
    ensures ByteSum(s, n) == ByteSum(t, n)
  {
    if n > 0 {
      ByteSumFrame(s, t, n - 1);
    }
  }

  predicate Balanced(h: Header, n: nat) { (Total(HeaderBytes(h)) + n) % 0x100 == 0 }

  // The checksum of a header whose checksum field holds the sum of the payload balances header and payload.
  lemma Balances(h: Header, full: Header, n: nat)
    requires h.checksum == n % 0x100 && full == h.(checksum := full.checksum)
    requires Add8(full.checksum, Total(HeaderBytes(h))) == 0
    ensures Balanced(full, n)
  {
    var b := HeaderBytes(h);
    assert HeaderBytes(full) == b[1 := full.checksum];
    ByteSumReplace(b, 1, full.checksum, 8);
    Cancel(full.checksum, Total(b), b[1], n, Total(HeaderBytes(full)));
  }

  lemma Cancel(c: nat, a: nat, p: nat, n: nat, total: nat)
    requires (c + a) % 0x100 == 0 && p == n % 0x100 && total + p == a + c
    ensures (total + n) % 0x100 == 0
  {
  }

  class HostIf {
    const ram: array<Dword>
    const enabled: bool
    // Has the firmware finished the pending command by this time?
    const done: nat -> bool
    var pending: bool
    var clock: nat

    constructor (enabled: bool, done: nat -> bool)
      ensures fresh(ram) && ram.Length == 448 && !pending && this.enabled == enabled && this.done == done
    {
      ram := new Dword[DWORDS];
      this.enabled := enabled;
      this.done := done;
      pending, clock := false, 0;
    }

    // Reads the command bit of HICR, which the firmware clears.
    method ReadCommandBit() returns (c: bool)
      modifies `pending, `clock
      ensures clock == old(clock) + 1 && c == pending == (old(pending) && !done(old(clock)))
    {
      pending := pending && !done(clock);
      clock := clock + 1;
      c := pending;
    }

    // Is the interface enabled and the previous command completed?  At most ten looks.
    method EnableHostIf() returns (ok: bool)
      modifies `pending, `clock
      ensures ok <==> enabled && (!old(pending) || exists t :: old(clock) <= t < old(clock) + 10 && done(t))
      ensures ok ==> !pending
      ensures !old(pending) ==> !pending
      ensures clock <= old(clock) + TIMEOUT
    {
      if !enabled {
        return false;
      }
      var i := 0;
      while i < TIMEOUT
        invariant 0 <= i <= TIMEOUT && clock == old(clock) + i
        invariant i > 0 ==> pending
        invariant pending ==> old(pending)
        invariant pending == old(pending)
        invariant pending ==> forall t :: old(clock) <= t < old(clock) + i ==> !done(t)
      {
        var c := ReadCommandBit();
        if !c {
          assert old(pending) ==> done(old(clock) + i);
          break;
        }
        i := i + 1;
      }
      ok := i != TIMEOUT;
    }

    method CalculateChecksum(buffer: seq<u8>) returns (r: u8)
      ensures Add8(r, Total(buffer)) == 0
    {
      hide Add8;
      var sum: u8 := 0;
      var i := 0;
      Add8Nothing(0);
      while i < |buffer|
        invariant 0 <= i <= |buffer| && sum == Add8(0, ByteSum(buffer, i))
      {
        Add8Twice(0, ByteSum(buffer, i), buffer[i]);
        sum := Add8(sum, buffer[i]);
        i := i + 1;
      }
      r := (0 - sum) % 0x100;
      Complement(Total(buffer));
    }

    // Byte t of a dword that has s from byte 'first' on, and zeros after it.
    static function Filled(data0: Dword, first: nat, s: seq<u8>, t: nat): u8
      requires first + |s| <= 4 && t < 4
    {
      if t < first then data0[t] else if t < first + |s| then s[t - first] else 0
    }

    static lemma FilledUp(data: Dword, data0: Dword, first: nat, s: seq<u8>)
      requires first + |s| <= 4 && forall t :: 0 <= t < 4 ==> data[t] == Filled(data0, first, s, t)
      ensures data == data0[..first] + s + [0, 0, 0, 0][first + |s|..]
    {
    }

    // Puts s into a dword from byte 'first' on, and zeros after it.
    method FillDword(data0: Dword, first: nat, s: seq<u8>, sum0: u8) returns (data: Dword, sum: u8)
      requires first + |s| <= 4
      ensures data == data0[..first] + s + [0, 0, 0, 0][first + |s|..]
      ensures sum == Add8(sum0, Total(s))
    {
      hide Add8;
      data, sum := data0, sum0;
      Add8Nothing(sum0);
      var j := first;
      while j < first + |s|
        invariant first <= j <= first + |s|
        invariant forall t :: 0 <= t < j ==> data[t] == Filled(data0, first, s, t)
        invariant sum == Add8(sum0, ByteSum(s, j - first))
      {
        data := data[j := s[j - first]];
        Add8Twice(sum0, ByteSum(s, j - first), data[j]);
        sum := Add8(sum, data[j]);
        j := j + 1;
      }
      while j < 4
        invariant first + |s| <= j <= 4
        invariant forall t :: 0 <= t < j ==> data[t] == Filled(data0, first, s, t)
        invariant sum == Add8(sum0, Total(s))
      {
        data := data[j := 0];
        Add8Nothing(sum);
        sum := Add8(sum, data[j]);
        j := j + 1;
      }
      FilledUp(data, data0, first, s);
    }

    // Writes the buffer at any alignment.  Returns false, with nothing changed, when the length is zero or too long.
    method HostIfWrite(buffer: seq<u8>, length0: u16, offset0: u16, sum0: u8) returns (ok: bool, sum: u8)
      requires ram.Length == DWORDS && length0 <= |buffer|
      requires Accepted(length0, offset0) ==> FillsFirst(length0, offset0)
      modifies ram
      ensures ok <==> 0 < length0 && offset0 + length0 <= 0x6F8
      ensures !ok ==> ram[..] == old(ram[..]) && sum == sum0
      ensures ok ==> Wrote(ram[..], old(ram[..]), buffer, length0, offset0)
      ensures ok ==> sum == Add8(sum0, ByteSum(buffer, length0))
    {
      sum := sum0;
      if length0 == 0 || offset0 + length0 > MAX_DATA {
        return false, sum;
      }
      ghost var was := ram[..];
      var prev := offset0 % 4;
      var offset := offset0 / 4;
      var length: u16 := length0;
      var at := 0;
      if prev != 0 {
        sum := CompleteDword(buffer, length0, offset0, sum);
        at := 4 - prev;
        length := Sub(length, 4 - prev);
        offset := offset + 1;
      }
      sum := WriteAligned(was, buffer, length0, offset0, offset, at, length, sum0, sum);
      ok := true;
    }

    // The rest, from a dword boundary on: whole dwords, then the tail.
    method WriteAligned(ghost was: seq<Dword>, buffer: seq<u8>, length0: u16, offset0: u16, offset: nat, at0: nat,
                        length1: u16, ghost sum0: u8, sum1: u8)
        returns (sum: u8)
      requires ram.Length == DWORDS && length0 <= |buffer| && Accepted(length0, offset0)
      requires at0 + length1 == length0 && offset0 + at0 == 4 * offset
      requires Copied(ram[..], was, buffer, length0, offset0, offset)
      requires sum1 == Add8(sum0, ByteSum(buffer, at0))
      modifies ram
      ensures Wrote(ram[..], was, buffer, length0, offset0)
      ensures sum == Add8(sum0, ByteSum(buffer, length0))
    {
      sum := sum1;
      var at, length := at0, length1;
      var remaining := length % 4;
      length := length - remaining;
      length := length / 4;
      var i := 0;
      while i < length
        invariant 0 <= i <= length && at + 4 * (length - i) + remaining == length0
        invariant offset0 + at == 4 * (offset + i)
        invariant Copied(ram[..], was, buffer, length0, offset0, offset + i)
        invariant sum == Add8(sum0, ByteSum(buffer, at))
      {
        sum := WriteDword(was, buffer, length0, offset0, offset + i, 4, sum0, sum);
        at := at + 4;
        i := i + 1;
      }
      if remaining != 0 {
        sum := WriteDword(was, buffer, length0, offset0, offset + i, remaining, sum0, sum);
        i := i + 1;
      }
      CopyDone(ram[..], was, buffer, length0, offset0, offset + i);
    }

    // Completes the checksum and writes the two dwords of the header.
    method WriteCmdHeader(h: Header) returns (ghost full: Header)
      requires ram.Length == DWORDS
      modifies ram
      ensures full == h.(checksum := full.checksum) && Add8(full.checksum, Total(HeaderBytes(h))) == 0
      ensures HeaderAt(ram[..], full)
      ensures ram[2..] == old(ram[2..])
    {
      var c := CalculateChecksum(HeaderBytes(h));
      var b := HeaderBytes(h.(checksum := c));
      full := h.(checksum := c);
      var length := 8;
      length := length / 4;
      var i := 0;
      while i < length
        invariant 0 <= i <= length
        invariant forall k :: 0 <= k < i ==> ram[k] == b[4 * k..4 * k + 4]
        invariant ram[2..] == old(ram[2..])
      {
        ram[i] := b[4 * i..4 * i + 4];
        i := i + 1;
      }
      assert ram[0] == b[0..4] && ram[1] == b[4..8];
    }

    // On success the RAM holds the command, its header and payload add up to zero, and the firmware is told; it
    // succeeds exactly when the interface is free in time and the payload has a proper length.
    method WriteDhcpInfo(buffer: seq<u8>, length: u16) returns (ok: bool)
      requires ram.Length == DWORDS && length <= |buffer|
      modifies ram, `pending, `clock
      ensures ok ==> HoldsCommand(ram[..], buffer[..length]) && RamSum(ram[..], 8 + length) % 0x100 == 0
      ensures ok ==> pending
      ensures ok ==> forall b :: RoundUp(8 + length) <= b < 4 * DWORDS ==>
        RamByte(ram[..], b) == old(RamByte(ram[..], b))
      ensures !ok ==> ram[..] == old(ram[..]) && (pending ==> old(pending))
      ensures ok <==>
              && enabled && 0 < length <= 1776
              && (!old(pending) || exists t :: old(clock) <= t < old(clock) + 10 && done(t))
    {
      hide ByteSum, HoldsCommand, RamSum, Copied, RoundUp;
      var h := Header(DHCP_TX_PAYLOAD_CMD, 0, 0, 0, length);
      ok := EnableHostIf();
      if !ok {
        return;
      }
      var sum;
      ok, sum := HostIfWrite(buffer, length, 8, h.checksum);
      if !ok {
        return;
      }
      ghost var mid := ram[..];
      WroteBytes(mid, old(ram[..]), buffer, length);
      h := h.(checksum := sum);
      ghost var full := WriteCmdHeader(h);
      SumOfPrefix(buffer, length);
      assert full.id == h.id;
      CommandDone(ram[..], mid, buffer[..length], h, full);
      forall b | RoundUp(8 + length) <= b < 4 * DWORDS ensures RamByte(ram[..], b) == old(RamByte(ram[..], b)) {
        BeyondKept(ram[..], mid, old(ram[..]), buffer, length, b);
      }
      var c := ReadCommandBit();
      pending := true;
    }

    // The first dword, of which the buffer supplies only the end.
    method CompleteDword(buffer: seq<u8>, length: u16, offset: u16, sum0: u8) returns (sum: u8)
      requires ram.Length == DWORDS && length <= |buffer| && offset % 4 != 0
      requires Accepted(length, offset) && FillsFirst(length, offset)
      modifies ram
      ensures Copied(ram[..], old(ram[..]), buffer, length, offset, offset / 4 + 1)
      ensures sum == Add8(sum0, ByteSum(buffer, 4 - offset % 4))
    {
      var prev := offset % 4;
      var data;
      data, sum := FillDword(ram[offset / 4], prev, buffer[..4 - prev], sum0);
      SumOfPrefix(buffer, 4 - prev);
      ram[offset / 4] := data;
    }

    // Dword k, of which the buffer supplies the first n bytes: all four, unless they are its last.
    method WriteDword(ghost was: seq<Dword>, buffer: seq<u8>, length: u16, offset: u16, k: nat, n: nat,
                      ghost sum0: u8, sum1: u8)
        returns (sum: u8)
      requires ram.Length == DWORDS && length <= |buffer| && Accepted(length, offset)
      requires offset <= 4 * k && 0 < n <= 4
      requires 4 * k - offset + n == length || (n == 4 && 4 * k - offset + n <= length)
      requires Copied(ram[..], was, buffer, length, offset, k)
      requires sum1 == Add8(sum0, ByteSum(buffer, 4 * k - offset))
      modifies ram
      ensures Copied(ram[..], was, buffer, length, offset, k + 1)
      ensures sum == Add8(sum0, ByteSum(buffer, 4 * k - offset + n))
    {
      hide Add8;
      var at := 4 * k - offset;
      var data: Dword;
      data, sum := FillDword([0, 0, 0, 0], 0, buffer[at..at + n], sum1);
      SlicedSum(buffer, at, at + n);
      Add8Twice(sum0, ByteSum(buffer, at), Total(buffer[at..at + n]));
      assert [0, 0, 0, 0][..0] + buffer[at..at + n] == buffer[at..at + n];
      CopyOne(ram[..], was, buffer, length, offset, k, data);
      ram[k] := data;
      assert ram[..] == old(ram[..])[k := data];
    }
  }

  // The next dword of the buffer, or its tail and zeros.
  lemma CopyOne(ram: seq<Dword>, was: seq<Dword>, buffer: seq<u8>, length: nat, offset: nat, k: nat, data: Dword)
    requires length <= |buffer| && k < |was| && offset <= 4 * k < offset + length
    requires Copied(ram, was, buffer, length, offset, k)
    requires var at := 4 * k - offset; var n := if length - at < 4 then length - at else 4;
             data == buffer[at..at + n] + [0, 0, 0, 0][n..]
    ensures Copied(ram[k := data], was, buffer, length, offset, k + 1)
  {
    forall t | 0 <= t < 4 ensures data[t] == Want(was, buffer, length, offset, k, t) {
    }
  }

  lemma CommandDone(ram: seq<Dword>, mid: seq<Dword>, payload: seq<u8>, h: Header, full: Header)
    requires |ram| == |mid| && 8 + |payload| <= 4 * |ram| && |payload| < 0x1_0000
    requires ram[2..] == mid[2..] && HeaderAt(ram, full)
    requires forall b :: 8 <= b < 8 + |payload| ==> RamByte(mid, b) == payload[b - 8]
    requires h == Header(DHCP_TX_PAYLOAD_CMD, Total(payload) % 0x100, 0, 0, |payload|)
    requires full == h.(checksum := full.checksum) && Add8(full.checksum, Total(HeaderBytes(h))) == 0
    ensures HoldsCommand(ram, payload) && RamSum(ram, 8 + |payload|) % 0x100 == 0
  {
    PayloadKept(ram, mid, payload);
    HeaderFields(ram, h, full);
    Balances(h, full, Total(payload));
    SumsToZero(ram, payload, full);
  }

  lemma SumsToZero(ram: seq<Dword>, payload: seq<u8>, h: Header)
    requires 8 + |payload| <= 4 * |ram| && HeaderAt(ram, h)
    requires forall b :: 8 <= b < 8 + |payload| ==> RamByte(ram, b) == payload[b - 8]
    requires Balanced(h, Total(payload))
    ensures RamSum(ram, 8 + |payload|) % 0x100 == 0
  {
    HeaderSum(ram, h);
    PayloadSum(ram, payload, |payload|);
    BalancedSum(h, Total(payload), RamSum(ram, 8 + |payload|));
  }

  lemma BalancedSum(h: Header, n: nat, whole: nat)
    requires Balanced(h, n) && whole == Total(HeaderBytes(h)) + n
    ensures whole % 0x100 == 0
  {
  }

  lemma PayloadKept(ram: seq<Dword>, mid: seq<Dword>, payload: seq<u8>)
    requires |ram| == |mid| && 8 + |payload| <= 4 * |ram| && ram[2..] == mid[2..]
    requires forall b :: 8 <= b < 8 + |payload| ==> RamByte(mid, b) == payload[b - 8]
    ensures forall b :: 8 <= b < 8 + |payload| ==> RamByte(ram, b) == payload[b - 8]
  {
    forall b | 8 <= b < 8 + |payload| ensures RamByte(ram, b) == payload[b - 8] {
      assert ram[2..][b / 4 - 2] == mid[2..][b / 4 - 2];
      assert RamByte(mid, b) == payload[b - 8];
    }
  }

  lemma HeaderFields(ram: seq<Dword>, h: Header, full: Header)
    requires HeaderAt(ram, full) && full == h.(checksum := full.checksum) && h.reserved1 == h.reserved2 == 0
    ensures RamByte(ram, 0) == h.id && Word(RamByte(ram, 6), RamByte(ram, 7)) == h.length
    ensures forall b :: 2 <= b < 6 ==> RamByte(ram, b) == 0
  {
    HeaderSum(ram, full);
    var hb := HeaderBytes(full);
    assert hb[2] == hb[3] == hb[4] == hb[5] == 0;
  }

  lemma CopyDone(ram: seq<Dword>, was: seq<Dword>, buffer: seq<u8>, length: nat, offset: nat, k: nat)
    requires length <= |buffer| && offset + length <= 4 * k
    requires Copied(ram, was, buffer, length, offset, k)
    ensures Wrote(ram, was, buffer, length, offset)
  {
  }
}
