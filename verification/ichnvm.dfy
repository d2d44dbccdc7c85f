/** The ICH8/9/10 NVM operations over the two-bank flash: a shadow RAM in front, a commit to the other
    bank behind (e1000_ich8lan.c), and the generic checksum code on top (e1000_nvm.c). */
module IchNvm {
  import opened Bytes
  import opened FlashController
  import opened IchImage

  const PHY_CFG_TIMEOUT := 100

  // Every entry of 'h' from position 'n' on selects image 'a' or image 'b'.
  ghost predicate EachSelects(g: Geometry, h: seq<Mem>, n: nat, a: seq<u16>, b: seq<u16>)
  {
    forall k :: n <= k < |h| ==> Selected(g, h[k]) == Some(a) || Selected(g, h[k]) == Some(b)
  }

  ghost predicate EachInactive(g: Geometry, m0: Mem, h: seq<Mem>, n: nat, new_: nat)
    requires Fits(g, |m0|)
  {
    forall k :: n <= k < |h| ==> Inactive(g, m0, h[k], new_)
  }

  // The flash went from history 'h' to 'h2' through nothing but states that select the image 'img' or the
  // complete new image, and ended in the new one if the commit succeeded.
  ghost predicate Committed(g: Geometry, h: seq<Mem>, h2: seq<Mem>, img: seq<u16>, shadow: seq<ShadowWord>, ok: bool)
    requires |img| == |shadow| == SHADOW_RAM_WORDS && |h2| > 0
  {
    && h <= h2
    && EachSelects(g, h2, |h|, img, NewImage(img, shadow))
    && (ok ==> Selected(g, h2[|h2| - 1]) == Some(NewImage(img, shadow)))
  }

  const FIX_WORD := 0x19

  // What a validation has done besides reading: nothing, or written word 0x19 and then tried to commit, with the
  // checksum word written or not and the commit successful or not.
  datatype Repair = Untouched | Tried(w: u16, written: bool, ok: bool)

  ghost predicate Repairs(t: Repair, g: Geometry, h: seq<Mem>, h2: seq<Mem>, shadow: seq<ShadowWord>,
                          shadow2: seq<ShadowWord>)
    requires |h| > 0 && |h2| > 0 && |shadow| == |shadow2| == SHADOW_RAM_WORDS
  {
    match t
    case Untouched => h2 == h && shadow2 == shadow
    case Tried(w, written, ok) => Tries(g, h, h2, Written(shadow, FIX_WORD, [w]), shadow2, written, ok)
  }

  // A commit that was tried with this shadow.
  ghost predicate Tries(g: Geometry, h: seq<Mem>, h2: seq<Mem>, shadow: seq<ShadowWord>, shadow2: seq<ShadowWord>,
                        written: bool, ok: bool)
    requires |h| > 0 && |h2| > 0 && |shadow| == |shadow2| == SHADOW_RAM_WORDS
  {
    && (ok ==> written)
    && (!written ==> h2 == h && shadow2 == shadow)
    && (written ==>
          && Selected(g, h[|h| - 1]).Some?
          && CommitsTo(g, h, h2, Selected(g, h[|h| - 1]).value, shadow, shadow2, ok))
  }

  ghost predicate CommitsTo(g: Geometry, h: seq<Mem>, h2: seq<Mem>, img: seq<u16>, shadow: seq<ShadowWord>,
                            shadow2: seq<ShadowWord>, ok: bool)
    requires |h2| > 0 && |img| == |shadow| == |shadow2| == SHADOW_RAM_WORDS
  {
    && Committed(g, h, h2, img, WithChecksum(img, shadow), ok)
    && shadow2 == if ok then EmptyShadow() else WithChecksum(img, shadow)
  }

  // How a repair reads: word 0x19 differs in bit 6 at most, word 0x13 in the signature bits at most, word 0x3F is the
  // checksum, and every other word is as before.
  ghost predicate ReadsRepaired(l: seq<u16>, l2: seq<u16>)
    requires |l| == |l2| == SHADOW_RAM_WORDS
  {
    && (forall i :: 0 <= i < SHADOW_RAM_WORDS && i != 0x19 && i != 0x3F && i != 0x13 ==> l2[i] == l[i])
    && l2[0x19] % 0x40 == l[0x19] % 0x40 && l2[0x19] / 0x80 == l[0x19] / 0x80
    && l2[0x13] % 0x4000 == l[0x13] % 0x4000 && (l[0x13] / 0x4000 == 2 ==> l2[0x13] == l[0x13])
  }

  // Bit 6 of word 0x19: the checksum has been taken care of.
  predicate Bit6(w: u16) { w / 0x40 % 2 == 1 }

  function SetBit6(w: u16): (r: u16)
    ensures Bit6(r) && r % 0x40 == w % 0x40 && r / 0x80 == w / 0x80
  {
    if Bit6(w) then w
    else
      AddBit6(w, w / 0x80, w % 0x40);
      w + 0x40
  }

  lemma AddBit6(w: u16, q: nat, r: nat)
    requires !Bit6(w) && q == w / 0x80 && r == w % 0x40
    ensures w + 0x40 < 0x1_0000 && Bit6(w + 0x40) && (w + 0x40) % 0x40 == r && (w + 0x40) / 0x80 == q
  {
    assert w == 0x80 * q + r;
  }

  class Nvm {
    const flash: Flash
    const bankWords: nat
    const shadow: array<ShadowWord>
    // Whether the k-th attempt to set the software flag sticks.
    const grants: nat -> bool

    var swflag: bool
    var tries: nat

    ghost predicate Valid()
      reads this, flash, shadow
    {
      && flash.Valid()
      && Fits(Geo(), flash.size) && 4 * bankWords <= LINEAR_ADDR_MASK + 1
      && shadow.Length == SHADOW_RAM_WORDS
    }

    constructor (flash: Flash, bankWords: nat, grants: nat -> bool)
      requires flash.Valid() && Fits(Geometry(flash.base, bankWords), flash.size)
      requires 4 * bankWords <= LINEAR_ADDR_MASK + 1
      ensures Valid() && !swflag && this.flash == flash && this.bankWords == bankWords && this.grants == grants
      ensures fresh(shadow) && shadow[..] == EmptyShadow()
    {
      this.flash, this.bankWords, this.grants := flash, bankWords, grants;
      shadow := new ShadowWord[SHADOW_RAM_WORDS](_ => ShadowWord(0xFFFF, false));
      swflag, tries := false, 0;
      new;
      assert shadow[..] == EmptyShadow();
    }

    ghost function Geo(): Geometry { Geometry(flash.base, bankWords) }

    // The settled flash contents, and what bank detection makes of them.
    ghost function Mem(): (m: Mem)
      reads this, flash, shadow
      requires Valid()
      ensures Fits(Geo(), |m|)
    {
      flash.Now()
    }

    ghost function Seen(): (r: Option<seq<u16>>)
      reads this, flash, shadow
      requires Valid()
      ensures r.Some? ==> |r.value| == SHADOW_RAM_WORDS
    {
      Selected(Geo(), Mem())
    }

    // What a reader sees: the shadow over the selected image.
    ghost function Logical(): (r: seq<u16>)
      reads this, flash, shadow
      requires Valid() && Seen().Some?
      ensures |r| == SHADOW_RAM_WORDS
    {
      Overlay(Seen().value, shadow[..])
    }

    // l is what a reader sees, or nothing if there is no valid bank.
    ghost predicate Views(l: seq<u16>)
      reads this, flash, shadow
      requires Valid()
    {
      if Seen().Some? then l == Logical() else l == []
    }

    // Nothing will go wrong for good: no flash cycle times out, never ten of them in a row fail, and the software flag
    // is always granted.
    ghost predicate Calm()
      reads this, flash
    {
      flash.Healthy() && Generous() && flash.progress == Idle
    }

    // No flash cycle is running.
    ghost predicate Resting()
      reads this, flash
    {
      flash.progress == Idle
    }

    ghost predicate Generous() { forall k {:trigger grants(k)} :: grants(k) }

    // e1000_acquire_swflag_ich8lan
    method Acquire() returns (ok: bool)
      modifies this`swflag, this`tries
      ensures ok == swflag
      ensures ok <==> old(swflag) || exists k :: old(tries) <= k < old(tries) + 100 && grants(k)
      ensures Calm() ==> ok
    {
      ok := false;
      var timeout := PHY_CFG_TIMEOUT;
      while timeout > 0
        invariant !ok && 0 <= timeout <= PHY_CFG_TIMEOUT && tries == old(tries) + (PHY_CFG_TIMEOUT - timeout)
        invariant swflag == old(swflag) && (timeout < PHY_CFG_TIMEOUT ==> !swflag)
        invariant forall k :: old(tries) <= k < tries ==> !grants(k)
        invariant Calm() ==> timeout == PHY_CFG_TIMEOUT
      {
        swflag := swflag || grants(tries);
        tries := tries + 1;
        if swflag {
          return true;
        }
        timeout := timeout - 1;
      }
      swflag := false;
    }

    // e1000_release_swflag_ich8lan
    method Release()
      modifies this`swflag
      ensures !swflag
    {
      swflag := false;
    }

    // e1000_valid_nvm_bank_detect_ich8lan, by signatures
    method DetectBank() returns (ok: bool, bank: nat)
      requires Valid()
      modifies flash
      ensures Valid() && flash.hist == old(flash.hist) && bank <= 1
      ensures flash.Pending() ==> old(flash.Pending())
      ensures ok ==> Detect(Geo(), Mem()) == Some(bank) && flash.progress == Idle
      ensures old(Calm()) ==> Resting() && ok == Seen().Some?
    {
      bank := 0;
      var sig: u16;
      ok, sig := flash.ReadData(2 * SIG_WORD + 1, 1);
      if !ok {
        return;
      }
      FetchedByte(flash.Now()[SigAddr(Geo(), 0)]);
      if SigByte(Lo(sig)) {
        return;
      }
      ok, sig := flash.ReadData(2 * SIG_WORD + 1 + 2 * bankWords, 1);
      if !ok {
        return;
      }
      FetchedByte(flash.Now()[SigAddr(Geo(), 1)]);
      bank := if SigByte(Lo(sig)) then 1 else 0;
      ok := bank == 1;
    }

    // e1000_read_flash_word_ich8lan for a word of a bank
    method ReadFlashWord(bank: nat, i: nat) returns (ok: bool, w: u16)
      requires Valid() && bank <= 1 && i < SHADOW_RAM_WORDS
      modifies flash
      ensures Valid() && flash.hist == old(flash.hist)
      ensures flash.Pending() ==> old(flash.Pending())
      ensures ok ==> w == WordAt(Geo(), Mem(), bank, i) && flash.progress == Idle
      ensures old(Calm()) ==> Resting() && ok
    {
      var offset := i + if bank == 0 then 0 else bankWords;
      ok, w := flash.ReadData(2 * offset, 2);
    }

    // The loop body of e1000_read_nvm_ich8lan: a modified shadow word, else the word in the flash bank.
    method ReadWord(bank: nat, i: nat) returns (ok: bool, w: u16)
      requires Valid() && Detect(Geo(), Mem()) == Some(bank) && i < SHADOW_RAM_WORDS
      modifies flash
      ensures Valid() && flash.hist == old(flash.hist)
      ensures ok && old(flash.progress) == Idle ==> flash.progress == Idle
      ensures flash.Pending() ==> old(flash.Pending())
      ensures ok ==> w == Logical()[i]
      ensures old(Calm()) ==> Resting() && ok
    {
      if shadow[i].modified {
        ok, w := true, shadow[i].value;
      } else {
        ok, w := ReadFlashWord(bank, i);
      }
    }

    // The loop of e1000_read_nvm_ich8lan.
    method ReadWords(bank: nat, offset: nat, words: nat) returns (ok: bool, data: seq<u16>)
      requires Valid() && Detect(Geo(), Mem()) == Some(bank) && offset + words <= SHADOW_RAM_WORDS
      modifies flash
      ensures Valid() && flash.hist == old(flash.hist)
      ensures ok && old(flash.progress) == Idle ==> flash.progress == Idle
      ensures flash.Pending() ==> old(flash.Pending())
      ensures ok ==> data == Logical()[offset..offset + words]
      ensures old(Calm()) ==> Resting() && ok
    {
      hide Overlay, Image, Signed;
      ghost var l := Logical();
      ok, data := true, [];
      var i := 0;
      while i < words && ok
        invariant 0 <= i <= words && Valid() && flash.hist == old(flash.hist)
        invariant flash.Pending() ==> old(flash.Pending())
        invariant Logical() == l && (ok && old(flash.progress) == Idle ==> flash.progress == Idle)
        invariant ok ==> |data| == i && forall k :: 0 <= k < i ==> data[k] == l[offset + k]
        invariant old(Calm()) ==> Resting() && ok
        decreases words - i, ok
      {
        var word;
        ok, word := ReadWord(bank, offset + i);
        if ok {
          data := data + [word];
          i := i + 1;
        }
      }
    }

    // e1000_read_nvm_ich8lan
    method ReadNvm(offset: nat, words: nat) returns (ok: bool, data: seq<u16>)
      requires Valid()
      modifies this`swflag, this`tries, flash
      ensures Valid() && flash.hist == old(flash.hist)
      ensures ok ==> flash.progress == Idle
      ensures flash.Pending() ==> old(flash.Pending())
      ensures !old(swflag) ==> !swflag
      ensures ok ==> 0 < words && offset + words <= SHADOW_RAM_WORDS && Seen().Some?
      ensures ok ==> data == Logical()[offset..offset + words]
      ensures old(Calm()) ==>
        Resting() && ok == (0 < words && offset + words <= SHADOW_RAM_WORDS && Seen().Some?)
    {
      ok, data := false, [];
      if offset >= SHADOW_RAM_WORDS || words > SHADOW_RAM_WORDS - offset || words == 0 {
        return;
      }
      ok := Acquire();
      if !ok {
        return;
      }
      var bank;
      ok, bank := DetectBank();
      if !ok {
        Release();
        return;
      }
      ok, data := ReadWords(bank, offset, words);
      Release();
    }

    // A read of one word.
    method ReadOneWord(i: nat) returns (ok: bool, w: u16)
      requires Valid()
      modifies this`swflag, this`tries, flash
      ensures Valid() && flash.hist == old(flash.hist) && (!old(swflag) ==> !swflag)
      ensures flash.Pending() ==> old(flash.Pending())
      ensures Seen() == old(Seen()) && (Seen().Some? ==> Logical() == old(Logical()))
      ensures ok ==> i < SHADOW_RAM_WORDS && Seen().Some? && flash.progress == Idle && w == Logical()[i]
      ensures old(Calm()) ==> Resting() && ok == (i < SHADOW_RAM_WORDS && Seen().Some?)
    {
      var data;
      ok, data := ReadNvm(i, 1);
      w := if ok then data[0] else 0;
    }

    // e1000_write_nvm_ich8lan
    method WriteNvm(offset: nat, data: seq<u16>) returns (ok: bool)
      requires Valid()
      modifies this`swflag, this`tries, shadow
      ensures Valid() && (!old(swflag) ==> !swflag)
      ensures !ok ==> shadow[..] == old(shadow[..])
      ensures ok ==> 0 < |data| && offset + |data| <= SHADOW_RAM_WORDS
      ensures ok ==> shadow[..] == Written(old(shadow[..]), offset, data)
      ensures old(Calm()) ==> Resting() && ok == (0 < |data| && offset + |data| <= SHADOW_RAM_WORDS)
    {
      ok := false;
      if offset >= SHADOW_RAM_WORDS || |data| > SHADOW_RAM_WORDS - offset || |data| == 0 {
        return;
      }
      ok := Acquire();
      if !ok {
        return;
      }
      var i := 0;
      while i < |data|
        invariant 0 <= i <= |data| && ok
        invariant forall k :: 0 <= k < SHADOW_RAM_WORDS ==>
          shadow[k] == if offset <= k < offset + i then ShadowWord(data[k - offset], true) else old(shadow[k])
      {
        shadow[offset + i] := ShadowWord(data[i], true);
        i := i + 1;
      }
      assert shadow[..] == Written(old(shadow[..]), offset, data);
      Release();
    }

    // The same, against what a reader sees.
    method ReadViewed(ghost l: seq<u16>, i: nat) returns (ok: bool, w: u16)
      requires Valid() && Views(l) && i < SHADOW_RAM_WORDS
      modifies this`swflag, this`tries, flash
      ensures Valid() && Views(l) && flash.hist == old(flash.hist) && (!old(swflag) ==> !swflag)
      ensures flash.Pending() ==> old(flash.Pending())
      ensures ok ==> |l| == SHADOW_RAM_WORDS && flash.progress == Idle && w == l[i]
      ensures old(Calm()) ==> Resting() && ok == (l != [])
    {
      ok, w := ReadOneWord(i);
    }

    // Adds word i to a running sum of the words before it.
    method AddWord(ghost l: seq<u16>, i: nat, sum: u16) returns (ok: bool, checksum: u16)
      requires Valid() && Views(l) && i < SHADOW_RAM_WORDS && (l != [] ==> sum == Sum(l, i))
      modifies this`swflag, this`tries, flash
      ensures Valid() && Views(l) && flash.hist == old(flash.hist) && (!old(swflag) ==> !swflag)
      ensures flash.Pending() ==> old(flash.Pending())
      ensures ok ==> l != [] && flash.progress == Idle && checksum == Sum(l, i + 1)
      ensures old(Calm()) ==> Resting() && ok == (l != [])
    {
      var word;
      ok, word := ReadViewed(l, i);
      checksum := Add(sum, word);
    }

    // The summing loop of the two generic checksum functions, over the first n words.
    method SumWords(n: nat) returns (ok: bool, checksum: u16)
      requires Valid() && 0 < n <= SHADOW_RAM_WORDS
      modifies this`swflag, this`tries, flash
      ensures Valid() && flash.hist == old(flash.hist) && (!old(swflag) ==> !swflag)
      ensures flash.Pending() ==> old(flash.Pending())
      ensures ok ==> Seen().Some? && flash.progress == Idle && checksum == Sum(Logical(), n)
      ensures old(Calm()) ==> Resting() && ok == Seen().Some?
    {
      hide Overlay, Selected;
      ghost var l := if Seen().Some? then Logical() else [];
      assert Views(l);
      checksum, ok := 0, true;
      var i := 0;
      while i < n
        invariant 0 <= i <= n && Valid() && Views(l) && flash.hist == old(flash.hist) && ok
        invariant flash.Pending() ==> old(flash.Pending())
        invariant !old(swflag) ==> !swflag
        invariant i > 0 ==> l != [] && flash.progress == Idle
        invariant (l == [] || |l| == SHADOW_RAM_WORDS) && (l != [] ==> checksum == Sum(l, i))
        invariant old(Calm()) ==> Resting()
      {
        ok, checksum := AddWord(l, i, checksum);
        if !ok {
          return;
        }
        i := i + 1;
      }
    }

    // e1000e_validate_nvm_checksum_generic
    method ValidateGeneric() returns (ok: bool)
      requires Valid()
      modifies this`swflag, this`tries, flash
      ensures Valid() && flash.hist == old(flash.hist) && (!old(swflag) ==> !swflag)
      ensures Seen() == old(Seen()) && (Seen().Some? ==> Logical() == old(Logical()))
      ensures flash.Pending() ==> old(flash.Pending())
      ensures ok ==> Seen().Some? && Sum(Logical(), CHECKSUM_REG + 1) == NVM_SUM
      ensures ok ==> Plain(Logical()[..0x40]) % 0x1_0000 == 0xBABA
      ensures old(Calm()) ==> Resting() && ok == (Seen().Some? && Sum(Logical(), CHECKSUM_REG + 1) == NVM_SUM)
    {
      var checksum;
      ok, checksum := SumWords(CHECKSUM_REG + 1);
      ok := ok && checksum == NVM_SUM;
      if ok {
        SumIsPlain(Logical(), 0x40);
      }
    }

    // e1000e_update_nvm_checksum_generic
    method UpdateGeneric() returns (ok: bool)
      requires Valid()
      modifies this`swflag, this`tries, flash, shadow
      ensures Valid() && flash.hist == old(flash.hist) && (!old(swflag) ==> !swflag)
      ensures flash.Pending() ==> old(flash.Pending())
      ensures !ok ==> shadow[..] == old(shadow[..])
      ensures ok ==> Seen().Some? && flash.progress == Idle
      ensures ok ==> shadow[..] == WithChecksum(Seen().value, old(shadow[..]))
      ensures old(Calm()) ==> Resting() && ok == Seen().Some?
    {
      var checksum;
      ok, checksum := SumWords(CHECKSUM_REG);
      if ok {
        ok := WriteNvm(CHECKSUM_REG, [Sub(NVM_SUM, checksum)]);
        assert ok ==> shadow[..] == WithChecksum(Seen().value, old(shadow[..]));
      }
    }

    // The erase that begins a commit: the other bank, which is one erase sector.
    method EraseBankFor(bank: nat) returns (ok: bool)
      requires Valid() && flash.OneSector(bankWords) && bank <= 1
      modifies flash
      ensures Valid() && old(flash.hist) <= flash.hist
      ensures ok ==> |flash.hist| > |old(flash.hist)|
      ensures |flash.hist| == |old(flash.hist)| && flash.Pending() ==> old(flash.Pending())
      ensures Within(flash.hist, |old(flash.hist)|, old(Mem()),
                     EraseSector(old(Mem()), BankStart(Geo(), bank), 2 * bankWords))
      ensures ok ==> Mem() == EraseSector(old(Mem()), BankStart(Geo(), bank), 2 * bankWords)
      ensures old(Calm()) ==> Resting() && ok
    {
      hide EraseRun, Trail, ErasedStep, Within, NoneSlow, NoTenBad, OneGood;
      ghost var outs, run;
      ok, outs, run := flash.EraseBank(bank, bankWords);
      OneSectorRun(BankStart(Geo(), bank), 2 * bankWords, outs);
      OneSectorTrail(flash.hist, old(flash.hist), run.issued, BankStart(Geo(), bank), 2 * bankWords);
    }

    // Programs byte j of a bank.
    method WriteBankByte(bank: nat, j: nat, v: u8) returns (ok: bool)
      requires Valid() && bank <= 1 && j < 2 * SHADOW_RAM_WORDS
      modifies flash
      ensures Valid() && old(flash.hist) <= flash.hist
      ensures Within(flash.hist, |old(flash.hist)|, old(Mem()), Program(old(Mem()), BankStart(Geo(), bank) + j, v))
      ensures ok ==> flash.progress == Idle && Mem() == Program(old(Mem()), BankStart(Geo(), bank) + j, v)
      ensures old(Calm()) ==> Resting() && ok
      ensures flash.Timely() && old(Resting()) ==> Resting() && ok == OneGood(flash.fails, old(flash.gos), 101 * 11)
    {
      var offset := (if bank == 0 then 0 else 2 * bankWords) + j;
      assert flash.base + offset == BankStart(Geo(), bank) + j;
      ok := flash.RetryWriteByte(offset, v);
    }

    // Programs word i of a bank, low byte first.
    method WriteBankWord(bank: nat, i: nat, w: u16) returns (ok: bool)
      requires Valid() && bank <= 1 && i < SHADOW_RAM_WORDS
      modifies flash
      ensures Valid() && old(flash.hist) <= flash.hist
      ensures Writing(Geo(), flash.hist, |old(flash.hist)|, old(Mem()), bank, i, w)
      ensures ok ==> Mem() == WordWritten(Geo(), old(Mem()), bank, i, w)
      ensures old(Calm()) ==> Resting() && ok
    {
      ok := WriteBankByte(bank, 2 * i, Lo(w));
      if ok {
        ghost var h := flash.hist;
        ok := WriteBankByte(bank, 2 * i + 1, Hi(w));
        WritingJoin(Geo(), h, flash.hist, |old(flash.hist)|, old(Mem()), bank, i, w);
      }
    }

    // One round of the copying loop: a word from the shadow or the old bank, signature bits held, goes to the new one.
    method CopyWord(ghost l: seq<u16>, old_: nat, i: nat) returns (ok: bool)
      requires Valid() && Views(l) && |l| == SHADOW_RAM_WORDS && i < SHADOW_RAM_WORDS
      requires Detect(Geo(), Mem()) == Some(old_)
      modifies flash
      ensures Valid() && old(flash.hist) <= flash.hist
      ensures Writing(Geo(), flash.hist, |old(flash.hist)|, old(Mem()), 1 - old_, i, HeldAt(l, i))
      ensures ok ==> Mem() == WordWritten(Geo(), old(Mem()), 1 - old_, i, HeldAt(l, i))
      ensures old(Calm()) ==> Resting() && ok
    {
      var data;
      ok, data := ReadWord(old_, i);
      assert Mem() == old(Mem());
      if ok {
        if i == SIG_WORD {
          data := Held(data);
        }
        ok := WriteBankWord(1 - old_, i, data);
      }
    }

    // The copying loop of e1000_update_nvm_checksum_ich8lan: the shadow over the old bank goes to the erased
    // new bank, signature held.
    method CopyMerged(ghost m0: Mem, ghost img: seq<u16>, old_: nat) returns (ok: bool)
      requires Valid() && old_ <= 1 && Fits(Geo(), |m0|)
      requires Detect(Geo(), m0) == Some(old_) && Selected(Geo(), m0) == Some(img)
      requires FilledWords(Geo(), m0, Mem(), 1 - old_, HeldImage(img, shadow[..]), 0)
      modifies flash
      ensures Valid() && old(flash.hist) <= flash.hist
      ensures EachInactive(Geo(), m0, flash.hist, |old(flash.hist)|, 1 - old_)
      ensures ok ==> FilledWords(Geo(), m0, Mem(), 1 - old_, HeldImage(img, shadow[..]), SHADOW_RAM_WORDS)
      ensures old(Calm()) ==> Resting() && ok
    {
      hide Selected, Image, Overlay, Detect, Signed, FilledWords, Inactive, Writing, WordWritten, HeldSig;
      ghost var l, t := Overlay(img, shadow[..]), HeldImage(img, shadow[..]);
      HeldImageHeld(img, shadow[..]);
      var i := 0;
      ok := true;
      while i < SHADOW_RAM_WORDS && ok
        invariant 0 <= i <= SHADOW_RAM_WORDS
        invariant Valid() && old(flash.hist) <= flash.hist && l == Overlay(img, shadow[..])
        invariant EachInactive(Geo(), m0, flash.hist, |old(flash.hist)|, 1 - old_)
        invariant ok ==> FilledWords(Geo(), m0, Mem(), 1 - old_, t, i)
        invariant old(Calm()) ==> Resting() && ok
        decreases SHADOW_RAM_WORDS - i, ok
      {
        ghost var h, m := flash.hist, Mem();
        Undisturbed(Geo(), m0, m, old_, t, i);
        assert Views(l);
        ok := CopyWord(l, old_, i);
        CopiedWord(Geo(), m0, m, flash.hist, |h|, 1 - old_, t, i);
        EachInactiveJoin(Geo(), m0, h, flash.hist, |old(flash.hist)|, 1 - old_);
        i := i + 1;
      }
    }

    // Programs the signature byte of a bank.
    method WriteSigByte(bank: nat, v: u8) returns (ok: bool)
      requires Valid() && bank <= 1
      modifies flash
      ensures Valid() && old(flash.hist) <= flash.hist
      ensures Within(flash.hist, |old(flash.hist)|, old(Mem()), Program(old(Mem()), SigAddr(Geo(), bank), v))
      ensures ok ==> flash.progress == Idle && Mem() == Program(old(Mem()), SigAddr(Geo(), bank), v)
      ensures old(Calm()) ==> Resting() && ok
    {
      ok := WriteBankByte(bank, 2 * SIG_WORD + 1, v);
    }

    // A signature write that takes the selection from one image to another, or leaves it, and nothing in between.
    method SwitchBySig(bank: nat, v: u8, ghost img: seq<u16>, ghost after: seq<u16>) returns (ok: bool)
      requires Valid() && bank <= 1 && Selected(Geo(), Mem()) == Some(img)
      requires Selected(Geo(), Program(Mem(), SigAddr(Geo(), bank), v)) == Some(after)
      modifies flash
      ensures Valid() && old(flash.hist) <= flash.hist
      ensures EachSelects(Geo(), flash.hist, |old(flash.hist)|, img, after)
      ensures ok ==> flash.progress == Idle && Mem() == Program(old(Mem()), SigAddr(Geo(), bank), v)
      ensures ok ==> Seen() == Some(after)
      ensures old(Calm()) ==> Resting() && ok
    {
      ghost var m := Mem();
      ok := WriteSigByte(bank, v);
      WithinSelects(Geo(), flash.hist, |old(flash.hist)|, m, Program(m, SigAddr(Geo(), bank), v), img, after);
    }

    // The validate write of a commit: bit 14 of the new signature goes to 0.
    method SignNewBank(ghost m0: Mem, ghost img: seq<u16>, ghost t: seq<u16>, old_: nat) returns (ok: bool)
      requires Valid() && old_ <= 1 && Fits(Geo(), |m0|) && |t| == SHADOW_RAM_WORDS && HeldSig(t)
      requires Detect(Geo(), m0) == Some(old_) && Selected(Geo(), m0) == Some(img)
      requires FilledWords(Geo(), m0, Mem(), 1 - old_, t, SHADOW_RAM_WORDS)
      modifies flash
      ensures Valid() && old(flash.hist) <= flash.hist
      // The old image stays selected when it is in bank 0.
      ensures EachSelects(Geo(), flash.hist, |old(flash.hist)|, img, if old_ == 1 then ReleasedImage(t) else img)
      ensures ok ==> Signed(Geo(), Mem(), 1 - old_) && Image(Geo(), Mem(), 1 - old_) == ReleasedImage(t)
      ensures ok ==> Seen() == Some(if old_ == 1 then ReleasedImage(t) else img)
      ensures old(Calm()) ==> Resting() && ok
    {
      hide Selected, Image, ReleasedImage, Detect, Signed;
      BeforeSigning(Geo(), m0, Mem(), old_, img, t);
      ValidatedSelects(Geo(), m0, Mem(), old_, img, t);
      ok := ReleaseSig(1 - old_, t[SIG_WORD], img, if old_ == 1 then ReleasedImage(t) else img);
    }

    // Reads the signature word, which is w, and clears its bit 14.
    method ReleaseSig(bank: nat, ghost w: u16, ghost img: seq<u16>, ghost after: seq<u16>) returns (ok: bool)
      requires Valid() && bank <= 1 && WordAt(Geo(), Mem(), bank, SIG_WORD) == w
      requires Selected(Geo(), Mem()) == Some(img)
      requires Selected(Geo(), Program(Mem(), SigAddr(Geo(), bank), Hi(Released(w)))) == Some(after)
      modifies flash
      ensures Valid() && old(flash.hist) <= flash.hist
      ensures EachSelects(Geo(), flash.hist, |old(flash.hist)|, img, after)
      ensures ok ==> Mem() == Program(old(Mem()), SigAddr(Geo(), bank), Hi(Released(w))) && Seen() == Some(after)
      ensures old(Calm()) ==> Resting() && ok
    {
      var data;
      ok, data := ReadFlashWord(bank, SIG_WORD);
      assert Mem() == old(Mem());
      if ok {
        ok := SwitchBySig(bank, Hi(Released(data)), img, after);
      }
    }

    // The invalidate write of a commit: the signature byte of the old bank goes to 0.
    method UnsignOldBank(old_: nat) returns (ok: bool)
      requires Valid() && old_ <= 1 && Signed(Geo(), Mem(), 1 - old_)
      modifies flash
      ensures Valid() && old(flash.hist) <= flash.hist
      ensures ok ==> flash.progress == Idle
      ensures EachSelects(Geo(), flash.hist, |old(flash.hist)|,
                          old(Seen().value), old(Image(Geo(), Mem(), 1 - old_)))
      ensures ok ==> Seen() == Some(old(Image(Geo(), Mem(), 1 - old_)))
      ensures old(Calm()) ==> Resting() && ok
    {
      InvalidatedSelects(Geo(), Mem(), old_);
      ok := WriteSigByte(old_, 0);
    }

    // The two writes that end a commit.
    method SwitchBanks(ghost m0: Mem, ghost img: seq<u16>, ghost t: seq<u16>, old_: nat) returns (ok: bool)
      requires Valid() && old_ <= 1 && Fits(Geo(), |m0|) && |t| == SHADOW_RAM_WORDS && HeldSig(t)
      requires Detect(Geo(), m0) == Some(old_) && Selected(Geo(), m0) == Some(img)
      requires FilledWords(Geo(), m0, Mem(), 1 - old_, t, SHADOW_RAM_WORDS)
      modifies flash
      ensures Valid() && old(flash.hist) <= flash.hist
      ensures ok ==> flash.progress == Idle
      ensures EachSelects(Geo(), flash.hist, |old(flash.hist)|, img, ReleasedImage(t))
      ensures ok ==> Seen() == Some(ReleasedImage(t))
      ensures old(Calm()) ==> Resting() && ok
    {
      ok := SignNewBank(m0, img, t, old_);
      if ok {
        ghost var h := flash.hist;
        ok := UnsignOldBank(old_);
        EachSelectsJoin(Geo(), h, flash.hist, |old(flash.hist)|, img, ReleasedImage(t));
      }
    }

    // The first part of a commit: find the valid bank, erase the other one and copy the merged image to it.
    method FillOtherBank(ghost img: seq<u16>) returns (ok: bool, bank: nat)
      requires Valid() && flash.OneSector(bankWords) && Seen() == Some(img)
      modifies flash
      ensures Valid() && old(flash.hist) <= flash.hist && bank <= 1
      ensures ok ==> |flash.hist| > |old(flash.hist)|
      ensures |flash.hist| == |old(flash.hist)| && flash.Pending() ==> old(flash.Pending())
      ensures EachSelects(Geo(), flash.hist, |old(flash.hist)|, img, img)
      ensures ok ==>
        && Detect(Geo(), old(Mem())) == Some(bank)
        && FilledWords(Geo(), old(Mem()), Mem(), 1 - bank, HeldImage(img, shadow[..]), SHADOW_RAM_WORDS)
      ensures old(Calm()) ==> Resting() && ok
    {
      hide Image, Overlay, Detect, FilledWords, Inactive, HeldSig;
      ghost var m0, t := Mem(), HeldImage(img, shadow[..]);
      HeldImageHeld(img, shadow[..]);
      ok, bank := DetectBank();
      if !ok {
        return;
      }
      ok := EraseBankFor(1 - bank);
      ErasedSelects(Geo(), m0, flash.hist, |old(flash.hist)|, bank, img, t);
      if !ok {
        return;
      }
      ErasedIsFilled(Geo(), m0, 1 - bank, t);
      ghost var h := flash.hist;
      ok := CopyMerged(m0, img, bank);
      InactiveEachSelects(Geo(), m0, flash.hist, |h|, bank, img);
      EachSelectsJoin(Geo(), h, flash.hist, |old(flash.hist)|, img, img);
    }

    // The commit proper, once the checksum word is in the shadow: the flash work of
    // e1000_update_nvm_checksum_ich8lan.
    method CommitBank(ghost img: seq<u16>) returns (ok: bool)
      requires Valid() && flash.OneSector(bankWords) && Seen() == Some(img)
      modifies flash
      ensures Valid() && old(flash.hist) <= flash.hist
      ensures ok ==> flash.progress == Idle
      ensures |flash.hist| == |old(flash.hist)| && flash.Pending() ==> old(flash.Pending())
      ensures EachSelects(Geo(), flash.hist, |old(flash.hist)|, img, NewImage(img, shadow[..]))
      ensures ok ==> Seen() == Some(NewImage(img, shadow[..]))
      ensures old(Calm()) ==> Resting() && ok
    {
      ghost var m0 := Mem();
      ghost var t := HeldImage(img, shadow[..]);
      HeldImageHeld(img, shadow[..]);
      var bank;
      ok, bank := FillOtherBank(img);
      if ok {
        ghost var h := flash.hist;
        ok := SwitchBanks(m0, img, t, bank);
        EachSelectsJoin(Geo(), h, flash.hist, |old(flash.hist)|, img, NewImage(img, shadow[..]));
      }
    }

    // The last loop of a commit: nothing is pending any more.
    method ClearShadow()
      requires Valid()
      modifies shadow
      ensures Valid() && shadow[..] == EmptyShadow()
    {
      var i := 0;
      while i < SHADOW_RAM_WORDS
        invariant 0 <= i <= SHADOW_RAM_WORDS
        invariant forall k :: 0 <= k < i ==> shadow[k] == ShadowWord(0xFFFF, false)
      {
        shadow[i] := ShadowWord(0xFFFF, false);
        i := i + 1;
      }
      assert shadow[..] == EmptyShadow();
    }

    // e1000_update_nvm_checksum_ich8lan after the generic checksum update.
    method CommitShadow(ghost img: seq<u16>) returns (ok: bool)
      requires Valid() && flash.OneSector(bankWords) && Seen() == Some(img)
      modifies this`swflag, this`tries, flash, shadow
      ensures Valid() && !swflag
      ensures |flash.hist| == |old(flash.hist)| && flash.Pending() ==> old(flash.Pending())
      ensures Committed(Geo(), old(flash.hist), flash.hist, img, old(shadow[..]), ok)
      ensures shadow[..] == if ok then EmptyShadow() else old(shadow[..])
      ensures ok ==> !flash.Pending()
      ensures old(Calm()) ==> Resting() && ok
    {
      ok := Acquire();
      if !ok {
        return;
      }
      ok := CommitBank(img);
      assert shadow[..] == old(shadow[..]);
      if ok {
        ClearShadow();
      }
      Release();
    }

    // e1000_update_nvm_checksum_ich8lan.  'written' tells whether the checksum word reached the shadow.
    method UpdateChecksum() returns (ok: bool, ghost written: bool)
      requires Valid() && flash.OneSector(bankWords)
      modifies this`swflag, this`tries, flash, shadow
      ensures Valid() && (!old(swflag) ==> !swflag)
      ensures ok ==> written
      ensures !written ==> flash.hist == old(flash.hist) && shadow[..] == old(shadow[..])
      ensures written ==> old(Seen()).Some?
      // Whatever fails, and wherever the power is cut, the flash selects the old image or the complete new one.
      ensures written ==>
        Committed(Geo(), old(flash.hist), flash.hist, old(Seen().value),
                  WithChecksum(old(Seen().value), old(shadow[..])), ok)
      ensures written ==>
        shadow[..] == if ok then EmptyShadow() else WithChecksum(old(Seen().value), old(shadow[..]))
      ensures |flash.hist| == |old(flash.hist)| && flash.Pending() ==> old(flash.Pending())
      ensures ok ==> !flash.Pending()
      ensures old(Calm()) ==> Resting() && ok == old(Seen()).Some?
    {
      ok := UpdateGeneric();
      written := ok;
      if ok {
        ok := CommitShadow(Seen().value);
      }
    }

    // What a reader of the NVM gets from a commit, for every outcome of every flash operation: the same words
    // as before, but for the checksum word and, after a success, the forced signature bits.
    method UpdateForReader() returns (ok: bool)
      requires Valid() && flash.OneSector(bankWords) && Seen().Some?
      modifies this`swflag, this`tries, flash, shadow
      ensures Valid() && Seen().Some?
      ensures forall i :: 0 <= i < SHADOW_RAM_WORDS && i != CHECKSUM_REG && i != SIG_WORD ==>
        Logical()[i] == old(Logical())[i]
      ensures !ok || SigBits(old(Logical())[SIG_WORD]) <==> Logical()[SIG_WORD] == old(Logical())[SIG_WORD]
      ensures ok ==> shadow[..] == EmptyShadow() && !flash.Pending()
      ensures ok ==> Seen() == Some(NewImage(old(Seen().value), WithChecksum(old(Seen().value), old(shadow[..]))))
      ensures ok ==> (Sum(Logical(), CHECKSUM_REG + 1) == NVM_SUM <==> SigBits(old(Logical())[SIG_WORD]))
      ensures old(Calm()) ==> Resting() && ok
    {
      ghost var img, sh := Seen().value, shadow[..];
      SelectedIsSigned(Geo(), Mem());
      ghost var written;
      ok, written := UpdateChecksum();
      CommitForReader(img, sh);
      if ok {
        assert Logical() == NewImage(img, WithChecksum(img, sh));
      } else if written {
        assert Logical() == Overlay(img, WithChecksum(img, sh));
      }
    }

    // The repair inside e1000_validate_nvm_checksum_ich8lan: word 0x19 becomes 'w' and everything is committed.
    method FixChecksum(w: u16) returns (ok: bool, ghost trail: Repair)
      requires Valid() && flash.OneSector(bankWords) && Seen().Some?
      modifies this`swflag, this`tries, flash, shadow
      ensures Valid() && (!old(swflag) ==> !swflag)
      ensures Repairs(trail, Geo(), old(flash.hist), flash.hist, old(shadow[..]), shadow[..])
      ensures |flash.hist| == |old(flash.hist)| && flash.Pending() ==> old(flash.Pending())
      ensures trail.Tried? ==> trail.w == w && trail.ok == ok
      ensures ok ==> trail.Tried? && !flash.Pending()
      ensures old(Calm()) ==> Resting() && ok
    {
      trail := Untouched;
      ok := WriteNvm(FIX_WORD, [w]);
      if ok {
        ghost var written;
        ok, written := UpdateChecksum();
        trail := Tried(w, written, ok);
      }
    }

    // The first half of e1000_validate_nvm_checksum_ich8lan: look at word 0x19 and repair it if need be.
    method RepairIfNeeded() returns (ok: bool, ghost trail: Repair)
      requires Valid() && flash.OneSector(bankWords)
      modifies this`swflag, this`tries, flash, shadow
      ensures Valid() && (!old(swflag) ==> !swflag)
      ensures Repairs(trail, Geo(), old(flash.hist), flash.hist, old(shadow[..]), shadow[..])
      ensures |flash.hist| == |old(flash.hist)| && flash.Pending() ==> old(flash.Pending())
      ensures old(Seen()).None? ==> !ok && trail == Untouched
      ensures old(Seen()).Some? && Bit6(old(Logical())[FIX_WORD]) ==> trail == Untouched
      ensures trail.Tried? ==> trail.ok == ok && (ok ==> !flash.Pending())
      ensures trail.Tried? ==> old(Seen()).Some? && trail.w == SetBit6(old(Logical())[FIX_WORD])
      ensures ok && old(Seen()).Some? && !Bit6(old(Logical())[FIX_WORD]) ==> trail.Tried?
      ensures old(Calm()) && old(Seen()).Some? ==> Resting() && ok
    {
      trail := Untouched;
      var word;
      ok, word := ReadOneWord(FIX_WORD);
      if ok && !Bit6(word) {
        ok, trail := FixChecksum(SetBit6(word));
      }
    }

    // e1000_validate_nvm_checksum_ich8lan
    method ValidateChecksum() returns (ok: bool, ghost trail: Repair)
      requires Valid() && flash.OneSector(bankWords)
      modifies this`swflag, this`tries, flash, shadow
      ensures Valid() && (!old(swflag) ==> !swflag)
      ensures ok ==> Seen().Some? && Sum(Logical(), CHECKSUM_REG + 1) == NVM_SUM
      // Nothing is written when there is no valid bank or bit 6 of word 0x19 is already set, and else nothing but a
      // repair of that word and its commit.
      ensures Repairs(trail, Geo(), old(flash.hist), flash.hist, old(shadow[..]), shadow[..])
      ensures old(Seen()).None? ==> !ok && trail == Untouched
      ensures old(Seen()).Some? && Bit6(old(Logical())[FIX_WORD]) ==> trail == Untouched
      ensures trail.Tried? ==> old(Seen()).Some? && trail.w == SetBit6(old(Logical())[FIX_WORD])
      ensures |flash.hist| == |old(flash.hist)| && flash.Pending() ==> old(flash.Pending())
      ensures trail.Tried? && trail.ok ==> !flash.Pending()
      ensures ok && !Bit6(old(Logical())[FIX_WORD]) ==> trail.Tried? && trail.ok
      // Whatever fails, a reader sees the same words but for bit 6 of word 0x19 and what a commit settles.
      ensures old(Seen()).Some? ==> Seen().Some? && ReadsRepaired(old(Logical()), Logical())
      // When nothing goes wrong the image alone settles the outcome, and leaves nothing for a second call to repair.
      ensures old(Calm()) && old(Seen()).Some? ==>
        && Resting() && Seen().Some? && Bit6(Logical()[FIX_WORD])
        && ok == if Bit6(old(Logical())[FIX_WORD]) then Sum(old(Logical()), CHECKSUM_REG + 1) == NVM_SUM
                 else SigBits(old(Logical())[SIG_WORD])
    {
      hide Repairs, SetBit6, Bit6, SigBits, ReadsRepaired, EachSelects, Overlay, Sum, EmptyShadow, Repaired;
      ghost var h, sh := flash.hist, shadow[..];
      ok, trail := RepairIfNeeded();
      if Selected(Geo(), h[|h| - 1]).Some? {
        TrailReads(trail, Geo(), h, flash.hist, sh, shadow[..]);
      }
      if trail.Tried? {
        RepairOutcome(trail, Geo(), h, flash.hist, sh, shadow[..]);
      }
      if ok {
        ok := ValidateGeneric();
      }
    }
  }

  // What a repair leaves: throughout, the flash selects the old image or the repaired one; after a success the repaired
  // one, which has bit 6 set and sums up exactly when the signature was valid.
  lemma RepairOutcome(trail: Repair, g: Geometry, h: seq<Mem>, h2: seq<Mem>, sh: seq<ShadowWord>, sh2: seq<ShadowWord>)
    requires |h| > 0 && |h2| > 0 && |sh| == |sh2| == SHADOW_RAM_WORDS
    requires trail.Tried? && Repairs(trail, g, h, h2, sh, sh2)
    requires Selected(g, h[|h| - 1]).Some?
    requires trail.w == SetBit6(Overlay(Selected(g, h[|h| - 1]).value, sh)[FIX_WORD])
    ensures var img := Selected(g, h[|h| - 1]).value;
      && h <= h2 && EachSelects(g, h2, |h|, img, Repaired(img, sh))
      && (trail.ok ==> Selected(g, h2[|h2| - 1]) == Some(Repaired(img, sh)) && sh2 == EmptyShadow())
    ensures var img := Selected(g, h[|h| - 1]).value;
      trail.ok ==>
        && Overlay(Repaired(img, sh), sh2) == Repaired(img, sh) && Bit6(Repaired(img, sh)[FIX_WORD])
        && (Sum(Repaired(img, sh), CHECKSUM_REG + 1) == NVM_SUM <==> SigBits(Overlay(img, sh)[SIG_WORD]))
  {
    RepairedImage(Selected(g, h[|h| - 1]).value, sh);
  }

  // What a reader sees after a repair, however it ended.
  lemma TrailReads(trail: Repair, g: Geometry, h: seq<Mem>, h2: seq<Mem>, sh: seq<ShadowWord>, sh2: seq<ShadowWord>)
    requires |h| > 0 && |h2| > 0 && |sh| == |sh2| == SHADOW_RAM_WORDS && Repairs(trail, g, h, h2, sh, sh2)
    requires Selected(g, h[|h| - 1]).Some?
    requires trail.Tried? ==> trail.w == SetBit6(Overlay(Selected(g, h[|h| - 1]).value, sh)[FIX_WORD])
    ensures Selected(g, h2[|h2| - 1]).Some?
    ensures ReadsRepaired(Overlay(Selected(g, h[|h| - 1]).value, sh), Overlay(Selected(g, h2[|h2| - 1]).value, sh2))
  {
    var img := Selected(g, h[|h| - 1]).value;
    SelectedIsSigned(g, h[|h| - 1]);
    if trail.Tried? {
      hide Selected, SetBit6, SigBits, WithChecksum, NewImage;
      var sh1 := Written(sh, FIX_WORD, [trail.w]);
      WrittenReads(img, sh, trail.w);
      if trail.written {
        CommitReads(img, sh1);
        LastSelects(g, h, h2, img, sh1, trail.ok);
        CombineReads(Overlay(img, sh), Overlay(img, sh1), Overlay(Selected(g, h2[|h2| - 1]).value, sh2));
      }
    }
  }

  lemma WrittenReads(img: seq<u16>, sh: seq<ShadowWord>, w: u16)
    requires |img| == |sh| == SHADOW_RAM_WORDS && w == SetBit6(Overlay(img, sh)[FIX_WORD])
    ensures ReadsRepaired(Overlay(img, sh), Overlay(img, Written(sh, FIX_WORD, [w])))
  {
  }

  // A commit changes word 0x3F and the signature bits at most.
  ghost predicate ReadsCommitted(l: seq<u16>, l2: seq<u16>)
    requires |l| == |l2| == SHADOW_RAM_WORDS
  {
    && (forall i :: 0 <= i < SHADOW_RAM_WORDS && i != 0x3F && i != 0x13 ==> l2[i] == l[i])
    && l2[0x13] % 0x4000 == l[0x13] % 0x4000 && (l[0x13] / 0x4000 == 2 ==> l2[0x13] == l[0x13])
  }

  lemma CommitReads(img: seq<u16>, sh: seq<ShadowWord>)
    requires |img| == |sh| == SHADOW_RAM_WORDS && SigBits(img[SIG_WORD])
    ensures var c := WithChecksum(img, sh);
      && ReadsCommitted(Overlay(img, sh), Overlay(img, c))
      && ReadsCommitted(Overlay(img, sh), Overlay(NewImage(img, c), c))
      && ReadsCommitted(Overlay(img, sh), Overlay(NewImage(img, c), EmptyShadow()))
  {
    NewReads(img, sh);
    ReadsAlike(img, WithChecksum(img, sh));
    ReadsAlikeWhenSigned(img, WithChecksum(img, sh));
  }

  // The same for the new image itself, whatever the old one is.
  lemma NewReads(img: seq<u16>, sh: seq<ShadowWord>)
    requires |img| == |sh| == SHADOW_RAM_WORDS
    ensures ReadsCommitted(Overlay(img, sh), NewImage(img, WithChecksum(img, sh)))
  {
    var w := Overlay(img, sh)[SIG_WORD];
    LowBitsKept(w);
    ForcedSig(w);
    ChecksumWordOnly(img, sh, SIG_WORD);
    forall i | 0 <= i < SHADOW_RAM_WORDS && i != CHECKSUM_REG && i != SIG_WORD
      ensures NewImage(img, WithChecksum(img, sh))[i] == Overlay(img, sh)[i]
    {
      ChecksumWordOnly(img, sh, i);
    }
  }

  lemma LowBitsKept(w: u16)
    ensures Released(Held(w)) % 0x4000 == w % 0x4000
  {
  }

  // After a tried commit the flash selects the old image or the new one, and the shadow is kept unless it succeeded.
  lemma LastSelects(g: Geometry, h: seq<Mem>, h2: seq<Mem>, img: seq<u16>, sh: seq<ShadowWord>, ok: bool)
    requires |h| > 0 && |h2| > 0 && |img| == |sh| == SHADOW_RAM_WORDS && Selected(g, h[|h| - 1]) == Some(img)
    requires Committed(g, h, h2, img, WithChecksum(img, sh), ok)
    ensures var new_ := NewImage(img, WithChecksum(img, sh));
      var last := Selected(g, h2[|h2| - 1]);
      (last == Some(img) || last == Some(new_)) && (ok ==> last == Some(new_))
  {
    hide Selected, NewImage, WithChecksum;
    if |h2| == |h| {
      assert h2 == h;
    }
  }

  lemma CombineReads(l: seq<u16>, l1: seq<u16>, l2: seq<u16>)
    requires |l| == |l1| == |l2| == SHADOW_RAM_WORDS && ReadsRepaired(l, l1) && ReadsCommitted(l1, l2)
    requires l1[0x13] == l[0x13]
    ensures ReadsRepaired(l, l2)
  {
  }

  function Written(shadow: seq<ShadowWord>, offset: nat, data: seq<u16>): (r: seq<ShadowWord>)
    requires offset + |data| <= |shadow|
    ensures |r| == |shadow|
  {
    seq(|shadow|, i requires 0 <= i < |shadow| =>
      if offset <= i < offset + |data| then ShadowWord(data[i - offset], true) else shadow[i])
  }

  // The bank while its word i is being programmed.
  ghost predicate Writing(g: Geometry, h: seq<Mem>, n: nat, m: Mem, bank: nat, i: nat, w: u16) {
    forall k :: n <= k < |h| ==>
      h[k] == m || h[k] == LowWritten(g, m, bank, i, w) || h[k] == WordWritten(g, m, bank, i, w)
  }

  lemma WritingJoin(g: Geometry, h: seq<Mem>, h2: seq<Mem>, n: nat, m: Mem, bank: nat, i: nat, w: u16)
    requires n <= |h| && h <= h2 && Within(h, n, m, LowWritten(g, m, bank, i, w))
    requires Within(h2, |h|, LowWritten(g, m, bank, i, w), WordWritten(g, m, bank, i, w))
    ensures Writing(g, h2, n, m, bank, i, w)
  {
    forall k | n <= k < |h2|
      ensures h2[k] == m || h2[k] == LowWritten(g, m, bank, i, w) || h2[k] == WordWritten(g, m, bank, i, w)
    {
      if k < |h| {
        assert h2[k] == h[k];
      }
    }
  }

  // A bank partly filled with a held image leaves detection and selection as they were.
  lemma Undisturbed(g: Geometry, m0: Mem, m: Mem, old_: nat, t: seq<u16>, i: nat)
    requires Fits(g, |m0|) && old_ <= 1 && |t| == SHADOW_RAM_WORDS && i <= SHADOW_RAM_WORDS && HeldSig(t)
    requires Detect(g, m0) == Some(old_) && FilledWords(g, m0, m, 1 - old_, t, i)
    ensures |m| == |m0| && Detect(g, m) == Some(old_) && Selected(g, m) == Selected(g, m0)
  {
    FilledWordsInactive(g, m0, m, 1 - old_, t, i);
    InactiveSelects(g, m0, m, 1 - old_);
  }

  // Programming the next word of the image keeps the bank inactive throughout and fills it by that word.
  lemma CopiedWord(g: Geometry, m0: Mem, m: Mem, h: seq<Mem>, n: nat, new_: nat, t: seq<u16>, i: nat)
    requires Fits(g, |m0|) && new_ <= 1 && |t| == SHADOW_RAM_WORDS && i < SHADOW_RAM_WORDS && HeldSig(t)
    requires FilledWords(g, m0, m, new_, t, i) && Writing(g, h, n, m, new_, i, t[i])
    ensures EachInactive(g, m0, h, n, new_)
    ensures FilledWords(g, m0, WordWritten(g, m, new_, i, t[i]), new_, t, i + 1)
  {
    var m1, m2 := LowWritten(g, m, new_, i, t[i]), WordWritten(g, m, new_, i, t[i]);
    BytesOfWord(t, i);
    FillOne(g, m0, m, new_, t, 2 * i);
    FillOne(g, m0, m1, new_, t, 2 * i + 1);
    FilledIsInactive(g, m0, m, new_, t, 2 * i);
    FilledIsInactive(g, m0, m1, new_, t, 2 * i + 1);
    FilledIsInactive(g, m0, m2, new_, t, 2 * i + 2);
  }

  lemma EachInactiveJoin(g: Geometry, m0: Mem, h: seq<Mem>, h2: seq<Mem>, n: nat, new_: nat)
    requires Fits(g, |m0|) && n <= |h| && h <= h2
    requires EachInactive(g, m0, h, n, new_) && EachInactive(g, m0, h2, |h|, new_)
    ensures EachInactive(g, m0, h2, n, new_)
  {
    forall k | n <= k < |h2| ensures Inactive(g, m0, h2[k], new_) {
      if k < |h| {
        assert h2[k] == h[k];
      }
    }
  }

  lemma EachSelectsJoin(g: Geometry, h: seq<Mem>, h2: seq<Mem>, n: nat, a: seq<u16>, b: seq<u16>)
    requires n <= |h| && h <= h2
    requires EachSelects(g, h, n, a, b) && EachSelects(g, h2, |h|, a, b)
    ensures EachSelects(g, h2, n, a, b)
  {
    forall k | n <= k < |h2| ensures Selected(g, h2[k]) == Some(a) || Selected(g, h2[k]) == Some(b) {
      if k < |h| {
        assert h2[k] == h[k];
      }
    }
  }

  lemma WithinSelects(g: Geometry, h: seq<Mem>, n: nat, m: Mem, m2: Mem, a: seq<u16>, b: seq<u16>)
    requires Within(h, n, m, m2)
    requires Selected(g, m) == Some(a) && Selected(g, m2) == Some(b)
    ensures EachSelects(g, h, n, a, b)
  {
  }

  lemma InactiveEachSelects(g: Geometry, m0: Mem, h: seq<Mem>, n: nat, old_: nat, img: seq<u16>)
    requires Fits(g, |m0|) && old_ <= 1 && Detect(g, m0) == Some(old_) && Selected(g, m0) == Some(img)
    requires EachInactive(g, m0, h, n, 1 - old_)
    ensures EachSelects(g, h, n, img, img)
  {
    forall k | n <= k < |h| ensures Selected(g, h[k]) == Some(img) {
      InactiveSelects(g, m0, h[k], 1 - old_);
    }
  }

  lemma ErasedSelects(g: Geometry, m0: Mem, h: seq<Mem>, n: nat, old_: nat, img: seq<u16>, t: seq<u16>)
    requires Fits(g, |m0|) && old_ <= 1 && Detect(g, m0) == Some(old_) && Selected(g, m0) == Some(img)
    requires |t| == SHADOW_RAM_WORDS && HeldSig(t)
    requires Within(h, n, m0, EraseSector(m0, BankStart(g, 1 - old_), 2 * g.bankWords))
    ensures EachSelects(g, h, n, img, img)
  {
    var e := EraseSector(m0, BankStart(g, 1 - old_), 2 * g.bankWords);
    ErasedIsFilled(g, m0, 1 - old_, t);
    FilledIsInactive(g, m0, e, 1 - old_, t, 0);
    InactiveSelects(g, m0, e, 1 - old_);
  }

  // --- What a commit means for a reader ------------------------------------------------------------

  // While the shadow is kept, the old image and the new one read the same through it.
  lemma ReadsAlike(img: seq<u16>, shadow: seq<ShadowWord>)
    requires |img| == |shadow| == SHADOW_RAM_WORDS && SigBits(img[SIG_WORD])
    ensures Overlay(NewImage(img, shadow), shadow) == Overlay(img, shadow)
  {
    ForcedSig(img[SIG_WORD]);
  }

  // Once the shadow is cleared, the new image reads as before exactly when the merged signature was valid.
  lemma ReadsAlikeWhenSigned(img: seq<u16>, shadow: seq<ShadowWord>)
    requires |img| == |shadow| == SHADOW_RAM_WORDS
    ensures Overlay(NewImage(img, shadow), EmptyShadow()) == NewImage(img, shadow)
    ensures NewImage(img, shadow) == Overlay(img, shadow) <==> SigBits(Overlay(img, shadow)[SIG_WORD])
  {
    ForcedSig(Overlay(img, shadow)[SIG_WORD]);
  }

  // Both ways a commit can end, as a reader sees them.
  lemma CommitForReader(img: seq<u16>, shadow: seq<ShadowWord>)
    requires |img| == |shadow| == SHADOW_RAM_WORDS && SigBits(img[SIG_WORD])
    ensures var sh := WithChecksum(img, shadow);
      && Overlay(NewImage(img, sh), sh) == Overlay(img, sh)
      && Overlay(NewImage(img, sh), EmptyShadow()) == NewImage(img, sh)
    ensures var n := NewImage(img, WithChecksum(img, shadow));
      && (forall i :: 0 <= i < SHADOW_RAM_WORDS && i != CHECKSUM_REG && i != SIG_WORD ==>
            n[i] == Overlay(img, shadow)[i])
      && (n[SIG_WORD] == Overlay(img, shadow)[SIG_WORD] <==> SigBits(Overlay(img, shadow)[SIG_WORD]))
      && (Sum(n, CHECKSUM_REG + 1) == NVM_SUM <==> SigBits(Overlay(img, shadow)[SIG_WORD]))
  {
    var sh := WithChecksum(img, shadow);
    ReadsAlike(img, sh);
    ReadsAlikeWhenSigned(img, sh);
    CommittedSum(img, shadow);
    ForcedSig(Overlay(img, shadow)[SIG_WORD]);
  }

  // The checksum word changes no other word.
  lemma ChecksumWordOnly(img: seq<u16>, shadow: seq<ShadowWord>, i: nat)
    requires |img| == |shadow| == SHADOW_RAM_WORDS && i < SHADOW_RAM_WORDS && i != CHECKSUM_REG
    ensures Overlay(img, WithChecksum(img, shadow))[i] == Overlay(img, shadow)[i]
  {
  }

  lemma ChecksumMakesSum(img: seq<u16>, shadow: seq<ShadowWord>)
    requires |img| == |shadow| == SHADOW_RAM_WORDS
    ensures Sum(Overlay(img, WithChecksum(img, shadow)), CHECKSUM_REG + 1) == NVM_SUM
    ensures Plain(Overlay(img, WithChecksum(img, shadow))[..0x40]) % 0x1_0000 == 0xBABA
  {
    var l, l2 := Overlay(img, shadow), Overlay(img, WithChecksum(img, shadow));
    SumFrame(l, l2, CHECKSUM_REG);
    AddSub(Sum(l, CHECKSUM_REG), NVM_SUM);
    SumIsPlain(l2, 0x40);
  }

  // The committed image passes the generic validation exactly when the merged signature was valid.
  lemma CommittedSum(img: seq<u16>, shadow: seq<ShadowWord>)
    requires |img| == |shadow| == SHADOW_RAM_WORDS
    ensures var fresh_ := NewImage(img, WithChecksum(img, shadow));
      Sum(fresh_, CHECKSUM_REG + 1) == NVM_SUM <==> SigBits(Overlay(img, shadow)[SIG_WORD])
  {
    var l := Overlay(img, WithChecksum(img, shadow));
    var w := Released(Held(l[SIG_WORD]));
    ChecksumWordOnly(img, shadow, SIG_WORD);
    ChecksumMakesSum(img, shadow);
    ForcedSig(l[SIG_WORD]);
    SumReplace(l, SIG_WORD, w, CHECKSUM_REG + 1);
    assert NewImage(img, WithChecksum(img, shadow)) == l[SIG_WORD := w];
  }

  // The image a commit leaves after word 0x19 has been set to 'w'.
  function FixedNew(img: seq<u16>, shadow: seq<ShadowWord>, w: u16): (r: seq<u16>)
    requires |img| == |shadow| == SHADOW_RAM_WORDS
    ensures |r| == SHADOW_RAM_WORDS
  {
    NewImage(img, WithChecksum(img, Written(shadow, FIX_WORD, [w])))
  }

  lemma FixedImage(img: seq<u16>, shadow: seq<ShadowWord>, w: u16)
    requires |img| == |shadow| == SHADOW_RAM_WORDS
    ensures Overlay(FixedNew(img, shadow, w), EmptyShadow()) == FixedNew(img, shadow, w)
    ensures FixedNew(img, shadow, w)[FIX_WORD] == w
    ensures Sum(FixedNew(img, shadow, w), CHECKSUM_REG + 1) == NVM_SUM <==> SigBits(Overlay(img, shadow)[SIG_WORD])
  {
    var sh := Written(shadow, FIX_WORD, [w]);
    ReadsAlikeWhenSigned(img, WithChecksum(img, sh));
    ChecksumWordOnly(img, sh, FIX_WORD);
    CommittedSum(img, sh);
    assert Overlay(img, sh)[SIG_WORD] == Overlay(img, shadow)[SIG_WORD];
  }

  // The image validation leaves when it finds bit 6 of word 0x19 clear.
  function Repaired(img: seq<u16>, shadow: seq<ShadowWord>): (r: seq<u16>)
    requires |img| == |shadow| == SHADOW_RAM_WORDS
    ensures |r| == SHADOW_RAM_WORDS
  {
    FixedNew(img, shadow, SetBit6(Overlay(img, shadow)[FIX_WORD]))
  }

  lemma RepairedImage(img: seq<u16>, shadow: seq<ShadowWord>)
    requires |img| == |shadow| == SHADOW_RAM_WORDS
    ensures Overlay(Repaired(img, shadow), EmptyShadow()) == Repaired(img, shadow)
    ensures Repaired(img, shadow)[0x19] / 0x40 % 2 == 1
    ensures ReadsRepaired(Overlay(img, shadow), Repaired(img, shadow))
    ensures Sum(Repaired(img, shadow), CHECKSUM_REG + 1) == NVM_SUM <==> SigBits(Overlay(img, shadow)[SIG_WORD])
  {
    var sh := Written(shadow, FIX_WORD, [SetBit6(Overlay(img, shadow)[FIX_WORD])]);
    WrittenReads(img, shadow, SetBit6(Overlay(img, shadow)[FIX_WORD]));
    NewReads(img, sh);
    CombineReads(Overlay(img, shadow), Overlay(img, sh), NewImage(img, WithChecksum(img, sh)));
    FixedImage(img, shadow, SetBit6(Overlay(img, shadow)[FIX_WORD]));
  }

  lemma BytesOfWord(img: seq<u16>, i: nat)
    requires i < |img|
    ensures ByteOf(img, 2 * i) == Lo(img[i]) && ByteOf(img, 2 * i + 1) == Hi(img[i])
  {
  }

  lemma FetchedByte(b: u8)
    ensures Lo(b) == b
  {
  }
}
