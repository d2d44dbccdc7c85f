/** Byte-granular access to the word NVM: e1000_get_eeprom and e1000_set_eeprom (ethtool.c) behind the range
    checks of the ethtool ioctl (kcompat_ethtool.c), on the ICH NVM. */
module Ethtool {
  import opened Bytes
  import opened FlashController
  import opened IchImage
  import opened IchNvm

  const EEPROM_BYTES := 2 * SHADOW_RAM_WORDS

  datatype Status = Done | Invalid | BadMagic | Failed

  type u32 = x: int | 0 <= x < 0x1_0000_0000

  // The ioctl's checks: no wrap, no zero length, nothing past the end.
  predicate InRange(offset: u32, len: u32) {
    && (offset + len) % 0x1_0000_0000 > offset
    && (offset + len) % 0x1_0000_0000 <= EEPROM_BYTES
  }

  lemma InRangeMeans(offset: u32, len: u32)
    ensures InRange(offset, len) <==> len > 0 && offset + len <= 4096
  {
  }

  // e1000_get_eeprom for n words from word 'first', of which 'skip' leading bytes are not wanted.
  method GetBytes(nvm: Nvm, first: nat, n: nat, skip: nat, len: nat) returns (ok: bool, bytes: seq<u8>)
    requires nvm.Valid() && 0 < n && first + n <= SHADOW_RAM_WORDS && skip + len <= 2 * n
    modifies nvm`swflag, nvm`tries, nvm.flash
    ensures nvm.Valid() && nvm.flash.hist == old(nvm.flash.hist) && nvm.shadow[..] == old(nvm.shadow[..])
    ensures ok ==> nvm.Seen().Some? && bytes == BytesOf(nvm.Logical(), 2 * first + skip, len)
    ensures old(nvm.Calm()) && nvm.Seen().Some? ==> ok && nvm.Resting()
  {
    bytes := [];
    var buff;
    ok, buff := ReadEach(nvm, first, n);
    if ok {
      bytes := BytesOf(buff, skip, len);
      SameBytes(nvm.Logical(), buff, first, skip, len);
    }
  }

  lemma {:induction false} SameBytes(l: seq<u16>, part: seq<u16>, first: nat, skip: nat, len: nat)
    requires skip + len <= 2 * |part| && first + |part| <= |l|
    requires forall k :: 0 <= k < |part| ==> part[k] == l[first + k]
    ensures BytesOf(part, skip, len) == BytesOf(l, 2 * first + skip, len)
  {
    if len > 0 {
      SameBytes(l, part, first, skip, len - 1);
      SameByte(l, part, first, skip + len - 1);
    }
  }

  lemma SameByte(l: seq<u16>, part: seq<u16>, first: nat, j: nat)
    requires j < 2 * |part| && first + |part| <= |l| && part[j / 2] == l[first + j / 2]
    ensures ByteOf(part, j) == ByteOf(l, 2 * first + j)
  {
    assert (2 * first + j) / 2 == first + j / 2;
  }

  // ethtool_get_eeprom
  method GetEeprom(nvm: Nvm, offset: u32, len: u32) returns (r: Status, bytes: seq<u8>)
    requires nvm.Valid()
    modifies nvm`swflag, nvm`tries, nvm.flash
    ensures nvm.Valid() && nvm.flash.hist == old(nvm.flash.hist) && nvm.shadow[..] == old(nvm.shadow[..])
    ensures r == Invalid <==> !InRange(offset, len)
    ensures r == Done ==> InRange(offset, len) && offset + len <= EEPROM_BYTES
    ensures r == Done ==> nvm.Seen().Some? && bytes == BytesOf(nvm.Logical(), offset, len)
    ensures old(nvm.Calm()) && nvm.Seen().Some? && InRange(offset, len) ==> r == Done && nvm.Resting()
  {
    InRangeMeans(offset, len);
    bytes := [];
    if !InRange(offset, len) {
      return Invalid, bytes;
    }
    var ok;
    ok, bytes := GetBytes(nvm, offset / 2, WordSpan(offset, len), offset % 2, len);
    assert 2 * (offset / 2) + offset % 2 == offset;
    r := if ok then Done else Failed;
  }

  function BytesOf(words: seq<u16>, skip: nat, len: nat): (b: seq<u8>)
    requires skip + len <= 2 * |words|
    ensures |b| == len && forall j :: 0 <= j < len ==> b[j] == ByteOf(words, skip + j)
  {
    if len == 0 then [] else BytesOf(words, skip, len - 1) + [ByteOf(words, skip + len - 1)]
  }

  // The word-by-word read loop of e1000_get_eeprom.
  method ReadEach(nvm: Nvm, first: nat, n: nat) returns (ok: bool, buff: seq<u16>)
    requires nvm.Valid() && n > 0 && first + n <= SHADOW_RAM_WORDS
    modifies nvm`swflag, nvm`tries, nvm.flash
    ensures nvm.Valid() && nvm.flash.hist == old(nvm.flash.hist) && nvm.shadow[..] == old(nvm.shadow[..])
    ensures ok ==> nvm.Seen().Some? && |buff| == n && forall k :: 0 <= k < n ==> buff[k] == nvm.Logical()[first + k]
    ensures old(nvm.Calm()) && nvm.Seen().Some? ==> ok && nvm.Resting()
  {
    ghost var l := if nvm.Seen().Some? then nvm.Logical() else [];
    assert nvm.Views(l);
    ok, buff := true, [];
    var i := 0;
    while i < n
      invariant 0 <= i <= n && |buff| == i && ok
      invariant nvm.Valid() && nvm.flash.hist == old(nvm.flash.hist) && nvm.shadow[..] == old(nvm.shadow[..])
      invariant nvm.Views(l) && (i > 0 ==> |l| == SHADOW_RAM_WORDS)
      invariant i > 0 ==> buff == l[first..first + i]
      invariant old(nvm.Calm()) ==> nvm.Resting()
    {
      var word;
      ok, word := nvm.ReadViewed(l, first + i);
      if !ok {
        return;
      }
      buff := buff + [word];
      i := i + 1;
      OneMore(l, first, i, buff, word);
    }
  }

  lemma OneMore(l: seq<u16>, first: nat, i: nat, buff: seq<u16>, word: u16)
    requires 0 < i && first + i <= |l| && |buff| == i && buff[i - 1] == word == l[first + i - 1]
    requires i > 1 ==> buff[..i - 1] == l[first..first + i - 1]
    ensures buff == l[first..first + i]
  {
    assert forall k :: 0 <= k < i - 1 ==> buff[k] == buff[..i - 1][k];
  }

  // The words an edit of bytes [offset, offset + |bytes|) writes: edge words are read first, for the byte of
  // them that is kept.
  method EditWords(nvm: Nvm, offset: nat, bytes: seq<u8>) returns (ok: bool, words: seq<u16>)
    requires nvm.Valid() && |bytes| > 0 && offset + |bytes| <= EEPROM_BYTES && nvm.Seen().Some?
    modifies nvm`swflag, nvm`tries, nvm.flash
    ensures nvm.Valid() && nvm.flash.hist == old(nvm.flash.hist) && nvm.shadow[..] == old(nvm.shadow[..])
    ensures nvm.flash.Pending() ==> old(nvm.flash.Pending())
    ensures old(nvm.Calm()) ==> ok && nvm.Resting()
    ensures ok ==> words == NewWords(nvm.Logical(), offset, bytes)
  {
    var firstWord, lastWord := offset / 2, (offset + |bytes| - 1) / 2;
    ghost var l := nvm.Logical();
    words, ok := [], true;
    var head, tail := 0, 0;
    if offset % 2 == 1 {
      ok, head := nvm.ReadOneWord(firstWord);
      if !ok {
        return;
      }
    }
    if (offset + |bytes|) % 2 == 1 {
      ok, tail := nvm.ReadOneWord(lastWord);
      if !ok {
        return;
      }
    }
    words := PatchBuffer(l, offset, bytes, head, tail);
    SameWords(words, NewWords(l, offset, bytes));
  }

  // The words that hold the edited bytes.
  function NewWords(l: seq<u16>, offset: nat, bytes: seq<u8>): (words: seq<u16>)
    requires |l| == SHADOW_RAM_WORDS && |bytes| > 0 && offset + |bytes| <= EEPROM_BYTES
    ensures |words| == WordSpan(offset, |bytes|)
    ensures forall j :: 0 <= j < 2 * |words| ==> ByteOf(words, j) == Edited(l, offset, bytes, 2 * (offset / 2) + j)
  {
    var n := WordSpan(offset, |bytes|);
    var words := seq(n, i requires 0 <= i < n => NewWord(l, offset, bytes, i));
    assert forall j :: 0 <= j < 2 * n ==> ByteOf(words, j) == Edited(l, offset, bytes, 2 * (offset / 2) + j) by {
      forall j | 0 <= j < 2 * n ensures ByteOf(words, j) == Edited(l, offset, bytes, 2 * (offset / 2) + j) {
        NewWordBytes(l, offset, bytes, j / 2);
      }
    }
    words
  }

  function NewWord(l: seq<u16>, offset: nat, bytes: seq<u8>, i: nat): u16
    requires |l| == SHADOW_RAM_WORDS && 2 * (offset / 2) + 2 * i + 2 <= EEPROM_BYTES
  {
    Word(Edited(l, offset, bytes, 2 * (offset / 2) + 2 * i), Edited(l, offset, bytes, 2 * (offset / 2) + 2 * i + 1))
  }

  lemma NewWordBytes(l: seq<u16>, offset: nat, bytes: seq<u8>, i: nat)
    requires |l| == SHADOW_RAM_WORDS && 2 * (offset / 2) + 2 * i + 2 <= EEPROM_BYTES
    ensures Lo(NewWord(l, offset, bytes, i)) == Edited(l, offset, bytes, 2 * (offset / 2) + 2 * i)
    ensures Hi(NewWord(l, offset, bytes, i)) == Edited(l, offset, bytes, 2 * (offset / 2) + 2 * i + 1)
  {
    var a := 2 * (offset / 2) + 2 * i;
    PartsOfWord(Edited(l, offset, bytes, a), Edited(l, offset, bytes, a + 1));
  }

  lemma SameWords(v: seq<u16>, w: seq<u16>)
    requires |v| == |w| && forall j :: 0 <= j < 2 * |v| ==> ByteOf(v, j) == ByteOf(w, j)
    ensures v == w
  {
    forall i | 0 <= i < |v| ensures v[i] == w[i] {
      assert ByteOf(v, 2 * i) == ByteOf(w, 2 * i) && ByteOf(v, 2 * i + 1) == ByteOf(w, 2 * i + 1);
      WordOfParts(v[i]);
      WordOfParts(w[i]);
    }
  }

  function WordSpan(offset: nat, len: nat): (n: nat)
    requires len > 0
    ensures 2 * n == offset % 2 + len + (offset + len) % 2
  {
    (offset + len - 1) / 2 - offset / 2 + 1
  }

  // The edge words and then the new bytes go into a byte buffer, which is read back as words.
  method PatchBuffer(ghost l: seq<u16>, offset: nat, bytes: seq<u8>, head: u16, tail: u16) returns (words: seq<u16>)
    requires |bytes| > 0 && offset + |bytes| <= 2 * |l| && |l| == SHADOW_RAM_WORDS
    requires offset % 2 == 1 ==> head == l[offset / 2]
    requires (offset + |bytes|) % 2 == 1 ==> tail == l[(offset + |bytes| - 1) / 2]
    ensures |words| == WordSpan(offset, |bytes|)
    ensures forall j :: 0 <= j < 2 * |words| ==> ByteOf(words, j) == Edited(l, offset, bytes, 2 * (offset / 2) + j)
  {
    words := FillBuffer(WordSpan(offset, |bytes|), offset % 2, bytes, head, tail);
    EdgeBytes(l, offset, |bytes|);
  }

  method FillBuffer(n: nat, skip: nat, bytes: seq<u8>, head: u16, tail: u16) returns (words: seq<u16>)
    requires skip <= 1 && |bytes| > 0 && skip + |bytes| <= 2 * n <= skip + |bytes| + 1
    ensures |words| == n
    ensures forall j :: 0 <= j < 2 * n ==> ByteOf(words, j) == Patched(skip, bytes, head, tail, j)
  {
    var buff := new u8[2 * n];
    if skip == 1 {
      buff[0], buff[1] := Lo(head), Hi(head);
    }
    if skip + |bytes| < 2 * n {
      buff[2 * n - 2], buff[2 * n - 1] := Lo(tail), Hi(tail);
    }
    var k := 0;
    while k < |bytes|
      invariant 0 <= k <= |bytes|
      invariant forall j :: skip <= j < skip + k ==> buff[j] == bytes[j - skip]
      invariant skip == 1 ==> buff[0] == Lo(head)
      invariant skip + |bytes| < 2 * n ==> buff[2 * n - 1] == Hi(tail)
    {
      buff[skip + k] := bytes[k];
      k := k + 1;
    }
    ghost var b := buff[..];
    assert forall j :: 0 <= j < 2 * n ==> b[j] == Patched(skip, bytes, head, tail, j);
    words := WordsOf(buff[..]);
  }

  function Patched(skip: nat, bytes: seq<u8>, head: u16, tail: u16, j: nat): u8 {
    if j < skip then Lo(head) else if j < skip + |bytes| then bytes[j - skip] else Hi(tail)
  }

  lemma EdgeBytes(l: seq<u16>, offset: nat, len: nat)
    requires len > 0 && offset + len <= 2 * |l|
    ensures offset % 2 == 1 ==> ByteOf(l, offset - 1) == Lo(l[offset / 2])
    ensures (offset + len) % 2 == 1 ==> ByteOf(l, offset + len) == Hi(l[(offset + len - 1) / 2])
    ensures offset - offset % 2 == 2 * (offset / 2)
  {
  }

  // A little-endian byte buffer as words.
  function WordsOf(b: seq<u8>): (w: seq<u16>)
    requires |b| % 2 == 0
    ensures 2 * |w| == |b| && forall j :: 0 <= j < |b| ==> ByteOf(w, j) == b[j]
  {
    var w := seq(|b| / 2, i requires 0 <= i < |b| / 2 => Word(b[2 * i], b[2 * i + 1]));
    assert forall j :: 0 <= j < |b| ==> ByteOf(w, j) == b[j] by {
      forall j | 0 <= j < |b| ensures ByteOf(w, j) == b[j] {
        PartsOfWord(b[2 * (j / 2)], b[2 * (j / 2) + 1]);
      }
    }
    w
  }

  lemma PartsOfWord(lo: u8, hi: u8)
    ensures Lo(Word(lo, hi)) == lo && Hi(Word(lo, hi)) == hi
  {
  }

  // Byte j of the NVM after the edit.
  function Edited(l: seq<u16>, offset: nat, bytes: seq<u8>, j: nat): u8
    requires j < 2 * |l|
  {
    if offset <= j < offset + |bytes| then bytes[j - offset] else ByteOf(l, j)
  }

  predicate Avoids(offset: nat, len: nat, word: nat) {
    offset + len <= 2 * word || 2 * word + 2 <= offset
  }

  // Byte j is in one of the two words that a commit itself settles.
  predicate CommitOwns(j: nat) {
    j / 2 == CHECKSUM_REG || j / 2 == SIG_WORD
  }

  // The shadow after an edit has reached it.
  function EditedShadow(img: seq<u16>, shadow: seq<ShadowWord>, offset: nat, bytes: seq<u8>): (r: seq<ShadowWord>)
    requires |img| == |shadow| == SHADOW_RAM_WORDS && |bytes| > 0 && offset + |bytes| <= EEPROM_BYTES
    ensures |r| == SHADOW_RAM_WORDS
  {
    Written(shadow, offset / 2, NewWords(Overlay(img, shadow), offset, bytes))
  }

  // The image in the flash after a set that reported success: the commit happens only at or before word 0x3F.
  function ImageAfterSet(img: seq<u16>, shadow: seq<ShadowWord>, offset: nat, bytes: seq<u8>): (r: seq<u16>)
    requires |img| == |shadow| == SHADOW_RAM_WORDS && |bytes| > 0 && offset + |bytes| <= EEPROM_BYTES
    ensures |r| == SHADOW_RAM_WORDS
  {
    if offset / 2 <= CHECKSUM_REG then NewImage(img, WithChecksum(img, EditedShadow(img, shadow, offset, bytes)))
    else img
  }

  // ethtool_set_eeprom and e1000_set_eeprom.  'reached' tells whether the edit reached the shadow.
  method SetEeprom(nvm: Nvm, offset: u32, bytes: seq<u8>, magic: bool) returns (r: Status, ghost reached: bool)
    requires nvm.Valid() && nvm.flash.OneSector(nvm.bankWords) && nvm.Seen().Some? && |bytes| < 0x1_0000_0000
    modifies nvm`swflag, nvm`tries, nvm.flash, nvm.shadow
    ensures nvm.Valid() && nvm.Seen().Some?
    ensures r == Invalid <==> !InRange(offset, |bytes|)
    ensures r == BadMagic <==> InRange(offset, |bytes|) && !magic
    ensures r == Done ==> reached
    ensures reached ==> |bytes| > 0 && offset + |bytes| <= EEPROM_BYTES
    ensures !reached ==> nvm.Logical() == old(nvm.Logical())
    // Every byte reads as edited, whether or not the commit behind it went through ...
    ensures reached ==> forall j :: 0 <= j < EEPROM_BYTES && !CommitOwns(j) ==>
      ByteOf(nvm.Logical(), j) == Edited(old(nvm.Logical()), offset, bytes, j)
    // ... the signature word too if it was left alone.
    ensures reached && SigBits(old(nvm.Logical())[SIG_WORD]) && Avoids(offset, |bytes|, SIG_WORD) ==>
      nvm.Logical()[SIG_WORD] == old(nvm.Logical())[SIG_WORD]
    // What a success leaves in the flash and in the shadow.
    ensures r == Done ==>
      nvm.Seen() == Some(ImageAfterSet(old(nvm.Seen().value), old(nvm.shadow[..]), offset, bytes))
    ensures r == Done && offset / 2 <= CHECKSUM_REG ==> nvm.shadow[..] == EmptyShadow() && !nvm.flash.Pending()
    // Past the checksum word nothing but the shadow moves.
    ensures reached && offset / 2 > CHECKSUM_REG ==>
      && nvm.flash.hist == old(nvm.flash.hist) && (nvm.flash.Pending() ==> old(nvm.flash.Pending()))
      && nvm.shadow[..] == EditedShadow(old(nvm.Seen().value), old(nvm.shadow[..]), offset, bytes)
      && forall j :: 0 <= j < EEPROM_BYTES ==> ByteOf(nvm.Logical(), j) == Edited(old(nvm.Logical()), offset, bytes, j)
    ensures old(nvm.Calm()) && InRange(offset, |bytes|) && magic ==> r == Done && nvm.Resting()
  {
    hide Selected, Overlay, Written, NewWords, NewImage, WithChecksum, EmptyShadow;
    hide SigBits, Sum, ByteOf, Edited, Avoids;
    reached := false;
    InRangeMeans(offset, |bytes|);
    if !InRange(offset, |bytes|) {
      return Invalid, reached;
    }
    if !magic {
      return BadMagic, reached;
    }
    ghost var img, sh, l := nvm.Seen().value, nvm.shadow[..], nvm.Logical();
    var ok, words := EditWords(nvm, offset, bytes);
    if !ok {
      return Failed, reached;
    }
    ok := nvm.WriteNvm(offset / 2, words);
    if !ok {
      return Failed, reached;
    }
    reached := true;
    ghost var l1 := nvm.Logical();
    EditedBytes(img, sh, offset, bytes);
    if offset / 2 <= CHECKSUM_REG {
      ok := nvm.UpdateForReader();
      OtherWordsKept(l1, nvm.Logical());
    }
    r := if ok then Done else Failed;
  }

  // Writing the words of an edit makes exactly that edit.
  lemma EditedBytes(img: seq<u16>, shadow: seq<ShadowWord>, offset: nat, bytes: seq<u8>)
    requires |img| == |shadow| == SHADOW_RAM_WORDS && |bytes| > 0 && offset + |bytes| <= EEPROM_BYTES
    ensures var l, l1 := Overlay(img, shadow), Overlay(img, EditedShadow(img, shadow, offset, bytes));
      && (forall j :: 0 <= j < EEPROM_BYTES ==> ByteOf(l1, j) == Edited(l, offset, bytes, j))
      && (Avoids(offset, |bytes|, SIG_WORD) ==> l1[SIG_WORD] == l[SIG_WORD])
  {
    var l, l1 := Overlay(img, shadow), Overlay(img, EditedShadow(img, shadow, offset, bytes));
    forall j | 0 <= j < EEPROM_BYTES ensures ByteOf(l1, j) == Edited(l, offset, bytes, j) {
      EditedByte(img, shadow, offset, bytes, j);
    }
    if Avoids(offset, |bytes|, SIG_WORD) {
      EditedByte(img, shadow, offset, bytes, 2 * SIG_WORD);
      EditedByte(img, shadow, offset, bytes, 2 * SIG_WORD + 1);
      WordOfParts(l[SIG_WORD]);
      WordOfParts(l1[SIG_WORD]);
    }
  }

  lemma EditedByte(img: seq<u16>, shadow: seq<ShadowWord>, offset: nat, bytes: seq<u8>, j: nat)
    requires |img| == |shadow| == SHADOW_RAM_WORDS && |bytes| > 0 && offset + |bytes| <= EEPROM_BYTES
    requires j < EEPROM_BYTES
    ensures ByteOf(Overlay(img, EditedShadow(img, shadow, offset, bytes)), j)
         == Edited(Overlay(img, shadow), offset, bytes, j)
  {
    hide NewWords;
    var l, words := Overlay(img, shadow), NewWords(Overlay(img, shadow), offset, bytes);
    var i := j / 2;
    if offset / 2 <= i < offset / 2 + |words| {
      var k := j - 2 * (offset / 2);
      assert k / 2 == i - offset / 2 && k % 2 == j % 2;
      assert ByteOf(words, k) == Edited(l, offset, bytes, j);
    }
  }

  lemma OtherWordsKept(l: seq<u16>, l2: seq<u16>)
    requires |l| == |l2| == SHADOW_RAM_WORDS
    requires forall i :: 0 <= i < SHADOW_RAM_WORDS && i != CHECKSUM_REG && i != SIG_WORD ==> l2[i] == l[i]
    ensures forall j :: 0 <= j < EEPROM_BYTES && !CommitOwns(j) ==> ByteOf(l2, j) == ByteOf(l, j)
  {
  }

  // What was set is what is got, away from the two words the commit itself settles.
  method SetThenGet(nvm: Nvm, offset: u32, bytes: seq<u8>) returns (set_: Status, got: Status, back: seq<u8>)
    requires nvm.Valid() && nvm.flash.OneSector(nvm.bankWords) && nvm.Seen().Some? && |bytes| < 0x1_0000_0000
    modifies nvm`swflag, nvm`tries, nvm.flash, nvm.shadow
    ensures set_ == Done && got == Done ==> |back| == |bytes|
    ensures set_ == Done && got == Done ==>
      forall j :: 0 <= j < |bytes| && !CommitOwns(offset + j) ==> back[j] == bytes[j]
    ensures old(nvm.Calm()) && InRange(offset, |bytes|) ==> set_ == Done && got == Done
  {
    hide Selected, Overlay, ImageAfterSet, EditedShadow, EmptyShadow, SigBits, ByteOf, Avoids;
    ghost var l, reached := nvm.Logical(), false;
    set_, reached := SetEeprom(nvm, offset, bytes, true);
    ghost var l1 := nvm.Logical();
    got, back := GetEeprom(nvm, offset, |bytes|);
    if set_ == Done && got == Done {
      assert nvm.Logical() == l1;
      forall j | 0 <= j < |bytes| && !CommitOwns(offset + j) ensures back[j] == bytes[j] {
        assert ByteOf(l1, offset + j) == Edited(l, offset, bytes, offset + j);
      }
    }
  }

  // --- Which edits are in the flash ------------------------------------------------------------------

  // The image holds the bytes, away from the two words the commit itself settles.
  predicate Holds(img: seq<u16>, offset: nat, bytes: seq<u8>)
    requires |img| == SHADOW_RAM_WORDS && offset + |bytes| <= EEPROM_BYTES
  {
    forall j :: 0 <= j < |bytes| && !CommitOwns(offset + j) ==> ByteOf(img, offset + j) == bytes[j]
  }

  // A set that reports success puts its bytes into the flash, whatever was there and whatever they are, exactly when
  // it starts at or before word 0x3F.
  lemma SurvivesExactly(offset: nat, len: nat)
    requires len > 0 && offset + len <= EEPROM_BYTES
    ensures (forall img: seq<u16>, shadow: seq<ShadowWord>, bytes: seq<u8> ::
               |img| == |shadow| == SHADOW_RAM_WORDS && |bytes| == len ==>
                 Holds(ImageAfterSet(img, shadow, offset, bytes), offset, bytes))
       <==> offset / 2 <= CHECKSUM_REG
  {
    if offset / 2 <= CHECKSUM_REG {
      forall img: seq<u16>, shadow: seq<ShadowWord>, bytes: seq<u8>
        | |img| == |shadow| == SHADOW_RAM_WORDS && |bytes| == len
        ensures Holds(ImageAfterSet(img, shadow, offset, bytes), offset, bytes)
      {
        CommittedHolds(img, shadow, offset, bytes);
      }
    } else {
      var img: seq<u16>, bytes: seq<u8> := seq(SHADOW_RAM_WORDS, _ => 0), seq(len, _ => 1);
      assert !CommitOwns(offset + 0) && ByteOf(img, offset + 0) == 0 && bytes[0] == 1;
      assert ImageAfterSet(img, EmptyShadow(), offset, bytes) == img;
    }
  }

  lemma CommittedHolds(img: seq<u16>, shadow: seq<ShadowWord>, offset: nat, bytes: seq<u8>)
    requires |img| == |shadow| == SHADOW_RAM_WORDS && |bytes| > 0 && offset + |bytes| <= EEPROM_BYTES
    requires offset / 2 <= CHECKSUM_REG
    ensures Holds(ImageAfterSet(img, shadow, offset, bytes), offset, bytes)
  {
    hide Overlay, Written, NewWords, WithChecksum, EmptyShadow, ByteOf;
    var sh := EditedShadow(img, shadow, offset, bytes);
    var l1 := Overlay(img, sh);
    EditedBytes(img, shadow, offset, bytes);
    forall i | 0 <= i < SHADOW_RAM_WORDS && i != CHECKSUM_REG && i != SIG_WORD
      ensures ImageAfterSet(img, shadow, offset, bytes)[i] == l1[i]
    {
      ChecksumWordOnly(img, sh, i);
    }
    OtherWordsKept(l1, ImageAfterSet(img, shadow, offset, bytes));
    forall j | 0 <= j < |bytes| && !CommitOwns(offset + j)
      ensures ByteOf(ImageAfterSet(img, shadow, offset, bytes), offset + j) == bytes[j]
    {
      assert ByteOf(l1, offset + j) == Edited(Overlay(img, shadow), offset, bytes, offset + j);
    }
  }

  // A set, a power cycle, the driver started afresh, and a get.
  method SetThenPowerCycle(nvm: Nvm, offset: u32, bytes: seq<u8>) returns (set_: Status, got: Status, back: seq<u8>)
    requires nvm.Valid() && nvm.flash.OneSector(nvm.bankWords) && nvm.Seen().Some? && |bytes| < 0x1_0000_0000
    modifies nvm`swflag, nvm`tries, nvm.flash, nvm.shadow
    ensures set_ == Done && got == Done ==> |back| == |bytes| && 0 < |bytes| && offset + |bytes| <= EEPROM_BYTES
    // The bytes are back if the commit took place ...
    ensures set_ == Done && got == Done && offset / 2 <= CHECKSUM_REG ==>
      forall j :: 0 <= j < |bytes| && !CommitOwns(offset + j) ==> back[j] == bytes[j]
    // ... and else those are that were in the flash before.
    ensures set_ == Done && got == Done && offset / 2 > CHECKSUM_REG && !old(nvm.flash.Pending()) ==>
      back == BytesOf(old(nvm.Seen().value), offset, |bytes|)
    ensures old(nvm.Calm()) && InRange(offset, |bytes|) ==> set_ == Done && got == Done
  {
    hide Selected, Overlay, ImageAfterSet, EditedShadow, EmptyShadow, SigBits, ByteOf, Edited, Avoids, BytesOf;
    ghost var img, sh, reached := nvm.Seen().value, nvm.shadow[..], false;
    set_, reached := SetEeprom(nvm, offset, bytes, true);
    ghost var after := nvm.Seen().value;
    nvm.flash.PowerCycle();
    nvm.ClearShadow();
    nvm.Release();
    got, back := GetEeprom(nvm, offset, |bytes|);
    if set_ == Done && got == Done {
      if offset / 2 <= CHECKSUM_REG {
        assert nvm.Seen() == Some(after);
        EmptyOverlay(after);
        CommittedHolds(img, sh, offset, bytes);
      } else if !old(nvm.flash.Pending()) {
        assert nvm.Seen() == Some(img);
        EmptyOverlay(img);
      }
    }
  }

  lemma EmptyOverlay(img: seq<u16>)
    requires |img| == SHADOW_RAM_WORDS
    ensures Overlay(img, EmptyShadow()) == img
  {
  }

  // A part with two banks of one sector each, of which the first is signed; every other bit is zero.
  method SignedPart() returns (nvm: Nvm)
    ensures nvm.Valid() && fresh(nvm) && fresh(nvm.flash) && fresh(nvm.shadow)
    ensures nvm.flash.OneSector(nvm.bankWords) && nvm.Calm()
    ensures nvm.Seen().Some? && ByteOf(nvm.Seen().value, 0x80) == 0
  {
    hide Selected, ByteOf;
    var cells: Mem := seq(4 * SHADOW_RAM_WORDS, i => if i == 2 * SIG_WORD + 1 then 0x80 else 0);
    var flash := new Flash(cells, 0, 1, true, true, _ => 0, _ => false, _ => true);
    nvm := new Nvm(flash, SHADOW_RAM_WORDS, _ => true);
    FirstBankSelected(nvm.Geo(), cells);
    forall n: nat ensures OneGood(flash.fails, n, 10) {
      GoodAt(flash.fails, n, 10, n);
    }
  }

  lemma FirstBankSelected(g: Geometry, cells: Mem)
    requires Fits(g, |cells|) && g.base == 0 && cells[2 * SIG_WORD + 1] == 0x80 && cells[0x80] == cells[0x81] == 0
    ensures Selected(g, cells).Some? && ByteOf(Selected(g, cells).value, 0x80) == 0
  {
    assert Detect(g, cells) == Some(0);
    assert WordAt(g, cells, 0, 0x40) == 0;
  }

  // Byte 0x80, the first of word 0x40, of a part that never fails: the set and the get both report success, and the
  // byte is not there after a power cycle.
  method LostEdit() returns (set_: Status, got: Status, back: seq<u8>)
    ensures set_ == Done && got == Done && back == [0]
  {
    var nvm := SignedPart();
    ghost var img := nvm.Seen().value;
    set_, got, back := SetThenPowerCycle(nvm, 0x80, [1]);
    assert back[0] == ByteOf(img, 0x80 + 0);
  }
}
