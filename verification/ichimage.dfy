/** What the two flash banks mean: signatures, bank detection, the words of a bank, the shadow overlay and
    the image a commit aims at (e1000_ich8lan.c). */
module IchImage {
  import opened Bytes
  import opened FlashController

  datatype Option<+T> = None | Some(value: T)

  const SHADOW_RAM_WORDS := 2048
  const SIG_WORD := 0x13
  const CHECKSUM_REG := 0x3F
  const NVM_SUM: u16 := 0xBABA

  // Where the GbE region lies in the flash part; bank sizes are in words, as in the driver.
  datatype Geometry = Geometry(base: nat, bankWords: nat)

  predicate Fits(g: Geometry, size: nat) {
    SHADOW_RAM_WORDS <= g.bankWords && g.base + 4 * g.bankWords <= size
  }

  function BankStart(g: Geometry, bank: nat): nat {
    if bank == 0 then g.base else g.base + 2 * g.bankWords
  }

  function WordAt(g: Geometry, m: Mem, bank: nat, i: nat): u16
    requires Fits(g, |m|) && i < SHADOW_RAM_WORDS
  {
    Word(m[BankStart(g, bank) + 2 * i], m[BankStart(g, bank) + 2 * i + 1])
  }

  function Image(g: Geometry, m: Mem, bank: nat): (img: seq<u16>)
    requires Fits(g, |m|)
    ensures |img| == SHADOW_RAM_WORDS
  {
    seq(SHADOW_RAM_WORDS, i requires 0 <= i < SHADOW_RAM_WORDS => WordAt(g, m, bank, i))
  }

  function SigAddr(g: Geometry, bank: nat): nat {
    BankStart(g, bank) + 2 * SIG_WORD + 1
  }

  // Bits 15:14 of word 0x13 are 10b.
  predicate SigByte(b: u8) {
    b / 0x40 == 2
  }

  predicate Signed(g: Geometry, m: Mem, bank: nat)
    requires Fits(g, |m|)
  {
    SigByte(m[SigAddr(g, bank)])
  }

  function Detect(g: Geometry, m: Mem): Option<nat>
    requires Fits(g, |m|)
  {
    if Signed(g, m, 0) then Some(0) else if Signed(g, m, 1) then Some(1) else None
  }

  // The image that bank detection selects.
  function Selected(g: Geometry, m: Mem): (r: Option<seq<u16>>)
    ensures r.Some? ==> |r.value| == SHADOW_RAM_WORDS
  {
    if !Fits(g, |m|) then None
    else match Detect(g, m)
      case None => None
      case Some(bank) => Some(Image(g, m, bank))
  }

  datatype ShadowWord = ShadowWord(value: u16, modified: bool)

  function EmptyShadow(): (r: seq<ShadowWord>)
    ensures |r| == SHADOW_RAM_WORDS
  {
    seq(SHADOW_RAM_WORDS, _ => ShadowWord(0xFFFF, false))
  }

  // What a reader of the NVM sees.
  function Overlay(img: seq<u16>, shadow: seq<ShadowWord>): (r: seq<u16>)
    requires |img| == |shadow|
    ensures |r| == |img|
  {
    seq(|img|, i requires 0 <= i < |img| => if shadow[i].modified then shadow[i].value else img[i])
  }

  // Signature bits forced to 11b while a commit is under way, and to 10b when it is complete.
  function Held(w: u16): u16 { w % 0x4000 + 0xC000 }

  function Released(w: u16): u16 { if w / 0x4000 % 2 == 1 then w - 0x4000 else w }

  // The merged image with its signature held, and the image a complete commit leaves.
  function HeldImage(img: seq<u16>, shadow: seq<ShadowWord>): (r: seq<u16>)
    requires |img| == |shadow| == SHADOW_RAM_WORDS
    ensures |r| == |img|
  {
    Overlay(img, shadow)[SIG_WORD := Held(Overlay(img, shadow)[SIG_WORD])]
  }

  function HeldAt(l: seq<u16>, i: nat): u16
    requires i < |l|
  {
    if i == SIG_WORD then Held(l[i]) else l[i]
  }

  // A bank with the low byte, and with both bytes, of word i programmed.
  function LowWritten(g: Geometry, m: Mem, bank: nat, i: nat, w: u16): Mem {
    Program(m, BankStart(g, bank) + 2 * i, Lo(w))
  }

  function WordWritten(g: Geometry, m: Mem, bank: nat, i: nat, w: u16): Mem {
    Program(LowWritten(g, m, bank, i, w), BankStart(g, bank) + 2 * i + 1, Hi(w))
  }

  predicate HeldSig(img: seq<u16>)
    requires |img| == SHADOW_RAM_WORDS
  {
    Held(img[SIG_WORD]) == img[SIG_WORD]
  }

  lemma HeldImageHeld(img: seq<u16>, shadow: seq<ShadowWord>)
    requires |img| == |shadow| == SHADOW_RAM_WORDS
    ensures HeldSig(HeldImage(img, shadow))
  {
  }

  function ReleasedImage(t: seq<u16>): (r: seq<u16>)
    requires |t| == SHADOW_RAM_WORDS
    ensures |r| == |t|
  {
    t[SIG_WORD := Released(t[SIG_WORD])]
  }

  function NewImage(img: seq<u16>, shadow: seq<ShadowWord>): (r: seq<u16>)
    requires |img| == |shadow| == SHADOW_RAM_WORDS
    ensures |r| == |img|
  {
    ReleasedImage(HeldImage(img, shadow))
  }

  // The shadow after the generic checksum update.
  function WithChecksum(img: seq<u16>, shadow: seq<ShadowWord>): (r: seq<ShadowWord>)
    requires |img| == |shadow| == SHADOW_RAM_WORDS
    ensures |r| == |shadow|
  {
    shadow[CHECKSUM_REG := ShadowWord(Sub(NVM_SUM, Sum(Overlay(img, shadow), CHECKSUM_REG)), true)]
  }

  predicate SigBits(w: u16) {
    w / 0x4000 == 2
  }

  lemma SigBitsOfHi(lo: u8, hi: u8)
    ensures SigBits(Word(lo, hi)) <==> SigByte(hi)
  {
  }

  lemma ForcedSig(w: u16)
    ensures SigBits(Released(Held(w)))
    ensures Released(Held(w)) == w <==> SigBits(w)
  {
  }

  // A selected image carries a valid signature.
  lemma SelectedIsSigned(g: Geometry, m: Mem)
    requires Selected(g, m).Some?
    ensures SigBits(Selected(g, m).value[SIG_WORD])
  {
    var bank := Detect(g, m).value;
    SigBitsOfHi(m[SigAddr(g, bank) - 1], m[SigAddr(g, bank)]);
  }

  // --- Frames -----------------------------------------------------------------------------------

  // 'm' and 'm2' differ at most inside the given bank.
  ghost predicate OnlyBank(g: Geometry, m: Mem, m2: Mem, bank: nat) {
    && |m| == |m2|
    && forall a :: 0 <= a < |m| && !(BankStart(g, bank) <= a < BankStart(g, bank) + 2 * g.bankWords) ==> m2[a] == m[a]
  }

  lemma OtherBankKept(g: Geometry, m: Mem, m2: Mem, bank: nat)
    requires bank <= 1 && Fits(g, |m|) && OnlyBank(g, m, m2, bank)
    ensures Image(g, m2, 1 - bank) == Image(g, m, 1 - bank)
    ensures Signed(g, m2, 1 - bank) == Signed(g, m, 1 - bank)
  {
    assert Image(g, m2, 1 - bank) == Image(g, m, 1 - bank);
  }

  // While the new bank is being filled it is not signed, if a signature there would win detection.
  ghost predicate Inactive(g: Geometry, m0: Mem, m: Mem, new_: nat)
    requires Fits(g, |m0|)
  {
    OnlyBank(g, m0, m, new_) && (new_ == 0 ==> !Signed(g, m, 0))
  }

  lemma InactiveSelects(g: Geometry, m0: Mem, m: Mem, new_: nat)
    requires new_ <= 1 && Fits(g, |m0|) && Detect(g, m0) == Some(1 - new_) && Inactive(g, m0, m, new_)
    ensures Detect(g, m) == Some(1 - new_) && Selected(g, m) == Selected(g, m0)
  {
    OtherBankKept(g, m0, m, new_);
  }

  // --- Filling a bank ---------------------------------------------------------------------------

  function ByteOf(img: seq<u16>, j: nat): u8
    requires j < 2 * |img|
  {
    if j % 2 == 0 then Lo(img[j / 2]) else Hi(img[j / 2])
  }

  // 'n' bytes of 'img' are in the otherwise erased new bank; all else is as in 'm0'.
  ghost predicate Filled(g: Geometry, m0: Mem, m: Mem, new_: nat, img: seq<u16>, n: nat)
    requires Fits(g, |m0|) && |img| == SHADOW_RAM_WORDS && n <= 2 * |img|
  {
    && OnlyBank(g, m0, m, new_)
    && var s := BankStart(g, new_);
    && (forall a :: s <= a < s + n ==> m[a] == ByteOf(img, a - s))
    && (forall a :: s + n <= a < s + 2 * g.bankWords ==> m[a] == 0xFF)
  }

  ghost predicate FilledWords(g: Geometry, m0: Mem, m: Mem, new_: nat, img: seq<u16>, i: nat)
    requires Fits(g, |m0|) && |img| == SHADOW_RAM_WORDS && i <= |img|
  {
    Filled(g, m0, m, new_, img, 2 * i)
  }

  lemma ErasedIsFilled(g: Geometry, m0: Mem, new_: nat, img: seq<u16>)
    requires Fits(g, |m0|) && |img| == SHADOW_RAM_WORDS && new_ <= 1
    ensures FilledWords(g, m0, EraseSector(m0, BankStart(g, new_), 2 * g.bankWords), new_, img, 0)
  {
  }

  lemma FillOne(g: Geometry, m0: Mem, m: Mem, new_: nat, img: seq<u16>, n: nat)
    requires Fits(g, |m0|) && |img| == SHADOW_RAM_WORDS && n < 2 * |img| && new_ <= 1
    requires Filled(g, m0, m, new_, img, n)
    ensures Filled(g, m0, Program(m, BankStart(g, new_) + n, ByteOf(img, n)), new_, img, n + 1)
  {
    var b := ByteOf(img, n);
    var a := BankStart(g, new_) + n;
    AndFull(b);
    assert Program(m, a, b)[a] == b;
  }

  lemma FilledIsInactive(g: Geometry, m0: Mem, m: Mem, new_: nat, img: seq<u16>, n: nat)
    requires Fits(g, |m0|) && |img| == SHADOW_RAM_WORDS && n <= 2 * |img| && new_ <= 1
    requires Filled(g, m0, m, new_, img, n)
    requires HeldSig(img)
    ensures Inactive(g, m0, m, new_) && !Signed(g, m, new_)
  {
    var s := 2 * SIG_WORD + 1;
    assert ByteOf(img, s) == Hi(img[SIG_WORD]);
    HeldUnsigned(img[SIG_WORD]);
    assert m[SigAddr(g, new_)] == ByteOf(img, s) || m[SigAddr(g, new_)] == 0xFF;
  }

  lemma FilledWordsInactive(g: Geometry, m0: Mem, m: Mem, new_: nat, img: seq<u16>, i: nat)
    requires Fits(g, |m0|) && |img| == SHADOW_RAM_WORDS && i <= |img| && new_ <= 1
    requires FilledWords(g, m0, m, new_, img, i) && HeldSig(img)
    ensures Inactive(g, m0, m, new_)
  {
    FilledIsInactive(g, m0, m, new_, img, 2 * i);
  }

  lemma HeldUnsigned(w: u16)
    requires Held(w) == w
    ensures !SigByte(Hi(w))
  {
  }

  lemma FilledImage(g: Geometry, m0: Mem, m: Mem, new_: nat, img: seq<u16>)
    requires Fits(g, |m0|) && |img| == SHADOW_RAM_WORDS && new_ <= 1
    requires FilledWords(g, m0, m, new_, img, SHADOW_RAM_WORDS)
    ensures Image(g, m, new_) == img
  {
    forall i | 0 <= i < SHADOW_RAM_WORDS ensures WordAt(g, m, new_, i) == img[i] {
      var s := BankStart(g, new_);
      assert ByteOf(img, 2 * i) == Lo(img[i]) && ByteOf(img, 2 * i + 1) == Hi(img[i]);
      assert m[s + 2 * i] == Lo(img[i]);
      assert m[s + (2 * i + 1)] == Hi(img[i]);
      WordOfParts(img[i]);
    }
  }

  // --- The two single-byte writes that end a commit -----------------------------------------------

  // Clearing bit 14 signs the new bank and turns the held image into the new one.
  lemma ValidateByte(g: Geometry, m0: Mem, m: Mem, new_: nat, img: seq<u16>)
    requires Fits(g, |m0|) && |img| == SHADOW_RAM_WORDS && new_ <= 1
    requires FilledWords(g, m0, m, new_, img, SHADOW_RAM_WORDS) && HeldSig(img)
    ensures var m2 := Program(m, SigAddr(g, new_), Hi(Released(img[SIG_WORD])));
      && OnlyBank(g, m0, m2, new_) && Signed(g, m2, new_)
      && Image(g, m2, new_) == ReleasedImage(img)
  {
    FilledImage(g, m0, m, new_, img);
    var w := img[SIG_WORD];
    var a, v := SigAddr(g, new_), Hi(Released(w));
    var m2 := Program(m, a, v);
    assert WordAt(g, m, new_, SIG_WORD) == w;
    ReleaseByte(m[a - 1], m[a]);
    assert WordAt(g, m2, new_, SIG_WORD) == Released(w);
    forall i | 0 <= i < SHADOW_RAM_WORDS && i != SIG_WORD ensures WordAt(g, m2, new_, i) == img[i] {
      assert WordAt(g, m, new_, i) == img[i];
    }
  }

  lemma ReleaseByte(lo: u8, hi: u8)
    requires Held(Word(lo, hi)) == Word(lo, hi)
    ensures var v := Hi(Released(Word(lo, hi)));
      And(hi, v) == v && SigByte(v) && Word(lo, v) == Released(Word(lo, hi))
  {
    AndClearBit6(hi - 0xC0);
  }

  // Zeroing its signature byte unsigns the old bank and leaves the new one alone.
  lemma InvalidateByte(g: Geometry, m: Mem, old_: nat)
    requires Fits(g, |m|) && old_ <= 1
    ensures var m2 := Program(m, SigAddr(g, old_), 0);
      && OnlyBank(g, m, m2, old_) && !Signed(g, m2, old_)
  {
    AndZero(m[SigAddr(g, old_)], 8);
  }

  lemma BeforeSigning(g: Geometry, m0: Mem, m: Mem, old_: nat, img: seq<u16>, t: seq<u16>)
    requires Fits(g, |m0|) && old_ <= 1 && |t| == SHADOW_RAM_WORDS && HeldSig(t)
    requires Detect(g, m0) == Some(old_) && Selected(g, m0) == Some(img)
    requires FilledWords(g, m0, m, 1 - old_, t, SHADOW_RAM_WORDS)
    ensures |m| == |m0| && Selected(g, m) == Some(img) && WordAt(g, m, 1 - old_, SIG_WORD) == t[SIG_WORD]
  {
    FilledIsInactive(g, m0, m, 1 - old_, t, 2 * SHADOW_RAM_WORDS);
    InactiveSelects(g, m0, m, 1 - old_);
    FilledImage(g, m0, m, 1 - old_, t);
    assert WordAt(g, m, 1 - old_, SIG_WORD) == Image(g, m, 1 - old_)[SIG_WORD];
  }

  // After the validate write the new image is selected if it is in bank 0; else the old one still is.
  lemma ValidatedSelects(g: Geometry, m0: Mem, m: Mem, old_: nat, img: seq<u16>, t: seq<u16>)
    requires Fits(g, |m0|) && old_ <= 1 && |t| == SHADOW_RAM_WORDS && HeldSig(t)
    requires Detect(g, m0) == Some(old_) && Selected(g, m0) == Some(img)
    requires FilledWords(g, m0, m, 1 - old_, t, SHADOW_RAM_WORDS)
    ensures var m2 := Program(m, SigAddr(g, 1 - old_), Hi(Released(t[SIG_WORD])));
      && Signed(g, m2, 1 - old_) && Image(g, m2, 1 - old_) == ReleasedImage(t)
      && Selected(g, m2) == Some(if old_ == 1 then ReleasedImage(t) else img)
  {
    ValidateByte(g, m0, m, 1 - old_, t);
    OtherBankKept(g, m0, Program(m, SigAddr(g, 1 - old_), Hi(Released(t[SIG_WORD]))), 1 - old_);
  }

  // The invalidate write leaves the new image selected, whichever bank it is in.
  lemma InvalidatedSelects(g: Geometry, m: Mem, old_: nat)
    requires Fits(g, |m|) && old_ <= 1 && Signed(g, m, 1 - old_)
    ensures Selected(g, Program(m, SigAddr(g, old_), 0)) == Some(Image(g, m, 1 - old_))
  {
    InvalidateByte(g, m, old_);
    OtherBankKept(g, m, Program(m, SigAddr(g, old_), 0), old_);
  }
}
