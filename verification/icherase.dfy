/** Why a commit needs banks of one erase sector: with larger ones the bank erase, with its running address, reaches
    the bank that holds the only valid image (e1000_ich8lan.c). */
module IchErase {
  import opened Bytes
  import opened FlashController
  import opened IchImage
  import opened IchNvm

  // The first sector of each bank holds its signature.
  predicate Sectored(g: Geometry, size: nat, sector: nat, n: nat) {
    Fits(g, size) && n > 0 && 2 * g.bankWords == n * sector && sector > 2 * SIG_WORD + 1
  }

  // The contents if every erase takes effect, whether or not it is reported as good.
  function Wiped(m: Mem, issued: seq<(nat, Outcome)>, sector: nat): (h: seq<Mem>)
    ensures |h| == |issued| + 1 && forall k :: 0 <= k < |h| ==> |h[k]| == |m|
  {
    if issued == [] then [m]
    else
      Wiped(m, issued[..|issued| - 1], sector)
      + [EraseSector(Wiped(m, issued[..|issued| - 1], sector)[|issued| - 1], issued[|issued| - 1].0, sector)]
  }

  lemma {:induction false} WipedTrail(m: Mem, issued: seq<(nat, Outcome)>, sector: nat)
    requires forall k :: 0 <= k < |issued| ==> issued[k].0 + sector <= |m|
    ensures Trail(Wiped(m, issued, sector), [m], issued, sector)
  {
    if issued != [] {
      var n := |issued| - 1;
      WipedTrail(m, issued[..n], sector);
      assert Wiped(m, issued, sector)[..n + 1] == Wiped(m, issued[..n], sector);
    }
  }

  lemma {:induction false} WipedByte(m: Mem, issued: seq<(nat, Outcome)>, sector: nat, k: nat, b: nat)
    requires forall i :: 0 <= i < |issued| ==> issued[i].0 + sector <= |m|
    requires k < |issued| && issued[k].0 <= b < issued[k].0 + sector
    ensures Wiped(m, issued, sector)[|issued|][b] == 0xFF
  {
    var n := |issued| - 1;
    if k < n {
      WipedByte(m, issued[..n], sector, k, b);
    }
  }

  // --- Outcomes that lead to the other bank --------------------------------------------------------------

  // The state after one retry at sector d and i good erases since.
  ghost predicate OneRetry(run: EraseState, start: nat, sector: nat, d: nat, i: nat) {
    && run.j == d + i && run.count == 1 && !run.stopped && |run.issued| == d + 1 + i
    && run.addr == start + (if i == 0 then Triangle(d) else Triangle(d + i - 1) + d) * sector
    && (i > 0 ==> run.issued[d + i].0 == run.addr)
    && run.issued[0].0 == start
    && forall k :: 0 <= k < |run.issued| ==> run.issued[k].0 <= run.addr
  }

  lemma RetryAt(run: EraseState, start: nat, sector: nat, n: nat, d: nat)
    requires AllGood(run, start, sector, d) && run.count == 0 && d < n
    ensures OneRetry(EraseStep(run, sector, n, Again), start, sector, d, 0)
  {
    if d > 0 {
      TriangleStep(d, sector);
    }
    assert run.addr + d * sector == start + Triangle(d) * sector;
    forall k | 0 <= k < d ensures run.issued[k].0 <= start + Triangle(d) * sector {
      TriangleGrows(k, d, sector);
    }
    TriangleGrows(0, d, sector);
  }

  lemma {:induction false} TriangleGrows(k: nat, d: nat, sector: nat)
    requires k <= d
    ensures Triangle(k) * sector <= Triangle(d) * sector
    decreases d
  {
    if k < d {
      TriangleGrows(k, d - 1, sector);
      TriangleStep(d, sector);
    }
  }

  lemma GoodAfterRetry(run: EraseState, start: nat, sector: nat, n: nat, d: nat, i: nat)
    requires OneRetry(run, start, sector, d, i) && d + i < n
    ensures OneRetry(EraseStep(run, sector, n, Good), start, sector, d, i + 1)
  {
    var a := if i == 0 then Triangle(d) else Triangle(d + i - 1) + d;
    assert a + (d + i) == Triangle(d + i) + d;
    hide Triangle;
    Distribute(a, d + i, sector);
  }

  lemma Distribute(a: nat, b: nat, sector: nat)
    ensures a * sector + b * sector == (a + b) * sector
  {
  }

  lemma {:induction false} RunWithRetry(start: nat, sector: nat, n: nat, d: nat, i: nat) returns (outs: seq<Outcome>)
    requires d < n && d + i <= n
    ensures OneRetry(EraseRun(start, sector, n, outs), start, sector, d, i)
    decreases i
  {
    if i == 0 {
      var good := seq(d, _ => Good);
      GoodRun(start, sector, n, good);
      GoodRunCounts(start, sector, n, good);
      RunSnoc(start, sector, n, good, Again);
      RetryAt(EraseRun(start, sector, n, good), start, sector, n, d);
      outs := good + [Again];
    } else {
      outs := RunWithRetry(start, sector, n, d, i - 1);
      RunSnoc(start, sector, n, outs, Good);
      GoodAfterRetry(EraseRun(start, sector, n, outs), start, sector, n, d, i - 1);
      outs := outs + [Good];
    }
  }

  lemma {:induction false} GoodRunCounts(start: nat, sector: nat, n: nat, outs: seq<Outcome>)
    requires forall i :: 0 <= i < |outs| ==> outs[i] == Good
    ensures EraseRun(start, sector, n, outs).count == 0
  {
    if outs != [] {
      GoodRunCounts(start, sector, n, outs[..|outs| - 1]);
    }
  }

  // Every sector number is a triangular number and a rest that one retry makes up for.
  lemma {:induction false} TriangleAndRest(n: nat) returns (j: nat, d: nat)
    ensures n == Triangle(j) + d && d <= j
    ensures n >= 2 ==> 1 <= j < n
  {
    if n == 0 {
      j, d := 0, 0;
    } else {
      j, d := TriangleAndRest(n - 1);
      if d < j {
        d := d + 1;
      } else {
        j, d := j + 1, 0;
      }
    }
    if n >= 2 {
      assert Triangle(1) == 1;
      assert j == 0 ==> Triangle(j) == 0;
    }
  }

  // --- The exact condition -----------------------------------------------------------------------------------

  // 'h' is a history of contents while bank 0 of n sectors is erased: the outcomes 'outs' are what the driver saw.
  ghost predicate Erasing(g: Geometry, m: Mem, sector: nat, n: nat, outs: seq<Outcome>, h: seq<Mem>) {
    Trail(h, [m], EraseRun(g.base, sector, n, outs).issued, sector)
  }

  // While bank 0 is erased for a commit the image in bank 1 stays selected, at every point and whatever the device
  // does, if and only if the bank is one erase sector.
  lemma EraseSafeExactly(g: Geometry, m: Mem, sector: nat, n: nat)
    requires Sectored(g, |m|, sector, n) && Detect(g, m) == Some(1)
    ensures (forall outs, h :: Erasing(g, m, sector, n, outs, h) ==> StillSelected(g, m, h)) <==> n == 1
  {
    hide Erasing, StillSelected;
    if n == 1 {
      forall outs, h | Erasing(g, m, sector, n, outs, h)
        ensures StillSelected(g, m, h)
      {
        OneSectorKeeps(g, m, sector, outs, h);
      }
    } else {
      var outs, h := ImageLost(g, m, sector, n);
      LostIsNotSelected(g, m, h);
    }
  }

  ghost predicate StillSelected(g: Geometry, m: Mem, h: seq<Mem>) {
    |h| > 0 && Selected(g, h[|h| - 1]) == Selected(g, m)
  }

  lemma LostIsNotSelected(g: Geometry, m: Mem, h: seq<Mem>)
    requires Fits(g, |m|) && Detect(g, m).Some?
    requires |h| > 0 && |h[|h| - 1]| == |m| && Detect(g, h[|h| - 1]) == None
    ensures !StillSelected(g, m, h)
  {
  }

  lemma OneSectorKeeps(g: Geometry, m: Mem, sector: nat, outs: seq<Outcome>, h: seq<Mem>)
    requires Sectored(g, |m|, sector, 1) && Detect(g, m) == Some(1)
    requires Erasing(g, m, sector, 1, outs, h)
    ensures StillSelected(g, m, h)
  {
    hide Selected, Detect;
    OneSectorRun(g.base, sector, outs);
    OneSectorTrail(h, [m], EraseRun(g.base, sector, 1, outs).issued, g.base, sector);
    ErasedInactive(g, m, 0);
    InactiveSelects(g, m, EraseSector(m, g.base, sector), 0);
  }

  lemma ErasedInactive(g: Geometry, m: Mem, new_: nat)
    requires Fits(g, |m|) && new_ <= 1
    ensures Inactive(g, m, EraseSector(m, BankStart(g, new_), 2 * g.bankWords), new_)
  {
  }

  // With two sectors or more there are outcomes after which neither bank is valid: the image is lost before the new
  // one is written.
  lemma ImageLost(g: Geometry, m: Mem, sector: nat, n: nat) returns (outs: seq<Outcome>, h: seq<Mem>)
    requires Sectored(g, |m|, sector, n) && n >= 2
    ensures Erasing(g, m, sector, n, outs, h)
    ensures |h| > 0 && |h[|h| - 1]| == |m| && Detect(g, h[|h| - 1]) == None
  {
    var j, d := TriangleAndRest(n);
    outs := RunWithRetry(g.base, sector, n, d, j - d + 1);
    var issued := EraseRun(g.base, sector, n, outs).issued;
    ReachesOtherBank(g, sector, n, EraseRun(g.base, sector, n, outs), j, d);
    h := Wiped(m, issued, sector);
    WipedTrail(m, issued, sector);
    WipedByte(m, issued, sector, 0, SigAddr(g, 0));
    WipedByte(m, issued, sector, |issued| - 1, SigAddr(g, 1));
  }

  lemma ReachesOtherBank(g: Geometry, sector: nat, n: nat, run: EraseState, j: nat, d: nat)
    requires n >= 2 && n == Triangle(j) + d && d <= j < n && 2 * g.bankWords == n * sector
    requires OneRetry(run, g.base, sector, d, j - d + 1)
    ensures |run.issued| > 0 && run.issued[0].0 == g.base && run.issued[|run.issued| - 1].0 == BankStart(g, 1)
    ensures forall k :: 0 <= k < |run.issued| ==> run.issued[k].0 + sector <= g.base + 4 * g.bankWords
  {
    LastAddress(run, g.base, sector, n, j, d);
    hide Triangle, OneRetry;
    AtLeastTwo(n, sector);
  }

  lemma LastAddress(run: EraseState, start: nat, sector: nat, n: nat, j: nat, d: nat)
    requires n == Triangle(j) + d && d <= j && OneRetry(run, start, sector, d, j - d + 1)
    ensures |run.issued| == j + 2 && run.addr == start + n * sector && run.issued[j + 1].0 == run.addr
    ensures run.issued[0].0 == start && forall k :: 0 <= k < |run.issued| ==> run.issued[k].0 <= run.addr
  {
    hide Triangle;
  }

  lemma AtLeastTwo(n: nat, sector: nat)
    requires n >= 2
    ensures n * sector >= 2 * sector
  {
  }
}
