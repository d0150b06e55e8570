/**
 * The jet-image rasterizer of sarewt/event_to_image_serialization.py.
 *
 * Each jet is a fixed number of particle slots (eta, phi, pT); zero-padded
 * slots are ordinary particles with pT 0. An image is an n_bins x n_bins grid
 * indexed [eta bin][phi bin].
 */
module ImageSerialization {
  import opened Wrappers
  import opened Util

  datatype Particle = Particle(eta: real, phi: real, pt: real)

  type Jet = seq<Particle>

  /** The two jets of one event: `events[:, 0]` and `events[:, 1]` of the constituent tensor. */
  datatype Dijet = Dijet(j1: Jet, j2: Jet)

  type Image = seq<seq<real>>

  /** ImageSerializer.mjj_cut */
  const MJJ_CUT: real := 1100.0
  const MIN_ANGLE: real := -0.8
  const MAX_ANGLE: real := 0.8

  // ---------------------------------------------------------------------------
  // Binning

  /** How many borders lie strictly below `x`. */
  function CountBelow(borders: seq<real>, x: real): (c: nat)
    ensures c <= |borders|
  {
    if borders == [] then 0 else (if borders[0] < x then 1 else 0) + CountBelow(borders[1..], x)
  }

  /** `np.digitize(x, borders, right=True) - 1`. */
  function Digitize(borders: seq<real>, x: real): (d: int)
    ensures -1 <= d < |borders|
  {
    CountBelow(borders, x) - 1
  }

  /** The row/column the digitized index selects: Python reads index -1 as the last one. */
  function CellIndex(borders: seq<real>, x: real): (k: nat)
    requires |borders| > 0
    ensures k < |borders|
  {
    var d := Digitize(borders, x);
    if d < 0 then |borders| + d else d
  }

  predicate Increasing(b: seq<real>)
  {
    forall i, j :: 0 <= i < j < |b| ==> b[i] < b[j]
  }

  /**
   * Borders np.digitize reads from the bottom up. Decreasing borders are
   * counted from the top instead, and borders that are neither raise
   * ValueError.
   */
  predicate NonDecreasing(b: seq<real>)
  {
    forall i, j :: 0 <= i < j < |b| ==> b[i] <= b[j]
  }

  /** When exactly the first `k` borders lie below `x`, CountBelow finds `k`. */
  lemma {:induction false} CountBelowSplit(b: seq<real>, x: real, k: nat)
    requires k <= |b|
    requires forall j :: 0 <= j < k ==> b[j] < x
    requires forall j :: k <= j < |b| ==> x <= b[j]
    ensures CountBelow(b, x) == k
  {
    if b != [] {
      CountBelowSplit(b[1..], x, if k == 0 then 0 else k - 1);
    }
  }

  /**
   * Right-inclusive digitization: for increasing borders, a value in
   * (b[k-1], b[k]] gets index k - 1; in particular a value exactly on border
   * b[k] falls into the lower bin.
   */
  lemma DigitizeBetween(b: seq<real>, x: real, k: nat)
    requires Increasing(b)
    requires 1 <= k < |b| && b[k - 1] < x <= b[k]
    ensures Digitize(b, x) == k - 1 && CellIndex(b, x) == k - 1
  {
    CountBelowSplit(b, x, k);
  }

  /** A value at or below the first border gets index -1, which selects the last bin. */
  lemma DigitizeBelowWindow(b: seq<real>, x: real)
    requires Increasing(b) && |b| > 0 && x <= b[0]
    ensures Digitize(b, x) == -1 && CellIndex(b, x) == |b| - 1
  {
    CountBelowSplit(b, x, 0);
  }

  /** A value above the last border also lands in the last bin. */
  lemma DigitizeAboveWindow(b: seq<real>, x: real)
    requires Increasing(b) && |b| > 0 && x > b[|b| - 1]
    ensures Digitize(b, x) == |b| - 1 && CellIndex(b, x) == |b| - 1
  {
    CountBelowSplit(b, x, |b|);
  }

  /** `np.linspace(-0.8, 0.8, num=n)`: n evenly spaced borders, both ends included. */
  function BinBorders(n: nat): (b: seq<real>)
    ensures |b| == n
  {
    if n == 1 then [MIN_ANGLE]
    else seq(n, k requires 0 <= k < n => MIN_ANGLE + (k as real) * ((MAX_ANGLE - MIN_ANGLE) / ((n - 1) as real)))
  }

  /** The borders run from -0.8 to 0.8 and increase strictly. */
  lemma BinBordersShape(n: nat)
    requires n >= 2
    ensures BinBorders(n)[0] == MIN_ANGLE && BinBorders(n)[n - 1] == MAX_ANGLE
    ensures Increasing(BinBorders(n))
  {
    var b := BinBorders(n);
    var m := (n - 1) as real;
    var step := (MAX_ANGLE - MIN_ANGLE) / m;
    assert step > 0.0;
    assert m * step == MAX_ANGLE - MIN_ANGLE;
    forall i, j | 0 <= i < j < n ensures b[i] < b[j] {
      assert b[j] - b[i] == ((j - i) as real) * step;
      PositiveProduct((j - i) as real, step);
    }
  }

  lemma PositiveProduct(x: real, y: real)
    requires x > 0.0 && y > 0.0
    ensures x * y > 0.0
  {
  }

  /** The upper window edge 0.8 is a border, so it falls into bin n_bins - 2, not the last one. */
  lemma UpperEdgeBin(n: nat)
    requires n >= 2
    ensures CellIndex(BinBorders(n), MAX_ANGLE) == n - 2
  {
    BinBordersShape(n);
    DigitizeBetween(BinBorders(n), MAX_ANGLE, n - 1);
  }

  /** The lower window edge -0.8 wraps around into the last bin. */
  lemma LowerEdgeBin(n: nat)
    requires n >= 1
    ensures CellIndex(BinBorders(n), MIN_ANGLE) == n - 1
  {
    if n == 1 {
      assert CountBelow(BinBorders(1), MIN_ANGLE) == 0;
    } else {
      BinBordersShape(n);
      DigitizeBelowWindow(BinBorders(n), MIN_ANGLE);
    }
  }

  // ---------------------------------------------------------------------------
  // Rasterization

  /** The pT deposited by particle `q` in cell (i, j). */
  function Deposit(q: Particle, borders: seq<real>, i: nat, j: nat): real
    requires |borders| > 0
  {
    if CellIndex(borders, q.eta) == i && CellIndex(borders, q.phi) == j then q.pt else 0.0
  }

  /** The summed pT of the particles of `jet` whose (eta, phi) cell is (i, j). */
  function CellSum(jet: Jet, borders: seq<real>, i: nat, j: nat): real
    requires |borders| > 0
  {
    if jet == [] then 0.0
    else CellSum(jet[..|jet| - 1], borders, i, j) + Deposit(jet[|jet| - 1], borders, i, j)
  }

  /** The image of one jet: every cell holds the pT that landed in it. */
  function JetImage(jet: Jet, borders: seq<real>): (img: Image)
    requires |borders| > 0
    ensures |img| == |borders| && forall i :: 0 <= i < |img| ==> |img[i]| == |borders|
  {
    var n := |borders|;
    seq(n, i requires 0 <= i < n => seq(n, j requires 0 <= j < n => CellSum(jet, borders, i, j)))
  }

  /**
   * bin_data_to_image: a zeroed N x n_bins x n_bins grid to which every
   * particle of every event adds its pT at its (eta, phi) cell.
   */
  method BinDataToImage(events: seq<Jet>, borders: seq<real>) returns (images: seq<Image>)
    requires |borders| > 0
    requires NonDecreasing(borders)
    ensures |images| == |events|
    ensures forall e :: 0 <= e < |events| ==> images[e] == JetImage(events[e], borders)
  {
    var n := |borders|;
    var grid := new real[|events|, n, n]((_, _, _) => 0.0);
    for e := 0 to |events|
      invariant forall e', i, j :: 0 <= e' < e && 0 <= i < n && 0 <= j < n ==>
        grid[e', i, j] == CellSum(events[e'], borders, i, j)
      invariant forall e', i, j :: e <= e' < |events| && 0 <= i < n && 0 <= j < n ==> grid[e', i, j] == 0.0
    {
      var event := events[e];
      for p := 0 to |event|
        invariant forall i, j :: 0 <= i < n && 0 <= j < n ==> grid[e, i, j] == CellSum(event[..p], borders, i, j)
        invariant forall e', i, j :: 0 <= e' < e && 0 <= i < n && 0 <= j < n ==>
          grid[e', i, j] == CellSum(events[e'], borders, i, j)
        invariant forall e', i, j :: e < e' < |events| && 0 <= i < n && 0 <= j < n ==> grid[e', i, j] == 0.0
      {
        var etaBin := CellIndex(borders, event[p].eta);
        var phiBin := CellIndex(borders, event[p].phi);
        assert event[..p + 1][..p] == event[..p];
        grid[e, etaBin, phiBin] := grid[e, etaBin, phiBin] + event[p].pt;
      }
      assert event[..|event|] == event;
    }
    images := seq(|events|, e requires 0 <= e < |events| reads grid =>
                seq(n, i requires 0 <= i < n reads grid => seq(n, j requires 0 <= j < n reads grid => grid[e, i, j])));
    forall e | 0 <= e < |events| ensures images[e] == JetImage(events[e], borders) {
      var img := JetImage(events[e], borders);
      forall i | 0 <= i < n ensures images[e][i] == img[i] {
        assert forall j :: 0 <= j < n ==> images[e][i][j] == grid[e, i, j] == img[i][j];
      }
    }
  }

  /** convert_events_to_image: both jets binned against the same linspace borders. */
  method ConvertEventsToImage(eventsJ1: seq<Jet>, eventsJ2: seq<Jet>, nBins: nat)
    returns (imagesJ1: seq<Image>, imagesJ2: seq<Image>)
    requires nBins >= 1
    ensures |imagesJ1| == |eventsJ1| && |imagesJ2| == |eventsJ2|
    ensures forall e :: 0 <= e < |eventsJ1| ==> imagesJ1[e] == JetImage(eventsJ1[e], BinBorders(nBins))
    ensures forall e :: 0 <= e < |eventsJ2| ==> imagesJ2[e] == JetImage(eventsJ2[e], BinBorders(nBins))
  {
    var borders := BinBorders(nBins);
    if nBins >= 2 {
      BinBordersShape(nBins);
    }
    imagesJ1 := BinDataToImage(eventsJ1, borders);
    imagesJ2 := BinDataToImage(eventsJ2, borders);
  }

  // ---------------------------------------------------------------------------
  // Totals: every particle lands in exactly one cell

  function SeqSum(s: seq<real>): real
  {
    if s == [] then 0.0 else SeqSum(s[..|s| - 1]) + s[|s| - 1]
  }

  function RowSums(img: Image): (r: seq<real>)
    ensures |r| == |img|
  {
    seq(|img|, i requires 0 <= i < |img| => SeqSum(img[i]))
  }

  /** The total of all cells of an image. */
  function GridSum(img: Image): real
  {
    SeqSum(RowSums(img))
  }

  /** The summed pT of a jet's particles, zero-padded slots included. */
  function SumPt(jet: Jet): real
  {
    if jet == [] then 0.0 else SumPt(jet[..|jet| - 1]) + jet[|jet| - 1].pt
  }

  /** Raising one entry of a sequence by `v` raises its sum by `v`; an index outside leaves it alone. */
  lemma {:induction false} SeqSumBump(s: seq<real>, t: seq<real>, k: int, v: real)
    requires |s| == |t|
    requires forall j :: 0 <= j < |s| ==> t[j] == s[j] + (if j == k then v else 0.0)
    ensures SeqSum(t) == SeqSum(s) + (if 0 <= k < |s| then v else 0.0)
  {
    if s != [] {
      SeqSumBump(s[..|s| - 1], t[..|t| - 1], k, v);
    }
  }

  lemma {:induction false} SeqSumZero(s: seq<real>)
    requires forall j :: 0 <= j < |s| ==> s[j] == 0.0
    ensures SeqSum(s) == 0.0
  {
    if s != [] {
      SeqSumZero(s[..|s| - 1]);
    }
  }

  /** Adding one particle to a jet raises its image's total by that particle's pT. */
  lemma AddParticleTotal(jet: Jet, q: Particle, borders: seq<real>)
    requires |borders| > 0
    ensures GridSum(JetImage(jet + [q], borders)) == GridSum(JetImage(jet, borders)) + q.pt
  {
    var n := |borders|;
    var before, after := JetImage(jet, borders), JetImage(jet + [q], borders);
    var ci, cj := CellIndex(borders, q.eta), CellIndex(borders, q.phi);
    assert (jet + [q])[..|jet|] == jet;
    forall i | 0 <= i < n
      ensures RowSums(after)[i] == RowSums(before)[i] + (if i == ci then q.pt else 0.0)
    {
      assert forall j :: 0 <= j < n ==> after[i][j] == before[i][j] + (if j == (if i == ci then cj else n) then q.pt else 0.0);
      SeqSumBump(before[i], after[i], if i == ci then cj else n, q.pt);
    }
    SeqSumBump(RowSums(before), RowSums(after), ci, q.pt);
  }

  /**
   * Every particle lands in exactly one cell, so the total of a jet's image
   * is the summed pT of all its particles, padding included.
   */
  lemma {:induction false} ImageTotalIsSumPt(jet: Jet, borders: seq<real>)
    requires |borders| > 0
    ensures GridSum(JetImage(jet, borders)) == SumPt(jet)
  {
    if jet == [] {
      var img := JetImage(jet, borders);
      forall i | 0 <= i < |img| ensures RowSums(img)[i] == 0.0 {
        SeqSumZero(img[i]);
      }
      SeqSumZero(RowSums(img));
    } else {
      var init, q := jet[..|jet| - 1], jet[|jet| - 1];
      ImageTotalIsSumPt(init, borders);
      assert init + [q] == jet;
      AddParticleTotal(init, q, borders);
    }
  }

  // ---------------------------------------------------------------------------
  // Normalisation

  /** Every cell divided by `p`. */
  function Scale(img: Image, p: real): (r: Image)
    requires p != 0.0
    ensures |r| == |img| && forall i :: 0 <= i < |img| ==> |r[i]| == |img[i]|
  {
    seq(|img|, i requires 0 <= i < |img| => seq(|img[i]|, j requires 0 <= j < |img[i]| => img[i][j] / p))
  }

  lemma {:induction false} SeqSumDivide(s: seq<real>, t: seq<real>, p: real)
    requires p != 0.0 && |s| == |t|
    requires forall j :: 0 <= j < |s| ==> t[j] == s[j] / p
    ensures SeqSum(t) == SeqSum(s) / p
  {
    if s != [] {
      SeqSumDivide(s[..|s| - 1], t[..|t| - 1], p);
    }
  }

  /** Dividing every cell by the jet pT divides the image total by it. */
  lemma ScaledTotal(img: Image, p: real)
    requires p != 0.0
    ensures GridSum(Scale(img, p)) == GridSum(img) / p
  {
    var r := Scale(img, p);
    forall i | 0 <= i < |img| ensures RowSums(r)[i] == RowSums(img)[i] / p {
      SeqSumDivide(img[i], r[i], p);
    }
    SeqSumDivide(RowSums(img), RowSums(r), p);
  }

  /** A normalised jet image carries the jet's particle pT as a fraction of the jet pT: 1 when they agree. */
  lemma NormalisedTotal(jet: Jet, borders: seq<real>, jetPt: real)
    requires |borders| > 0 && jetPt != 0.0
    ensures GridSum(Scale(JetImage(jet, borders), jetPt)) == SumPt(jet) / jetPt
    ensures SumPt(jet) == jetPt ==> GridSum(Scale(JetImage(jet, borders), jetPt)) == 1.0
  {
    ScaledTotal(JetImage(jet, borders), jetPt);
    ImageTotalIsSumPt(jet, borders);
    if SumPt(jet) == jetPt {
      assert jetPt / jetPt == 1.0;
    }
  }

  /** Every row has one value per label name, as the dataset layout demands. */
  predicate Tabular(features: seq<Row>, labels: seq<string>)
  {
    forall i :: 0 <= i < |features| ==> |features[i]| == |labels|
  }

  /** The jet pT columns hold no zero (the division would give inf or nan). */
  predicate NonzeroJetPt(features: seq<Row>, labels: seq<string>)
    requires Tabular(features, labels)
  {
    forall i, k :: 0 <= i < |features| && 0 <= k < |labels| && (labels[k] == "j1Pt" || labels[k] == "j2Pt") ==>
      features[i][k] != 0.0
  }

  datatype ImageError = AssertionFailed | LabelMissing(name: string) | MaskLengthMismatch

  /**
   * normalize_by_jet_pt: divide every cell of event i's j1 (j2) image by
   * that event's j1Pt (j2Pt) value, the columns being found by
   * `labels.index`, which fails for a missing name.
   */
  function NormalizeByJetPt(imagesJ1: seq<Image>, imagesJ2: seq<Image>, jetFeatures: seq<Row>, labels: seq<string>)
    : (r: Result<(seq<Image>, seq<Image>), ImageError>)
    requires |imagesJ1| == |imagesJ2| == |jetFeatures|
    requires Tabular(jetFeatures, labels) && NonzeroJetPt(jetFeatures, labels)
    ensures r.Err? <==> "j1Pt" !in labels || "j2Pt" !in labels
    ensures "j1Pt" !in labels ==> r == Err(LabelMissing("j1Pt"))
    ensures "j1Pt" in labels && "j2Pt" !in labels ==> r == Err(LabelMissing("j2Pt"))
    ensures r.Ok? ==>
      var k1, k2 := IndexOf(labels, "j1Pt").value, IndexOf(labels, "j2Pt").value;
      && |r.value.0| == |imagesJ1| && |r.value.1| == |imagesJ2|
      && (forall i :: 0 <= i < |imagesJ1| ==> SameShape(r.value.0[i], imagesJ1[i]) && SameShape(r.value.1[i], imagesJ2[i]))
      && (forall i, a, b :: 0 <= i < |imagesJ1| && 0 <= a < |imagesJ1[i]| && 0 <= b < |imagesJ1[i][a]| ==>
            r.value.0[i][a][b] * jetFeatures[i][k1] == imagesJ1[i][a][b])
      && (forall i, a, b :: 0 <= i < |imagesJ2| && 0 <= a < |imagesJ2[i]| && 0 <= b < |imagesJ2[i][a]| ==>
            r.value.1[i][a][b] * jetFeatures[i][k2] == imagesJ2[i][a][b])
  {
    match (IndexOf(labels, "j1Pt"), IndexOf(labels, "j2Pt"))
    case (None, _) => Err(LabelMissing("j1Pt"))
    case (Some(_), None) => Err(LabelMissing("j2Pt"))
    case (Some(k1), Some(k2)) =>
      Ok((seq(|imagesJ1|, i requires 0 <= i < |imagesJ1| => Scale(imagesJ1[i], jetFeatures[i][k1])),
          seq(|imagesJ2|, i requires 0 <= i < |imagesJ2| => Scale(imagesJ2[i], jetFeatures[i][k2]))))
  }

  predicate SameShape(a: Image, b: Image)
  {
    |a| == |b| && forall i :: 0 <= i < |a| ==> |a[i]| == |b[i]|
  }

  // ---------------------------------------------------------------------------
  // read_events_write_images

  /** `s[:n]` in Python: a negative `n` counts from the end. */
  function PyTake<T>(s: seq<T>, n: int): (r: seq<T>)
    ensures |r| <= |s|
    ensures 0 <= n ==> |r| == if n < |s| then n else |s|
    ensures r == s[..|r|]
  {
    if n >= 0 then (if n < |s| then s[..n] else s)
    else if |s| + n > 0 then s[..|s| + n] else []
  }

  predicate IsPermutation(perm: seq<nat>, n: nat)
  {
    |perm| == n && (forall i :: 0 <= i < n ==> perm[i] < n)
    && forall i, j :: 0 <= i < j < n ==> perm[i] != perm[j]
  }

  /** `rows[perm]`: the rows in the order the permutation lists them, none lost and none repeated. */
  function Permute<T>(rows: seq<T>, perm: seq<nat>): (r: seq<T>)
    requires IsPermutation(perm, |rows|)
    ensures |r| == |rows|
    ensures multiset(r) == multiset(rows)
  {
    var r := seq(|rows|, i requires 0 <= i < |rows| => rows[perm[i]]);
    ReorderingKeepsRows(rows, perm, r);
    r
  }

  /**
   * Reading `rows` in the order of a permutation gives the same rows. Take
   * out the row the last position reads; the others read the shorter
   * sequence through the permutation with that index closed up.
   */
  lemma {:induction false} ReorderingKeepsRows<T>(rows: seq<T>, perm: seq<nat>, r: seq<T>)
    requires IsPermutation(perm, |rows|) && |r| == |rows|
    requires forall i :: 0 <= i < |r| ==> r[i] == rows[perm[i]]
    ensures multiset(r) == multiset(rows)
    decreases |rows|
  {
    var n := |rows|;
    if n > 0 {
      var p := perm[n - 1];
      var rest := rows[..p] + rows[p + 1..];
      var closed := seq(n - 1, i requires 0 <= i < n - 1 => if perm[i] < p then perm[i] else perm[i] - 1);
      forall i | 0 <= i < n - 1
        ensures perm[i] != p && r[i] == rest[closed[i]]
      {
      }
      ReorderingKeepsRows(rest, closed, r[..n - 1]);
      assert r == r[..n - 1] + [rows[p]];
      assert rows == rows[..p] + [rows[p]] + rows[p + 1..];
    }
  }

  /** The rows kept when more than `nEvts` were read: permuted, then cut to the first `nEvts`. */
  function Subsample<T>(rows: seq<T>, perm: seq<nat>, nEvts: int): (r: seq<T>)
    requires IsPermutation(perm, |rows|)
    ensures forall i :: 0 <= i < |r| ==> r[i] in rows
    ensures multiset(r) <= multiset(rows)
  {
    if |rows| > nEvts then
      var shuffled := Permute(rows, perm);
      var r := PyTake(shuffled, nEvts);
      assert shuffled == r + shuffled[|r|..];
      r
    else rows
  }

  /** Subsampling never keeps more than `nEvts` rows and keeps exactly `nEvts` when more were read. */
  lemma SubsampleSize<T>(rows: seq<T>, perm: seq<nat>, nEvts: int)
    requires IsPermutation(perm, |rows|) && nEvts >= 0
    ensures |Subsample(rows, perm, nEvts)| <= |rows|
    ensures |rows| <= nEvts ==> Subsample(rows, perm, nEvts) == rows
    ensures |rows| > nEvts ==> |Subsample(rows, perm, nEvts)| == nEvts
  {
  }

  /** The same permutation and cut applied to two equal-length arrays keep their rows paired. */
  lemma SubsampleJointly<A, B>(a: seq<A>, b: seq<B>, perm: seq<nat>, nEvts: int)
    requires |a| == |b| && IsPermutation(perm, |a|)
    ensures |Subsample(a, perm, nEvts)| == |Subsample(b, perm, nEvts)|
    ensures Zip(Subsample(a, perm, nEvts), Subsample(b, perm, nEvts)) == Subsample(Zip(a, b), perm, nEvts)
  {
    if |a| > nEvts {
      var za, zb := Permute(a, perm), Permute(b, perm);
      assert Zip(za, zb) == Permute(Zip(a, b), perm);
      var n := |PyTake(za, nEvts)|;
      assert Zip(za[..n], zb[..n]) == Zip(za, zb)[..n];
    }
  }

  /** The mJJ column under the label order of the file. */
  function ColumnOf(rows: seq<Row>, k: nat): (col: seq<real>)
    requires forall i :: 0 <= i < |rows| ==> k < |rows[i]|
    ensures |col| == |rows|
  {
    seq(|rows|, i requires 0 <= i < |rows| => rows[i][k])
  }

  function J1s(events: seq<Dijet>): (r: seq<Jet>)
    ensures |r| == |events| && forall i :: 0 <= i < |events| ==> r[i] == events[i].j1
  {
    seq(|events|, i requires 0 <= i < |events| => events[i].j1)
  }

  function J2s(events: seq<Dijet>): (r: seq<Jet>)
    ensures |r| == |events| && forall i :: 0 <= i < |events| ==> r[i] == events[i].j2
  {
    seq(|events|, i requires 0 <= i < |events| => events[i].j2)
  }

  /** What read_events_write_images writes: images stacked as [j1, j2], the kept feature rows, the labels. */
  datatype ImageDataset = ImageDataset(images: seq<seq<Image>>, features: seq<Row>, labels: seq<string>)

  /**
   * read_events_write_images, minus the file I/O: subsample to `nEvts` rows
   * if more were read (`perm` stands for the random permutation), keep rows
   * with mJJ > 1100, rasterize both jets, normalise by jet pT and stack.
   */
  method ReadEventsWriteImages(events: seq<Dijet>, features: seq<Row>, labels: seq<string>,
                               nEvts: int, perm: seq<nat>, nBins: nat)
    returns (r: Result<ImageDataset, ImageError>)
    requires nBins >= 1
    requires Tabular(features, labels) && NonzeroJetPt(features, labels)
    requires IsPermutation(perm, |features|)
    ensures |features| > nEvts && |events| != |features| ==> r == Err(AssertionFailed)
    ensures r.Ok? <==> |events| == |features| && "mJJ" in labels && "j1Pt" in labels && "j2Pt" in labels
    ensures !(|features| > nEvts && |events| != |features|) && "mJJ" !in labels ==> r == Err(LabelMissing("mJJ"))
    ensures |features| <= nEvts && |events| != |features| && "mJJ" in labels ==> r == Err(MaskLengthMismatch)
    ensures |events| == |features| && "mJJ" in labels && "j1Pt" !in labels ==> r == Err(LabelMissing("j1Pt"))
    ensures |events| == |features| && "mJJ" in labels && "j1Pt" in labels && "j2Pt" !in labels
      ==> r == Err(LabelMissing("j2Pt"))
    ensures r.Ok? ==>
      var kept := Subsample(features, perm, nEvts);
      var mask := ValueMask(ColumnOf(kept, IndexOf(labels, "mJJ").value), MJJ_CUT, Gt);
      && r.value.labels == labels
      && r.value.features == MaskRows(kept, mask)
      && NormalisedImages(r.value.images, MaskRows(Subsample(events, perm, nEvts), mask), r.value.features, labels, nBins)
  {
    var ev, f := events, features;
    if |features| > nEvts {
      if |events| != |features| {
        return Err(AssertionFailed);
      }
      ev, f := PyTake(Permute(events, perm), nEvts), PyTake(Permute(features, perm), nEvts);
    }
    var mjjIdx := IndexOf(labels, "mJJ");
    if mjjIdx.None? {
      return Err(LabelMissing("mJJ"));
    }
    if |ev| != |f| {
      return Err(MaskLengthMismatch);
    }
    assert |events| == |features|;
    assert ev == Subsample(events, perm, nEvts) && f == Subsample(features, perm, nEvts);
    var mjj := ColumnOf(f, mjjIdx.value);
    var mask := ValueMask(mjj, MJJ_CUT, Gt);
    ev, f := FilterArraysOnValue([ev], mjj, MJJ_CUT, Gt)[0], FilterArraysOnValue([f], mjj, MJJ_CUT, Gt)[0];
    MaskRowsZip(Subsample(events, perm, nEvts), Subsample(features, perm, nEvts), mask);
    KeptRowsStayTabular(Subsample(features, perm, nEvts), mask, labels, features, perm, nEvts);
    var images := ImagesOfSelection(ev, f, labels, nBins);
    if images.Err? {
      return Err(images.error);
    }
    r := Ok(ImageDataset(images.value, f, labels));
  }

  /**
   * `images` is the stack [j1 images, j2 images] of the events, each image
   * the jet's rasterization divided by that event's jet pT.
   */
  predicate NormalisedImages(images: seq<seq<Image>>, events: seq<Dijet>, features: seq<Row>,
                             labels: seq<string>, nBins: nat)
    requires nBins >= 1
  {
    && |images| == 2 && |images[0]| == |events| && |images[1]| == |events| && |features| == |events|
    && match (IndexOf(labels, "j1Pt"), IndexOf(labels, "j2Pt"))
       case (Some(k1), Some(k2)) =>
         forall i :: 0 <= i < |events| ==>
           && k1 < |features[i]| && k2 < |features[i]|
           && features[i][k1] != 0.0 && features[i][k2] != 0.0
           && images[0][i] == Scale(JetImage(events[i].j1, BinBorders(nBins)), features[i][k1])
           && images[1][i] == Scale(JetImage(events[i].j2, BinBorders(nBins)), features[i][k2])
       case _ => false
  }

  /** The convert, normalise and stack steps of read_events_write_images on the kept events. */
  method ImagesOfSelection(events: seq<Dijet>, features: seq<Row>, labels: seq<string>, nBins: nat)
    returns (r: Result<seq<seq<Image>>, ImageError>)
    requires nBins >= 1 && |events| == |features|
    requires Tabular(features, labels) && NonzeroJetPt(features, labels)
    ensures r.Err? <==> "j1Pt" !in labels || "j2Pt" !in labels
    ensures "j1Pt" !in labels ==> r == Err(LabelMissing("j1Pt"))
    ensures "j1Pt" in labels && "j2Pt" !in labels ==> r == Err(LabelMissing("j2Pt"))
    ensures r.Ok? ==> NormalisedImages(r.value, events, features, labels, nBins)
  {
    var imagesJ1, imagesJ2 := ConvertEventsToImage(J1s(events), J2s(events), nBins);
    var normalised := NormalizeByJetPt(imagesJ1, imagesJ2, features, labels);
    if normalised.Err? {
      return Err(normalised.error);
    }
    r := Ok([normalised.value.0, normalised.value.1]);
  }

  /** Subsampling and masking keep only rows of the input, so the table shape and the nonzero jet pT carry over. */
  lemma KeptRowsStayTabular(kept: seq<Row>, mask: seq<bool>, labels: seq<string>,
                            features: seq<Row>, perm: seq<nat>, nEvts: int)
    requires Tabular(features, labels) && NonzeroJetPt(features, labels)
    requires IsPermutation(perm, |features|) && kept == Subsample(features, perm, nEvts)
    requires |mask| == |kept|
    ensures Tabular(MaskRows(kept, mask), labels) && NonzeroJetPt(MaskRows(kept, mask), labels)
  {
    assert forall i :: 0 <= i < |kept| ==> kept[i] in features;
    var p := (row: Row) => |row| == |labels| &&
      forall k :: 0 <= k < |labels| && (labels[k] == "j1Pt" || labels[k] == "j2Pt") ==> row[k] != 0.0;
    MaskRowsKeeps(kept, mask, p);
  }
}
