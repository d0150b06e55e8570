/**
 * The selection engine of sarewt/util.py: the fixed feature-name table, the
 * boolean keep-mask built from named cuts, and the application of one mask to
 * several row-aligned arrays.
 *
 * A feature row is the event-level vector (mJJ, j1Pt, j1Eta, ...). A cut
 * dictionary is a sequence of (key, threshold) entries in insertion order.
 */
module Util {
  import opened Wrappers

  type Row = seq<real>

  datatype Cut = Cut(key: string, value: real)

  /** FEAT_NAMES: the column names of the event feature matrix, in column order. */
  const FeatNames: seq<string> :=
    ["mJJ", "j1Pt", "j1Eta", "j1Phi", "j1M", "j1E", "j2Pt", "j2M", "j2E", "DeltaEtaJJ", "DeltaPhiJJ"]

  /** Position of the first occurrence of `name` (Python's `list.index`; `None` where it raises). */
  function IndexOf(names: seq<string>, name: string): (r: Option<nat>)
    ensures r.Some? <==> name in names
    ensures r.Some? ==> r.value < |names| && names[r.value] == name && name !in names[..r.value]
  {
    if names == [] then None
    else if names[0] == name then Some(0)
    else match IndexOf(names[1..], name)
      case None => None
      case Some(k) => assert names[1..][..k] == names[1..k + 1]; Some(k + 1)
  }

  /** FEAT_IDX: name-to-column lookup in FEAT_NAMES. */
  function FeatIdx(name: string): Option<nat> { IndexOf(FeatNames, name) }

  // The columns get_mask_for_cuts reads, as FEAT_IDX gives them (see FeatIdxColumns).
  const MJJ_COL: nat := 0
  const J1PT_COL: nat := 1
  const J1ETA_COL: nat := 2
  const J2PT_COL: nat := 6
  const DETAJJ_COL: nat := 9

  /** FEAT_IDX gives mJJ column 0, j1Pt column 1 and j1Eta column 2. */
  lemma FeatIdxLeadingColumns()
    ensures FeatIdx("mJJ") == Some(MJJ_COL) && FeatIdx("j1Pt") == Some(J1PT_COL)
    ensures FeatIdx("j1Eta") == Some(J1ETA_COL)
  {
  }

  /** FEAT_IDX gives j2Pt column 6 and DeltaEtaJJ column 9. */
  lemma FeatIdxLaterColumns()
    ensures FeatIdx("j2Pt") == Some(J2PT_COL)
    ensures FeatIdx("DeltaEtaJJ") == Some(DETAJJ_COL)
  {
    assert FeatNames[6] == "j2Pt" && "j2Pt" !in FeatNames[..6];
    assert FeatNames[9] == "DeltaEtaJJ" && "DeltaEtaJJ" !in FeatNames[..9];
  }

  /** jXPt and j2Eta are not columns: their cuts are computed from other columns. */
  lemma DerivedKeysAreNotColumns()
    ensures FeatIdx("jXPt") == None && FeatIdx("j2Eta") == None
  {
    assert "jXPt" !in FeatNames && "j2Eta" !in FeatNames;
  }

  /** The FEAT_IDX column of the simple threshold keys mJJ, j1Pt and j2Pt. */
  function ThresholdColumn(key: string): nat
  {
    if key == "mJJ" then MJJ_COL else if key == "j1Pt" then J1PT_COL else J2PT_COL
  }

  function Abs(x: real): real { if x < 0.0 then -x else x }

  /** The keys get_mask_for_cuts acts on; every other key is ignored. */
  predicate Recognised(key: string)
  {
    key in {"sideband", "signalregion", "mJJ", "j1Pt", "j2Pt", "jXPt", "j1Eta", "j2Eta"}
  }

  /** How many columns a row needs for the cut `key` to be evaluated without an IndexError. */
  function NeededWidth(key: string): nat
  {
    if key == "sideband" || key == "signalregion" || key == "j2Eta" then 10
    else if key == "mJJ" then 1
    else if key == "j1Pt" then 2
    else if key == "j1Eta" then 3
    else if key == "j2Pt" || key == "jXPt" then 7
    else 0
  }

  predicate Evaluable(row: Row, cuts: seq<Cut>)
  {
    forall c :: c in cuts ==> |row| >= NeededWidth(c.key)
  }

  predicate AllEvaluable(features: seq<Row>, cuts: seq<Cut>)
  {
    forall i :: 0 <= i < |features| ==> Evaluable(features[i], cuts)
  }

  /** Whether one row passes one cut: the branch of get_mask_for_cuts taken for `cut.key`. */
  predicate Passes(row: Row, cut: Cut)
    requires |row| >= NeededWidth(cut.key)
  {
    var v := cut.value;
    if cut.key == "sideband" then Abs(row[DETAJJ_COL]) > v
    else if cut.key == "signalregion" then Abs(row[DETAJJ_COL]) <= v
    else if cut.key == "mJJ" || cut.key == "j1Pt" || cut.key == "j2Pt" then row[ThresholdColumn(cut.key)] > v
    else if cut.key == "jXPt" then row[J1PT_COL] > v || row[J2PT_COL] > v
    else if cut.key == "j1Eta" then Abs(row[J1ETA_COL]) < v
    else if cut.key == "j2Eta" then Abs(row[DETAJJ_COL] + row[J1ETA_COL]) < v
    else true
  }

  /** A row survives a cut dictionary when it passes every cut in it. */
  predicate Survives(row: Row, cuts: seq<Cut>)
    requires Evaluable(row, cuts)
  {
    forall c :: c in cuts ==> Passes(row, c)
  }

  /**
   * get_mask_for_cuts: start from an all-true mask and, cut by cut, narrow it
   * row by row (the source's `mask *= ...`).
   */
  method GetMaskForCuts(features: seq<Row>, cuts: seq<Cut>) returns (mask: seq<bool>)
    requires AllEvaluable(features, cuts)
    ensures |mask| == |features|
    ensures forall i :: 0 <= i < |features| ==> mask[i] == Survives(features[i], cuts)
    ensures mask == Mask(features, cuts)
  {
    var m := new bool[|features|](_ => true);
    var k := 0;
    while k < |cuts|
      invariant 0 <= k <= |cuts|
      invariant forall i :: 0 <= i < m.Length ==> m[i] == Survives(features[i], cuts[..k])
    {
      assert forall i :: 0 <= i < m.Length ==> |features[i]| >= NeededWidth(cuts[k].key);
      assert cuts[..k + 1] == cuts[..k] + [cuts[k]];
      var i := 0;
      while i < m.Length
        invariant 0 <= i <= m.Length
        invariant forall j :: 0 <= j < i ==> m[j] == Survives(features[j], cuts[..k + 1])
        invariant forall j :: i <= j < m.Length ==> m[j] == Survives(features[j], cuts[..k])
      {
        m[i] := m[i] && Passes(features[i], cuts[k]);
        i := i + 1;
      }
      k := k + 1;
    }
    assert cuts[..k] == cuts;
    mask := m[..];
  }

  /** The keep-mask as a value: the specification GetMaskForCuts is proved against. */
  function Mask(features: seq<Row>, cuts: seq<Cut>): (m: seq<bool>)
    requires AllEvaluable(features, cuts)
    ensures |m| == |features|
  {
    seq(|features|, i requires 0 <= i < |features| => Survives(features[i], cuts))
  }

  /** With no cuts the mask has one entry per row and all of them are true. */
  lemma NoCutsKeepsAll(features: seq<Row>)
    ensures |Mask(features, [])| == |features|
    ensures forall i :: 0 <= i < |features| ==> Mask(features, [])[i]
  {
  }

  /** Cuts compose conjunctively: splitting the dictionary splits the mask into an AND. */
  lemma CutsConjoin(row: Row, a: seq<Cut>, b: seq<Cut>)
    requires Evaluable(row, a + b)
    ensures Evaluable(row, a) && Evaluable(row, b)
    ensures Survives(row, a + b) <==> Survives(row, a) && Survives(row, b)
  {
    assert forall c :: c in a + b <==> c in a || c in b;
  }

  /** The order of the dictionary's entries does not matter. */
  lemma CutOrderIrrelevant(row: Row, a: seq<Cut>, b: seq<Cut>)
    requires multiset(a) == multiset(b)
    requires Evaluable(row, a)
    ensures Evaluable(row, b)
    ensures Survives(row, a) <==> Survives(row, b)
  {
    assert forall c :: c in a <==> c in multiset(a);
    assert forall c :: c in b <==> c in multiset(b);
  }

  /** An unrecognised key, wherever it stands, leaves the mask unchanged. */
  lemma UnknownKeyIgnored(row: Row, a: seq<Cut>, b: seq<Cut>, key: string, v: real)
    requires !Recognised(key)
    requires Evaluable(row, a + b)
    ensures Evaluable(row, a + [Cut(key, v)] + b)
    ensures Survives(row, a + [Cut(key, v)] + b) <==> Survives(row, a + b)
  {
    var mid := a + [Cut(key, v)] + b;
    assert forall c :: c in mid <==> c in a || c == Cut(key, v) || c in b;
    assert forall c :: c in a + b <==> c in a || c in b;
    assert Passes(row, Cut(key, v));
  }

  /** mJJ, j1Pt and j2Pt read columns 0, 1 and 6 and keep strictly greater values only. */
  lemma ThresholdCuts(row: Row, v: real)
    requires |row| >= 7
    ensures Survives(row, [Cut("mJJ", v)]) <==> row[0] > v
    ensures Survives(row, [Cut("j1Pt", v)]) <==> row[1] > v
    ensures Survives(row, [Cut("j2Pt", v)]) <==> row[6] > v
    ensures Survives(row, [Cut("jXPt", v)]) <==> row[1] > v || row[6] > v
  {
    assert Passes(row, Cut("mJJ", v)) <==> row[0] > v;
    assert Passes(row, Cut("j1Pt", v)) <==> row[1] > v;
    assert Passes(row, Cut("j2Pt", v)) <==> row[6] > v;
    assert Passes(row, Cut("jXPt", v)) <==> row[1] > v || row[6] > v;
  }

  /** |j1Eta| and the derived |DeltaEtaJJ + j1Eta| are both cut strictly. */
  lemma EtaCuts(row: Row, v: real)
    requires |row| >= 10
    ensures Survives(row, [Cut("j1Eta", v)]) <==> Abs(row[2]) < v
    ensures Survives(row, [Cut("j2Eta", v)]) <==> Abs(row[9] + row[2]) < v
  {
    assert Passes(row, Cut("j1Eta", v)) <==> Abs(row[2]) < v;
    assert Passes(row, Cut("j2Eta", v)) <==> Abs(row[9] + row[2]) < v;
  }

  /**
   * For one threshold, sideband (|DeltaEtaJJ| > v) and signal region
   * (|DeltaEtaJJ| <= v) split the rows in two, and asking for both keeps none.
   */
  lemma SidebandSignalRegionPartition(row: Row, v: real)
    requires |row| >= 10
    ensures Survives(row, [Cut("sideband", v)]) <==> Abs(row[9]) > v
    ensures Survives(row, [Cut("signalregion", v)]) <==> Abs(row[9]) <= v
    ensures Survives(row, [Cut("sideband", v)]) != Survives(row, [Cut("signalregion", v)])
    ensures !Survives(row, [Cut("sideband", v), Cut("signalregion", v)])
  {
    assert Passes(row, Cut("sideband", v)) <==> Abs(row[9]) > v;
    assert Passes(row, Cut("signalregion", v)) <==> Abs(row[9]) <= v;
    assert Cut("sideband", v) in [Cut("sideband", v), Cut("signalregion", v)];
    assert Cut("signalregion", v) in [Cut("sideband", v), Cut("signalregion", v)];
  }

  // ---------------------------------------------------------------------------
  // Applying a mask: `a[mask]` on a numpy array keeps the rows at true positions.

  /** The positions at which `mask` is true, in increasing order. */
  function TrueIndices(mask: seq<bool>): (r: seq<nat>)
    ensures forall k :: 0 <= k < |r| ==> r[k] < |mask| && mask[r[k]]
    ensures forall k, l :: 0 <= k < l < |r| ==> r[k] < r[l]
    ensures forall i :: 0 <= i < |mask| && mask[i] ==> i in r
  {
    if mask == [] then []
    else
      var prev := TrueIndices(mask[..|mask| - 1]);
      if mask[|mask| - 1] then prev + [|mask| - 1] else prev
  }

  /** `a[mask]`: the rows of `a` at the true positions of `mask`, in order. */
  function MaskRows<T>(a: seq<T>, mask: seq<bool>): (r: seq<T>)
    requires |a| == |mask|
  {
    if a == [] then []
    else
      var prev := MaskRows(a[..|a| - 1], mask[..|mask| - 1]);
      if mask[|mask| - 1] then prev + [a[|a| - 1]] else prev
  }

  /** MaskRows keeps exactly the rows at true positions, in their original order. */
  lemma {:induction false} MaskRowsPicks<T>(a: seq<T>, mask: seq<bool>)
    requires |a| == |mask|
    ensures |MaskRows(a, mask)| == |TrueIndices(mask)|
    ensures forall k :: 0 <= k < |MaskRows(a, mask)| ==> MaskRows(a, mask)[k] == a[TrueIndices(mask)[k]]
  {
    if a != [] {
      MaskRowsPicks(a[..|a| - 1], mask[..|mask| - 1]);
    }
  }

  /** Two arrays of one length masked alike stay row-aligned: masking commutes with pairing. */
  lemma {:induction false} MaskRowsZip<A, B>(a: seq<A>, b: seq<B>, mask: seq<bool>)
    requires |a| == |b| == |mask|
    ensures |MaskRows(a, mask)| == |MaskRows(b, mask)|
    ensures Zip(MaskRows(a, mask), MaskRows(b, mask)) == MaskRows(Zip(a, b), mask)
  {
    if a != [] {
      var n := |a| - 1;
      MaskRowsZip(a[..n], b[..n], mask[..n]);
      assert Zip(a, b)[..n] == Zip(a[..n], b[..n]);
      if mask[n] {
        ZipSnoc(MaskRows(a[..n], mask[..n]), MaskRows(b[..n], mask[..n]), a[n], b[n]);
      }
    }
  }

  /** Every row MaskRows keeps satisfies any property the mask guarantees. */
  lemma {:induction false} MaskRowsKeeps<T>(a: seq<T>, mask: seq<bool>, p: T -> bool)
    requires |a| == |mask|
    requires forall i :: 0 <= i < |a| && mask[i] ==> p(a[i])
    ensures forall k :: 0 <= k < |MaskRows(a, mask)| ==> p(MaskRows(a, mask)[k])
  {
    MaskRowsPicks(a, mask);
  }

  function Zip<A, B>(a: seq<A>, b: seq<B>): (r: seq<(A, B)>)
    requires |a| == |b|
    ensures |r| == |a| && forall i :: 0 <= i < |a| ==> r[i] == (a[i], b[i])
  {
    seq(|a|, i requires 0 <= i < |a| => (a[i], b[i]))
  }

  lemma ZipSnoc<A, B>(a: seq<A>, b: seq<B>, x: A, y: B)
    requires |a| == |b|
    ensures Zip(a + [x], b + [y]) == Zip(a, b) + [(x, y)]
  {
  }

  /** mask_arrays: apply one mask to every array given. */
  function MaskArrays<T>(arrays: seq<seq<T>>, mask: seq<bool>): (r: seq<seq<T>>)
    requires forall k :: 0 <= k < |arrays| ==> |arrays[k]| == |mask|
    ensures |r| == |arrays|
    ensures forall k :: 0 <= k < |r| ==> r[k] == MaskRows(arrays[k], mask)
  {
    seq(|arrays|, k requires 0 <= k < |arrays| => MaskRows(arrays[k], mask))
  }

  /** The masked arrays all have the same length: the number of true entries. */
  lemma MaskArraysAligned<T>(arrays: seq<seq<T>>, mask: seq<bool>)
    requires forall k :: 0 <= k < |arrays| ==> |arrays[k]| == |mask|
    ensures forall k :: 0 <= k < |arrays| ==> |MaskArrays(arrays, mask)[k]| == |TrueIndices(mask)|
  {
    forall k | 0 <= k < |arrays|
      ensures |MaskArrays(arrays, mask)[k]| == |TrueIndices(mask)|
    {
      MaskRowsPicks(arrays[k], mask);
    }
  }

  /** `comp(filter_arr, filter_val)` evaluated elementwise. */
  function ValueMask(filterArr: seq<real>, filterVal: real, comp: (real, real) -> bool): (m: seq<bool>)
    ensures |m| == |filterArr|
    ensures forall i :: 0 <= i < |m| ==> m[i] == comp(filterArr[i], filterVal)
  {
    seq(|filterArr|, i requires 0 <= i < |filterArr| => comp(filterArr[i], filterVal))
  }

  /** `operator.gt`, the default comparison of filter_arrays_on_value. */
  function Gt(x: real, y: real): bool { x > y }

  /** filter_arrays_on_value: mask every array by `comp(filter_arr, filter_val)`. */
  function FilterArraysOnValue<T>(arrays: seq<seq<T>>, filterArr: seq<real>, filterVal: real,
                                  comp: (real, real) -> bool): (r: seq<seq<T>>)
    requires forall k :: 0 <= k < |arrays| ==> |arrays[k]| == |filterArr|
    ensures |r| == |arrays|
    ensures forall k :: 0 <= k < |r| ==> r[k] == MaskRows(arrays[k], ValueMask(filterArr, filterVal, comp))
  {
    MaskArrays(arrays, ValueMask(filterArr, filterVal, comp))
  }

  /** Each filtered array holds exactly the rows whose filter value passes the comparison, in order. */
  lemma FilterArraysOnValueKeeps<T>(arrays: seq<seq<T>>, filterArr: seq<real>, filterVal: real,
                                    comp: (real, real) -> bool, k: nat)
    requires forall j :: 0 <= j < |arrays| ==> |arrays[j]| == |filterArr|
    requires k < |arrays|
    ensures var idx := TrueIndices(ValueMask(filterArr, filterVal, comp));
      && |FilterArraysOnValue(arrays, filterArr, filterVal, comp)[k]| == |idx|
      && (forall j :: 0 <= j < |idx| ==> comp(filterArr[idx[j]], filterVal))
      && (forall i :: 0 <= i < |filterArr| && comp(filterArr[i], filterVal) ==> i in idx)
      && (forall j :: 0 <= j < |idx| ==>
            FilterArraysOnValue(arrays, filterArr, filterVal, comp)[k][j] == arrays[k][idx[j]])
  {
    MaskRowsPicks(arrays[k], ValueMask(filterArr, filterVal, comp));
  }
}
