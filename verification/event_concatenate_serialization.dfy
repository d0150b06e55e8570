/**
 * The split and naming helpers of sarewt/event_concatenate_serialization.py:
 * how many parts a concatenated dataset is cut into, numpy's array_split,
 * the `_NNN` part-file names, the cut dictionary of read_concat_write and
 * the UTF-8 encoding of the label lists.
 */
module ConcatSerialization {
  import opened Wrappers
  import opened Util
  import Utf8
  import DataReader

  /** Python exceptions the helpers can raise. */
  datatype ConcatError =
    | ZeroDivision          // `mb_sz_total / mb_sz` with mb_sz == 0
    | NonPositiveSections   // array_split with fewer than one section (ValueError)
    | NoExtensionDot        // `rindex('.')` on a name without '.' (ValueError)

  const BYTES_PER_MB: nat := 1048576

  // ---------------------------------------------------------------------------
  // compute_num_file_parts

  /** `np.ceil` followed by `int`. */
  function Ceil(x: real): (n: int)
    ensures x <= n as real < x + 1.0
  {
    var f := x.Floor;
    if f as real == x then f else f + 1
  }

  /** The dataset size in MB: the byte counts of both arrays over 1024². */
  function TotalMB(constituentBytes: nat, featureBytes: nat): (mb: real)
    ensures mb >= 0.0
    ensures mb == 0.0 <==> constituentBytes + featureBytes == 0
  {
    (constituentBytes + featureBytes) as real / BYTES_PER_MB as real
  }

  /**
   * compute_num_file_parts: the ceiling of the MB total over the MB budget.
   * A zero budget divides by zero; a negative one yields no parts at all.
   */
  function ComputeNumFileParts(constituentBytes: nat, featureBytes: nat, mbSz: int): (r: Result<int, ConcatError>)
    ensures r.Err? <==> mbSz == 0
    ensures r.Err? ==> r.error == ZeroDivision
    ensures r.Ok? && mbSz > 0 ==> (r.value == 0 <==> constituentBytes + featureBytes == 0)
    ensures r.Ok? && mbSz > 0 ==> r.value >= 0
    ensures r.Ok? && mbSz < 0 ==> r.value <= 0
  {
    if mbSz == 0 then Err(ZeroDivision)
    else
      var q := TotalMB(constituentBytes, featureBytes) / mbSz as real;
      assert mbSz > 0 ==> q >= 0.0 && (q == 0.0 <==> TotalMB(constituentBytes, featureBytes) == 0.0);
      assert mbSz < 0 ==> q <= 0.0;
      Ok(Ceil(q))
  }

  /** Multiplying back by a positive divisor: x is below t / b iff x * b is below t. */
  lemma QuotientBounds(x: real, t: real, b: real)
    requires b > 0.0
    ensures x < t / b ==> x * b < t
    ensures x >= t / b ==> x * b >= t
  {
    assert (t / b) * b == t;
    if x < t / b {
      assert (t / b - x) * b > 0.0;
    } else {
      assert (x - t / b) * b >= 0.0;
    }
  }

  /** For a positive budget the part count is the least n whose n parts of `mbSz` MB hold the dataset. */
  lemma LeastCoveringParts(constituentBytes: nat, featureBytes: nat, mbSz: int, m: int)
    requires mbSz > 0
    ensures ComputeNumFileParts(constituentBytes, featureBytes, mbSz).Ok?
    ensures var n := ComputeNumFileParts(constituentBytes, featureBytes, mbSz).value;
      n as real * mbSz as real >= TotalMB(constituentBytes, featureBytes)
      && (m as real * mbSz as real >= TotalMB(constituentBytes, featureBytes) ==> m >= n)
  {
    var total := TotalMB(constituentBytes, featureBytes);
    var b := mbSz as real;
    var n := Ceil(total / b);
    assert ComputeNumFileParts(constituentBytes, featureBytes, mbSz) == Ok(n);
    QuotientBounds(n as real, total, b);
    if m < n {
      assert m as real <= n as real - 1.0 < total / b;
      QuotientBounds(m as real, total, b);
    }
  }

  // ---------------------------------------------------------------------------
  // split_concat_data: numpy's array_split along the first axis

  /** `k` copies of `x`. */
  function Repeat(x: nat, k: nat): (s: seq<nat>)
    ensures |s| == k && forall i :: 0 <= i < k ==> s[i] == x
  {
    seq(k, _ => x)
  }

  function Sum(s: seq<nat>): nat
  {
    if s == [] then 0 else s[0] + Sum(s[1..])
  }

  lemma {:induction false} SumAppend(s: seq<nat>, t: seq<nat>)
    ensures Sum(s + t) == Sum(s) + Sum(t)
  {
    if s == [] {
      assert s + t == t;
    } else {
      SumAppend(s[1..], t);
      assert (s + t)[1..] == s[1..] + t;
    }
  }

  lemma {:induction false} SumRepeat(x: nat, k: nat)
    ensures Sum(Repeat(x, k)) == k * x
  {
    if k > 0 {
      SumRepeat(x, k - 1);
      assert Repeat(x, k)[1..] == Repeat(x, k - 1);
    }
  }

  /**
   * The section sizes array_split uses for `len` rows in `n` sections:
   * `len % n` sections of `len / n + 1` rows, then the rest of `len / n`.
   */
  function SectionSizes(len: nat, n: nat): (sizes: seq<nat>)
    requires n > 0
    ensures |sizes| == n && Sum(sizes) == len
    ensures forall i :: 0 <= i < n ==> sizes[i] == if i < len % n then len / n + 1 else len / n
  {
    var q, r := len / n, len % n;
    SizesTotal(q, r, n);
    Repeat(q + 1, r) + Repeat(q, n - r)
  }

  lemma SizesTotal(q: nat, r: nat, n: nat)
    requires r <= n
    ensures Sum(Repeat(q + 1, r) + Repeat(q, n - r)) == n * q + r
  {
    SumAppend(Repeat(q + 1, r), Repeat(q, n - r));
    SumRepeat(q + 1, r);
    SumRepeat(q, n - r);
    SizesArithmetic(q, r, n);
  }

  lemma SizesArithmetic(q: nat, r: nat, n: nat)
    requires r <= n
    ensures r * (q + 1) + (n - r) * q == n * q + r
  {
    assert r * (q + 1) == r * q + r;
    assert (n - r) * q == n * q - r * q;
  }

  /** Consecutive slices of `a` with the given sizes. */
  function Slices<T>(a: seq<T>, sizes: seq<nat>): (ps: seq<seq<T>>)
    requires Sum(sizes) == |a|
    ensures |ps| == |sizes| && forall i :: 0 <= i < |sizes| ==> |ps[i]| == sizes[i]
  {
    if sizes == [] then [] else [a[..sizes[0]]] + Slices(a[sizes[0]..], sizes[1..])
  }

  /** Concatenation of a list of pieces, as `np.concatenate` reassembles them. */
  function Flatten<T>(ps: seq<seq<T>>): seq<T>
  {
    if ps == [] then [] else ps[0] + Flatten(ps[1..])
  }

  /** Consecutive slices concatenate back to the whole array. */
  lemma {:induction false} SlicesFlatten<T>(a: seq<T>, sizes: seq<nat>)
    requires Sum(sizes) == |a|
    ensures Flatten(Slices(a, sizes)) == a
  {
    if sizes != [] {
      SlicesFlatten(a[sizes[0]..], sizes[1..]);
      assert Slices(a, sizes)[1..] == Slices(a[sizes[0]..], sizes[1..]);
      assert a[..sizes[0]] + a[sizes[0]..] == a;
    }
  }

  /** Slicing two arrays of the same length the same way keeps their rows paired. */
  lemma {:induction false} SlicesZip<A, B>(a: seq<A>, b: seq<B>, sizes: seq<nat>, i: nat)
    requires |a| == |b| && Sum(sizes) == |a| && i < |sizes|
    ensures Zip(Slices(a, sizes)[i], Slices(b, sizes)[i]) == Slices(Zip(a, b), sizes)[i]
  {
    var z := Zip(a, b);
    if i == 0 {
      assert Zip(a[..sizes[0]], b[..sizes[0]]) == z[..sizes[0]];
    } else {
      assert Zip(a[sizes[0]..], b[sizes[0]..]) == z[sizes[0]..];
      SlicesZip(a[sizes[0]..], b[sizes[0]..], sizes[1..], i - 1);
    }
  }

  /** The pieces of array_split for `n >= 1` sections. */
  function Pieces<T>(a: seq<T>, n: nat): (ps: seq<seq<T>>)
    requires n > 0
    ensures |ps| == n
    ensures forall i :: 0 <= i < n ==> |ps[i]| == if i < |a| % n then |a| / n + 1 else |a| / n
  {
    Slices(a, SectionSizes(|a|, n))
  }

  /** Piece sizes never grow along the list and differ by at most one row. */
  lemma PiecesBalanced<T>(a: seq<T>, n: nat, i: nat, j: nat)
    requires 0 < n && i <= j < n
    ensures |Pieces(a, n)[j]| <= |Pieces(a, n)[i]| <= |Pieces(a, n)[j]| + 1
  {
    var ps, q, r := Pieces(a, n), |a| / n, |a| % n;
    assert |ps[i]| == if i < r then q + 1 else q;
    assert |ps[j]| == if j < r then q + 1 else q;
  }

  /**
   * np.array_split(a, nSections): fewer than one section is a ValueError;
   * otherwise exactly nSections pieces that concatenate back to `a`.
   */
  function ArraySplit<T>(a: seq<T>, nSections: int): (r: Result<seq<seq<T>>, ConcatError>)
    ensures r.Err? <==> nSections <= 0
    ensures r.Err? ==> r.error == NonPositiveSections
    ensures r.Ok? ==> |r.value| == nSections && Flatten(r.value) == a
    ensures r.Ok? ==> forall i :: 0 <= i < nSections ==>
      |r.value[i]| == if i < |a| % nSections then |a| / nSections + 1 else |a| / nSections
  {
    if nSections <= 0 then Err(NonPositiveSections)
    else
      SlicesFlatten(a, SectionSizes(|a|, nSections));
      Ok(Pieces(a, nSections))
  }

  /**
   * split_concat_data: both arrays split into the same number of parts.
   * When they have the same number of events, part i of the constituents
   * and part i of the features hold the same events.
   */
  function SplitConcatData<C>(constituents: seq<C>, features: seq<Row>, nParts: int)
    : (r: Result<(seq<seq<C>>, seq<seq<Row>>), ConcatError>)
    ensures r.Err? <==> nParts <= 0
    ensures r.Ok? ==> |r.value.0| == nParts && |r.value.1| == nParts
    ensures r.Ok? ==> Flatten(r.value.0) == constituents && Flatten(r.value.1) == features
    ensures r.Ok? && |constituents| == |features| ==>
      forall i :: 0 <= i < nParts ==> |r.value.0[i]| == |r.value.1[i]|
  {
    match (ArraySplit(constituents, nParts), ArraySplit(features, nParts))
    case (Ok(cs), Ok(fs)) => Ok((cs, fs))
    case (Err(e), _) => Err(e)
    case (_, Err(e)) => Err(e)
  }

  /** Equal-length arrays split into parts that pair up row for row. */
  lemma SplitKeepsEventsPaired<C>(constituents: seq<C>, features: seq<Row>, n: nat, i: nat)
    requires |constituents| == |features| && 0 < n && i < n
    ensures Zip(Pieces(constituents, n)[i], Pieces(features, n)[i]) == Pieces(Zip(constituents, features), n)[i]
  {
    SlicesZip(constituents, features, SectionSizes(|constituents|, n), i);
  }

  // ---------------------------------------------------------------------------
  // write_single_file_part: the part-file name

  predicate IsDigit(c: char) { '0' <= c <= '9' }

  predicate AllDigits(s: string) { forall i :: 0 <= i < |s| ==> IsDigit(s[i]) }

  function DigitChar(d: nat): (c: char)
    requires d < 10
    ensures IsDigit(c)
  {
    ('0' as int + d) as char
  }

  function DigitValue(c: char): (d: nat)
    requires IsDigit(c)
    ensures d < 10
  {
    c as int - '0' as int
  }

  /** `str(n)` for a non-negative n: decimal digits, no leading zero. */
  function Decimal(n: nat): (s: string)
    ensures |s| >= 1 && AllDigits(s)
    ensures n > 0 ==> s[0] != '0'
    ensures n < 10 ==> |s| == 1
    ensures n < 100 ==> |s| <= 2
    ensures n < 1000 ==> |s| <= 3
  {
    if n < 10 then [DigitChar(n)] else Decimal(n / 10) + [DigitChar(n % 10)]
  }

  /** The value of a decimal digit string (leading zeros allowed). */
  function ValueOf(s: string): nat
    requires AllDigits(s)
  {
    if s == [] then 0 else ValueOf(s[..|s| - 1]) * 10 + DigitValue(s[|s| - 1])
  }

  lemma {:induction false} ValueOfDecimal(n: nat)
    ensures ValueOf(Decimal(n)) == n
  {
    if n >= 10 {
      ValueOfDecimal(n / 10);
      var d := Decimal(n);
      assert d[..|d| - 1] == Decimal(n / 10);
    }
  }

  function Zeros(k: nat): (s: string)
    ensures |s| == k && forall i :: 0 <= i < k ==> s[i] == '0'
  {
    seq(k, _ => '0')
  }

  lemma {:induction false} ValueOfZeros(k: nat)
    ensures AllDigits(Zeros(k)) && ValueOf(Zeros(k)) == 0
  {
    if k > 0 {
      ValueOfZeros(k - 1);
      assert Zeros(k)[..k - 1] == Zeros(k - 1);
    }
  }

  lemma {:induction false} ValueOfLeadingZeros(k: nat, s: string)
    requires AllDigits(s)
    ensures AllDigits(Zeros(k) + s) && ValueOf(Zeros(k) + s) == ValueOf(s)
  {
    var z := Zeros(k) + s;
    if s == [] {
      assert z == Zeros(k);
      ValueOfZeros(k);
    } else {
      ValueOfLeadingZeros(k, s[..|s| - 1]);
      assert z[..|z| - 1] == Zeros(k) + s[..|s| - 1];
    }
  }

  /** `"{:03d}".format(n)`: at least three digits, zero-padded on the left, reading back as n. */
  function Format03(n: nat): (s: string)
    ensures AllDigits(s) && ValueOf(s) == n
    ensures |s| >= 3
    ensures n < 1000 ==> |s| == 3
    ensures |s| > 3 ==> s[0] != '0'
  {
    var d := Decimal(n);
    ValueOfDecimal(n);
    if |d| < 3 then
      ValueOfLeadingZeros(3 - |d|, d);
      Zeros(3 - |d|) + d
    else d
  }

  /** `s.rindex(c)`: the position of the last `c`, if any. */
  function LastIndex(s: string, c: char): (r: Option<nat>)
    ensures r.Some? <==> c in s
    ensures r.Some? ==> r.value < |s| && s[r.value] == c && c !in s[r.value + 1..]
  {
    if s == [] then None
    else if s[|s| - 1] == c then Some(|s| - 1)
    else
      var r := LastIndex(s[..|s| - 1], c);
      assert s == s[..|s| - 1] + [s[|s| - 1]];
      if r.Some? then
        assert s[r.value + 1..] == s[..|s| - 1][r.value + 1..] + [s[|s| - 1]];
        r
      else r
  }

  /** The last `c` in `s + [c] + t` is the middle one when `t` has none. */
  lemma LastIndexAt(s: string, c: char, t: string)
    requires c !in t
    ensures LastIndex(s + [c] + t, c) == Some(|s|)
  {
    var w := s + [c] + t;
    assert w[|s|] == c;
    assert w[|s| + 1..] == t;
  }

  /**
   * The name of part `partN`: `_` and the three-digit part number inserted
   * before the last '.' of the path (which may be in a directory name when
   * the file name has none). A path without '.' is a ValueError.
   */
  function PartFileName(fileName: string, partN: nat): (r: Result<string, ConcatError>)
    ensures r.Err? <==> '.' !in fileName
    ensures r.Err? ==> r.error == NoExtensionDot
    ensures r.Ok? ==> |r.value| == |fileName| + 1 + |Format03(partN)|
  {
    match LastIndex(fileName, '.')
    case None => Err(NoExtensionDot)
    case Some(k) => Ok(fileName[..k] + "_" + Format03(partN) + fileName[k..])
  }

  /** Where the `_NNN` field of a part name sits: the last `_` before the last '.', and that '.'. */
  function FieldBounds(name: string): (r: Option<(nat, nat)>)
    ensures r.Some? ==> r.value.0 < r.value.1 < |name|
    ensures r.Some? ==> name[r.value.0] == '_' && name[r.value.1] == '.'
  {
    match LastIndex(name, '.')
    case None => None
    case Some(d) =>
      match LastIndex(name[..d], '_')
      case None => None
      case Some(u) => Some((u, d))
  }

  /** Undo PartFileName: drop the `_NNN` field that ends just before the last '.'. */
  function ParsePartName(name: string): (r: Option<(string, nat)>)
    ensures r.Some? ==> |r.value.0| < |name|
  {
    match FieldBounds(name)
    case None => None
    case Some((u, d)) =>
      var field := name[u + 1..d];
      if |field| >= 3 && AllDigits(field) then Some((name[..u] + name[d..], ValueOf(field))) else None
  }

  /** A name built as stem, `_`, a digit field of three or more, `.`, and a dot-free tail parses back to its parts. */
  lemma ParseComposed(stem: string, field: string, ext: string)
    requires AllDigits(field) && |field| >= 3 && '.' !in ext
    ensures ParsePartName(stem + ['_'] + field + ['.'] + ext) == Some((stem + ['.'] + ext, ValueOf(field)))
  {
    var name := stem + ['_'] + field + ['.'] + ext;
    var u, d, path := |stem|, |stem| + 1 + |field|, stem + ['.'] + ext;
    FieldBoundsComposed(name, stem, field, ext, u, d);
    ComposedSlices(name, stem, field, ext, d, path);
    ParseAt(name, u, d, path, field);
  }

  /** The pieces of stem + `_` + field + `.` + tail, cut at the `_` and the '.'. */
  lemma ComposedSlices(name: string, stem: string, field: string, ext: string, d: nat, path: string)
    requires name == stem + ['_'] + field + ['.'] + ext
    requires d == |stem| + 1 + |field| && path == stem + ['.'] + ext
    ensures name[|stem| + 1..d] == field && name[..|stem|] + name[d..] == path
  {
    assert name[..|stem|] == stem;
    assert name[d..] == ['.'] + ext;
  }

  /** Given where the field sits, parsing returns the name without it and the field's value. */
  lemma ParseAt(name: string, u: nat, d: nat, path: string, field: string)
    requires FieldBounds(name) == Some((u, d))
    requires name[u + 1..d] == field && name[..u] + name[d..] == path
    requires |field| >= 3 && AllDigits(field)
    ensures ParsePartName(name) == Some((path, ValueOf(field)))
  {
  }

  /** In stem + `_` + digits + `.` + tail, the last '.' follows the digits and the last `_` before it precedes them. */
  lemma FieldBoundsComposed(name: string, stem: string, field: string, ext: string, u: nat, d: nat)
    requires AllDigits(field) && '.' !in ext
    requires name == stem + ['_'] + field + ['.'] + ext
    requires u == |stem| && d == |stem| + 1 + |field|
    ensures FieldBounds(name) == Some((u, d))
  {
    assert '.' !in field && '_' !in field by {
      assert forall i :: 0 <= i < |field| ==> IsDigit(field[i]);
    }
    LastIndexAt(stem + ['_'] + field, '.', ext);
    assert name[..d] == stem + ['_'] + field;
    LastIndexAt(stem, '_', field);
  }

  /** For a path whose last '.' is followed by `ext`, the part name puts `_` and the padded number just before that '.'. */
  lemma PartFileNameAt(stem: string, ext: string, partN: nat)
    requires '.' !in ext
    ensures PartFileName(stem + ['.'] + ext, partN) == Ok(stem + ['_'] + Format03(partN) + ['.'] + ext)
  {
    var fileName := stem + ['.'] + ext;
    LastIndexAt(stem, '.', ext);
    assert fileName[..|stem|] == stem;
    assert fileName[|stem|..] == ['.'] + ext;
    assert stem + "_" + Format03(partN) + (['.'] + ext) == stem + ['_'] + Format03(partN) + ['.'] + ext;
  }

  /** Stripping the inserted field recovers both the original path and the part number. */
  lemma PartNameRoundTrip(fileName: string, partN: nat)
    requires '.' in fileName
    ensures ParsePartName(PartFileName(fileName, partN).value) == Some((fileName, partN))
  {
    var k := LastIndex(fileName, '.').value;
    var stem, ext := fileName[..k], fileName[k + 1..];
    assert fileName == stem + ['.'] + ext;
    PartFileNameAt(stem, ext, partN);
    ParseComposed(stem, Format03(partN), ext);
  }

  /** Distinct parts of one output file get distinct names, and distinct output files never share a part name. */
  lemma PartNamesDistinct(f: string, g: string, m: nat, n: nat)
    requires '.' in f && '.' in g && (f != g || m != n)
    ensures PartFileName(f, m) != PartFileName(g, n)
  {
    PartNameRoundTrip(f, m);
    PartNameRoundTrip(g, n);
  }

  /** `{:03d}` pads 7 and 12 to three digits and leaves 1234 alone. */
  lemma Format03Examples()
    ensures Format03(7) == "007" && Format03(12) == "012" && Format03(1234) == "1234"
  {
    assert Decimal(7) == "7";
    assert Zeros(2) + "7" == "007";
    assert Decimal(1) == "1";
    assert Decimal(12) == "12";
    assert Zeros(1) + "12" == "012";
    assert Decimal(123) == "123";
    assert Decimal(1234) == "1234";
  }

  /** `out.h5`, part 7, is written to `out_007.h5`. */
  lemma PartNameExample()
    ensures PartFileName("out.h5", 7) == Ok("out_007.h5")
  {
    Format03Examples();
    assert "out.h5" == "out" + ['.'] + "h5";
    PartFileNameAt("out", "h5", 7);
    assert "out" + ['_'] + "007" + ['.'] + "h5" == "out_007.h5";
  }

  /** Part 1234 keeps all four digits. */
  lemma PartNameWideExample()
    ensures PartFileName("out.h5", 1234) == Ok("out_1234.h5")
  {
    Format03Examples();
    assert "out.h5" == "out" + ['.'] + "h5";
    PartFileNameAt("out", "h5", 1234);
    assert "out" + ['_'] + "1234" + ['.'] + "h5" == "out_1234.h5";
  }

  /** With no '.' in the file name, the last '.' of the directory part is used. */
  lemma PartNameDirectoryDotExample()
    ensures PartFileName("a.b/c", 12) == Ok("a_012.b/c")
  {
    Format03Examples();
    assert "a.b/c" == "a" + ['.'] + "b/c";
    PartFileNameAt("a", "b/c", 12);
    assert "a" + ['_'] + "012" + ['.'] + "b/c" == "a_012.b/c";
  }

  // ---------------------------------------------------------------------------
  // read_concat_write: the cut dictionary

  const MJJ_THRESHOLD: real := 1100.0
  const DELTA_ETA_THRESHOLD: real := 1.4

  /** The cut dictionary: mJJ always, then sideband if `side`, then signalregion if `sigreg`. */
  function RegionCuts(side: bool, sigreg: bool): (cuts: seq<Cut>)
    ensures Cut("mJJ", MJJ_THRESHOLD) in cuts
    ensures Cut("sideband", DELTA_ETA_THRESHOLD) in cuts <==> side
    ensures Cut("signalregion", DELTA_ETA_THRESHOLD) in cuts <==> sigreg
    ensures forall c :: c in cuts ==>
      c == Cut("mJJ", MJJ_THRESHOLD) || c == Cut("sideband", DELTA_ETA_THRESHOLD) || c == Cut("signalregion", DELTA_ETA_THRESHOLD)
    ensures forall i, j :: 0 <= i < j < |cuts| ==> cuts[i].key != cuts[j].key
  {
    [Cut("mJJ", MJJ_THRESHOLD)]
    + (if side then [Cut("sideband", DELTA_ETA_THRESHOLD)] else [])
    + (if sigreg then [Cut("signalregion", DELTA_ETA_THRESHOLD)] else [])
  }

  /**
   * Under get_mask_for_cuts the dictionary keeps the events with mJJ above
   * 1100 that lie in the sideband (|DeltaEtaJJ| > 1.4) if `side` and in the
   * signal region (|DeltaEtaJJ| <= 1.4) if `sigreg`; asking for both keeps none.
   */
  lemma RegionCutsSelect(row: Row, side: bool, sigreg: bool)
    requires |row| >= 10
    ensures Evaluable(row, RegionCuts(side, sigreg))
    ensures Survives(row, RegionCuts(side, sigreg)) <==>
      row[MJJ_COL] > MJJ_THRESHOLD
      && (side ==> Abs(row[DETAJJ_COL]) > DELTA_ETA_THRESHOLD)
      && (sigreg ==> Abs(row[DETAJJ_COL]) <= DELTA_ETA_THRESHOLD)
    ensures side && sigreg ==> !Survives(row, RegionCuts(side, sigreg))
  {
    var m := [Cut("mJJ", MJJ_THRESHOLD)];
    var s := if side then [Cut("sideband", DELTA_ETA_THRESHOLD)] else [];
    var g := if sigreg then [Cut("signalregion", DELTA_ETA_THRESHOLD)] else [];
    assert RegionCuts(side, sigreg) == m + s + g;
    CutsConjoin(row, m + s, g);
    CutsConjoin(row, m, s);
    ThresholdCuts(row, MJJ_THRESHOLD);
    SidebandSignalRegionPartition(row, DELTA_ETA_THRESHOLD);
    if !side {
      NoCutsKeepsAll([row]);
      assert Survives(row, s);
    }
    if !sigreg {
      NoCutsKeepsAll([row]);
      assert Survives(row, g);
    }
  }

  // ---------------------------------------------------------------------------
  // encode_uf8

  /** encode_uf8: every string of every list encoded as UTF-8, lists and order kept. */
  function EncodeUf8(data: seq<seq<string>>): (r: seq<DataReader.Labels>)
    ensures |r| == |data| && forall i :: 0 <= i < |data| ==> |r[i]| == |data[i]|
    ensures forall i, j :: 0 <= i < |data| && 0 <= j < |data[i]| ==> r[i][j] == Utf8.Encode(data[i][j])
  {
    seq(|data|, i requires 0 <= i < |data| =>
      seq(|data[i]|, j requires 0 <= j < |data[i]| => Utf8.Encode(data[i][j])))
  }

  /** Labels written by encode_uf8 are read back unchanged by read_labels. */
  lemma EncodeUf8ReadBack(data: seq<seq<string>>, i: nat)
    requires i < |data|
    ensures DataReader.ReadLabels(Some(EncodeUf8(data)[i])) == Some(data[i])
  {
    var entries := EncodeUf8(data)[i];
    forall k | 0 <= k < |entries| ensures Utf8.Decode(entries[k]) == Some(data[i][k]) {
      Utf8.DecodeEncode(data[i][k]);
    }
    var d := DataReader.DecodeAll(entries);
    assert d.Some?;
    assert d.value == data[i];
  }

  /** Different label lists never encode to the same bytes. */
  lemma EncodeUf8Injective(a: seq<seq<string>>, b: seq<seq<string>>)
    requires EncodeUf8(a) == EncodeUf8(b)
    ensures a == b
  {
    forall i | 0 <= i < |a| ensures a[i] == b[i] {
      EncodeUf8ReadBack(a, i);
      EncodeUf8ReadBack(b, i);
    }
  }
}
