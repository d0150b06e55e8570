/**
 * The directory loader of sarewt/data_reader.py.
 *
 * The sorted file list is an input: each entry is what reading that file
 * yields. A file that cannot be opened is `Unreadable` (h5py raises OSError);
 * otherwise every dataset key is present (`Some`) or absent (`None`, where
 * `f.get(key)` returns None). Constituent rows are of an arbitrary type `C`:
 * the loader only moves them around.
 */
module DataReader {
  import opened Wrappers
  import opened Util
  import Utf8

  /** DataReader.mjj_cut: rows with mJJ (column 0) at or below it are dropped. */
  const MJJ_CUT: real := 1100.0

  type Labels = seq<seq<Utf8.byte>>

  datatype FileRecord<C> =
    | Unreadable
    | Record(constituents: Option<seq<C>>, features: Option<seq<Row>>,
             particleFeatureNames: Option<Labels>, eventFeatureNames: Option<Labels>)

  /**
   * Why a directory read fails as a whole: `NoFilesRead` is the NameError on
   * `i_file` after looping over an empty list, `NoLabelsRead` the NameError on
   * the label names when no file yields them, and `FeaturesMissing` the
   * TypeError raised by extending with the 0-d array read for an absent
   * feature dataset (not one of the exceptions the loop catches).
   */
  datatype LoadError = NoFilesRead | NoLabelsRead | FeaturesMissing

  datatype Events<C> = Events(constituents: seq<C>, particleFeatureNames: seq<string>,
                              features: seq<Row>, eventFeatureNames: seq<string>)

  // ---------------------------------------------------------------------------
  // read_labels

  /** Decodes each stored entry in turn; `None` if any of them is not valid UTF-8. */
  function DecodeAll(entries: Labels): (r: Option<seq<string>>)
    ensures r.Some? <==> forall k :: 0 <= k < |entries| ==> Utf8.Decode(entries[k]).Some?
    ensures r.Some? ==> |r.value| == |entries|
    ensures r.Some? ==> forall k :: 0 <= k < |entries| ==> Utf8.Decode(entries[k]) == Some(r.value[k])
  {
    if entries == [] then Some([])
    else match (Utf8.Decode(entries[0]), DecodeAll(entries[1..]))
      case (Some(s), Some(rest)) =>
        assert forall k :: 1 <= k < |entries| ==> entries[k] == entries[1..][k - 1];
        Some([s] + rest)
      case _ => None
  }

  /**
   * read_labels: one decoded string per stored entry, in order. An absent
   * dataset (iterating the 0-d array fails) and a decoding error give `None`.
   */
  function ReadLabels(stored: Option<Labels>): (r: Option<seq<string>>)
    ensures r.Some? <==> stored.Some? && DecodeAll(stored.value).Some?
    ensures r.Some? ==> |r.value| == |stored.value|
    ensures r.Some? ==> forall k :: 0 <= k < |r.value| ==> Utf8.Encode(r.value[k]) == stored.value[k]
  {
    match stored
    case None => None
    case Some(entries) =>
      var r := DecodeAll(entries);
      if r.Some? then
        forall k | 0 <= k < |entries| ensures Utf8.Encode(r.value[k]) == entries[k] {
          Utf8.EncodeDecode(entries[k]);
        }
        r
      else r
  }

  /** Both label lists of one file, when both reads succeed. */
  function FileLabels<C>(rec: FileRecord<C>): Option<(seq<string>, seq<string>)>
  {
    match rec
    case Unreadable => None
    case Record(_, _, p, d) =>
      match (ReadLabels(p), ReadLabels(d))
      case (Some(pn), Some(dn)) => Some((pn, dn))
      case _ => None
  }

  /** The label lists of the first file, in list order, whose two label reads succeed. */
  function FirstLabels<C>(files: seq<FileRecord<C>>): (r: Option<(seq<string>, seq<string>)>)
    ensures r.Some? <==> exists k :: 0 <= k < |files| && FileLabels(files[k]).Some?
    ensures r.Some? ==> exists k :: 0 <= k < |files| && FileLabels(files[k]) == r
                                    && forall j :: 0 <= j < k ==> FileLabels(files[j]).None?
  {
    if files == [] then None
    else if FileLabels(files[0]).Some? then FileLabels(files[0])
    else
      var r := FirstLabels(files[1..]);
      assert forall k :: 1 <= k < |files| ==> files[k] == files[1..][k - 1];
      if r.Some? then
        var k :| 0 <= k < |files[1..]| && FileLabels(files[1..][k]) == r
                 && forall j :: 0 <= j < k ==> FileLabels(files[1..][j]).None?;
        assert FileLabels(files[k + 1]) == r;
        r
      else r
  }

  // ---------------------------------------------------------------------------
  // What each file contributes to read_events_from_dir

  /** The mJJ column, `features[:, 0]`. */
  function MjjColumn(features: seq<Row>): (col: seq<real>)
    requires forall i :: 0 <= i < |features| ==> |features[i]| > 0
    ensures |col| == |features|
  {
    seq(|features|, i requires 0 <= i < |features| => features[i][0])
  }

  /** Whether the read-and-filter step goes through without an IndexError. */
  predicate Filterable<C>(rec: FileRecord<C>)
  {
    && rec.Record? && rec.constituents.Some? && rec.features.Some?
    && |rec.constituents.value| == |rec.features.value|
    && forall i :: 0 <= i < |rec.features.value| ==> |rec.features.value[i]| > 0
  }

  function CutMask<C>(rec: FileRecord<C>): (m: seq<bool>)
    requires Filterable(rec)
    ensures |m| == |rec.features.value|
  {
    ValueMask(MjjColumn(rec.features.value), MJJ_CUT, Gt)
  }

  /**
   * The rows one file adds to the two accumulators: its rows with
   * mJJ > 1100, or nothing when reading (OSError) or filtering (IndexError:
   * an absent dataset, rows without columns, or arrays of different lengths)
   * fails.
   */
  function ConstituentsContributed<C>(rec: FileRecord<C>): (r: seq<C>)
    ensures !Filterable(rec) ==> r == []
  {
    if Filterable(rec) then FilterOnMjj(rec.constituents.value, MjjColumn(rec.features.value)) else []
  }

  function FeaturesContributed<C>(rec: FileRecord<C>): (r: seq<Row>)
    ensures !Filterable(rec) ==> r == []
  {
    if Filterable(rec) then FilterOnMjj(rec.features.value, MjjColumn(rec.features.value)) else []
  }

  /** filter_arrays_on_value with the mass cut, applied to one array. */
  function FilterOnMjj<T>(a: seq<T>, mjj: seq<real>): (r: seq<T>)
    requires |a| == |mjj|
    ensures r == MaskRows(a, ValueMask(mjj, MJJ_CUT, Gt))
  {
    FilterArraysOnValue([a], mjj, MJJ_CUT, Gt)[0]
  }

  /** The constituents accumulated over `files`, file after file. */
  function ConstituentsOf<C>(files: seq<FileRecord<C>>): seq<C>
  {
    if files == [] then [] else ConstituentsOf(files[..|files| - 1]) + ConstituentsContributed(files[|files| - 1])
  }

  /** The feature rows accumulated over `files`, file after file. */
  function FeaturesOf<C>(files: seq<FileRecord<C>>): seq<Row>
  {
    if files == [] then [] else FeaturesOf(files[..|files| - 1]) + FeaturesContributed(files[|files| - 1])
  }

  /** (constituent, features) pairs of one file that survive the mJJ cut. */
  function EventsContributed<C>(rec: FileRecord<C>): seq<(C, Row)>
  {
    if Filterable(rec) then MaskRows(Zip(rec.constituents.value, rec.features.value), CutMask(rec)) else []
  }

  function EventsOf<C>(files: seq<FileRecord<C>>): seq<(C, Row)>
  {
    if files == [] then [] else EventsOf(files[..|files| - 1]) + EventsContributed(files[|files| - 1])
  }

  /**
   * The two accumulators stay row-aligned: zipped, they are the surviving
   * (constituents, features) events of the files in order. In particular they
   * always have the same length.
   */
  lemma {:induction false} AccumulatorsAligned<C>(files: seq<FileRecord<C>>)
    ensures |ConstituentsOf(files)| == |FeaturesOf(files)|
    ensures Zip(ConstituentsOf(files), FeaturesOf(files)) == EventsOf(files)
  {
    if files != [] {
      var init, last := files[..|files| - 1], files[|files| - 1];
      AccumulatorsAligned(init);
      if Filterable(last) {
        MaskRowsZip(last.constituents.value, last.features.value, CutMask(last));
      }
      ZipAppend(ConstituentsOf(init), FeaturesOf(init), ConstituentsContributed(last), FeaturesContributed(last));
    }
  }

  lemma ZipAppend<A, B>(a: seq<A>, b: seq<B>, a': seq<A>, b': seq<B>)
    requires |a| == |b| && |a'| == |b'|
    ensures Zip(a + a', b + b') == Zip(a, b) + Zip(a', b')
  {
  }

  /** Every accumulated feature row passed the mass cut: its mJJ exceeds 1100. */
  lemma {:induction false} AccumulatedRowsPassMjjCut<C>(files: seq<FileRecord<C>>)
    ensures forall k :: 0 <= k < |FeaturesOf(files)| ==>
      |FeaturesOf(files)[k]| > 0 && FeaturesOf(files)[k][0] > MJJ_CUT
  {
    if files != [] {
      var init, last := files[..|files| - 1], files[|files| - 1];
      AccumulatedRowsPassMjjCut(init);
      if Filterable(last) {
        var f := last.features.value;
        MaskRowsKeeps(f, CutMask(last), (row: Row) => |row| > 0 && row[0] > MJJ_CUT);
      }
    }
  }

  /** A readable file contributes exactly its rows with mJJ > 1100, in file order. */
  lemma ContributionIsMjjSelection<C>(rec: FileRecord<C>)
    requires Filterable(rec)
    ensures var f, idx := rec.features.value, TrueIndices(CutMask(rec));
      && |FeaturesContributed(rec)| == |ConstituentsContributed(rec)| == |idx|
      && (forall i :: 0 <= i < |f| && f[i][0] > MJJ_CUT <==> i in idx)
      && (forall k :: 0 <= k < |idx| ==>
            FeaturesContributed(rec)[k] == f[idx[k]] && ConstituentsContributed(rec)[k] == rec.constituents.value[idx[k]])
  {
    MaskRowsPicks(rec.features.value, CutMask(rec));
    MaskRowsPicks(rec.constituents.value, CutMask(rec));
  }

  /** Accumulation over a list is the in-order concatenation of the accumulations over its parts. */
  lemma {:induction false} ConstituentsConcatenate<C>(a: seq<FileRecord<C>>, b: seq<FileRecord<C>>)
    ensures ConstituentsOf(a + b) == ConstituentsOf(a) + ConstituentsOf(b)
    decreases |b|
  {
    if b == [] {
      assert a + b == a;
    } else {
      var init, last := b[..|b| - 1], b[|b| - 1];
      assert b == init + [last];
      assert a + b == (a + init) + [last];
      ConstituentsConcatenate(a, init);
      ConstituentsSnoc(a + init, last);
      ConstituentsSnoc(init, last);
      AppendAssoc(ConstituentsOf(a), ConstituentsOf(init), ConstituentsContributed(last));
    }
  }

  lemma AppendAssoc<T>(x: seq<T>, y: seq<T>, z: seq<T>)
    ensures (x + y) + z == x + (y + z)
  {
  }

  /** Reading one more file appends its contribution to the constituents. */
  lemma ConstituentsSnoc<C>(files: seq<FileRecord<C>>, last: FileRecord<C>)
    ensures ConstituentsOf(files + [last]) == ConstituentsOf(files) + ConstituentsContributed(last)
  {
    assert (files + [last])[..|files|] == files;
  }

  lemma {:induction false} FeaturesConcatenate<C>(a: seq<FileRecord<C>>, b: seq<FileRecord<C>>)
    ensures FeaturesOf(a + b) == FeaturesOf(a) + FeaturesOf(b)
    decreases |b|
  {
    if b == [] {
      assert a + b == a;
    } else {
      var init, last := b[..|b| - 1], b[|b| - 1];
      assert b == init + [last];
      assert a + b == (a + init) + [last];
      FeaturesConcatenate(a, init);
      FeaturesSnoc(a + init, last);
      FeaturesSnoc(init, last);
      AppendAssoc(FeaturesOf(a), FeaturesOf(init), FeaturesContributed(last));
    }
  }

  /** Reading one more file appends its contribution to the feature rows. */
  lemma FeaturesSnoc<C>(files: seq<FileRecord<C>>, last: FileRecord<C>)
    ensures FeaturesOf(files + [last]) == FeaturesOf(files) + FeaturesContributed(last)
  {
    assert (files + [last])[..|files|] == files;
  }

  /** The accumulated count only grows as more files are read. */
  lemma {:induction false} CountGrows<C>(files: seq<FileRecord<C>>, k: nat, n: nat)
    requires k <= n <= |files|
    ensures |ConstituentsOf(files[..k])| <= |ConstituentsOf(files[..n])|
    decreases n - k
  {
    if k < n {
      CountGrows(files, k + 1, n);
      assert files[..k + 1][..k] == files[..k];
    }
  }

  // ---------------------------------------------------------------------------
  // read_events_from_dir

  /**
   * read_events_from_dir: read the files in order, adding each file's
   * surviving rows to both accumulators, and stop after the first file at
   * which more than `maxN` rows have been gathered (no truncation). Then take
   * the label lists from the first file whose two label reads succeed.
   * `filesRead` is the count the source reports as `i_file + 1`.
   */
  method ReadEventsFromDir<C>(files: seq<FileRecord<C>>, maxN: real)
    returns (r: Result<Events<C>, LoadError>, filesRead: nat)
    ensures files == [] ==> r == Err(NoFilesRead) && filesRead == 0
    ensures files != [] ==> 1 <= filesRead <= |files|
    ensures forall k :: 1 <= k < filesRead ==> |ConstituentsOf(files[..k])| as real <= maxN
    ensures filesRead == |files| || |ConstituentsOf(files[..filesRead])| as real > maxN
    ensures |ConstituentsOf(files)| as real <= maxN ==> filesRead == |files|
    ensures files != [] ==> (r.Ok? <==> FirstLabels(files).Some?)
    ensures files != [] && r.Err? ==> r.error == NoLabelsRead
    ensures r.Ok? ==> && r.value.constituents == ConstituentsOf(files[..filesRead])
                      && r.value.features == FeaturesOf(files[..filesRead])
                      && |r.value.constituents| == |r.value.features|
                      && (r.value.particleFeatureNames, r.value.eventFeatureNames) == FirstLabels(files).value
  {
    var constituentsConcat, featuresConcat;
    constituentsConcat, featuresConcat, filesRead := AccumulateEvents(files, maxN);
    AccumulatorsAligned(files[..filesRead]);
    if files == [] {
      return Err(NoFilesRead), filesRead;
    }
    assert files[..|files|] == files;
    if filesRead < |files| {
      CountGrows(files, filesRead, |files|);
    }
    var names := FindLabels(files);
    if names.None? {
      return Err(NoLabelsRead), filesRead;
    }
    r := Ok(Events(constituentsConcat, names.value.0, featuresConcat, names.value.1));
  }

  /**
   * The file loop of read_events_from_dir: extend both accumulators with
   * each file's contribution and break once more than `maxN` rows are held.
   */
  method AccumulateEvents<C>(files: seq<FileRecord<C>>, maxN: real)
    returns (constituents: seq<C>, features: seq<Row>, filesRead: nat)
    ensures filesRead <= |files| && (files != [] ==> filesRead >= 1)
    ensures constituents == ConstituentsOf(files[..filesRead]) && features == FeaturesOf(files[..filesRead])
    ensures forall k :: 1 <= k < filesRead ==> |ConstituentsOf(files[..k])| as real <= maxN
    ensures filesRead == |files| || |ConstituentsOf(files[..filesRead])| as real > maxN
  {
    constituents, features := [], [];
    var i := 0;
    while i < |files|
      invariant 0 <= i <= |files|
      invariant constituents == ConstituentsOf(files[..i])
      invariant features == FeaturesOf(files[..i])
      invariant forall k :: 1 <= k <= i ==> |ConstituentsOf(files[..k])| as real <= maxN
    {
      AccumulateStep(files, i);
      constituents := constituents + ConstituentsContributed(files[i]);
      features := features + FeaturesContributed(files[i]);
      i := i + 1;
      if |constituents| as real > maxN {
        break;
      }
      CountBoundExtends(files, i - 1, maxN);
    }
    filesRead := i;
  }

  /** The count bound held after each file read so far extends to one more file that keeps within it. */
  lemma CountBoundExtends<C>(files: seq<FileRecord<C>>, i: nat, maxN: real)
    requires i < |files|
    requires forall k :: 1 <= k <= i ==> |ConstituentsOf(files[..k])| as real <= maxN
    requires |ConstituentsOf(files[..i + 1])| as real <= maxN
    ensures forall k :: 1 <= k <= i + 1 ==> |ConstituentsOf(files[..k])| as real <= maxN
  {
  }

  /** Reading file i extends both accumulators by that file's contribution. */
  lemma AccumulateStep<C>(files: seq<FileRecord<C>>, i: nat)
    requires i < |files|
    ensures ConstituentsOf(files[..i + 1]) == ConstituentsOf(files[..i]) + ConstituentsContributed(files[i])
    ensures FeaturesOf(files[..i + 1]) == FeaturesOf(files[..i]) + FeaturesContributed(files[i])
  {
    assert files[..i + 1][..i] == files[..i];
  }

  /**
   * The label loop of read_events_from_dir: try the files in order and stop
   * at the first whose particle and event feature names both read.
   */
  method FindLabels<C>(files: seq<FileRecord<C>>) returns (names: Option<(seq<string>, seq<string>)>)
    ensures names == FirstLabels(files)
  {
    var j := 0;
    while j < |files|
      invariant 0 <= j <= |files|
      invariant forall k :: 0 <= k < j ==> FileLabels(files[k]).None?
    {
      var rec := files[j];
      if rec.Record? {
        var p := ReadLabels(rec.particleFeatureNames);
        if p.Some? {
          var d := ReadLabels(rec.eventFeatureNames);
          if d.Some? {
            assert FileLabels(files[j]) == Some((p.value, d.value));
            FirstLabelsIsFirst(files, j);
            return Some((p.value, d.value));
          }
        }
      }
      j := j + 1;
    }
    return None;
  }

  /** The first file whose labels read is the one FirstLabels picks. */
  lemma FirstLabelsIsFirst<C>(files: seq<FileRecord<C>>, j: nat)
    requires j < |files| && FileLabels(files[j]).Some?
    requires forall k :: 0 <= k < j ==> FileLabels(files[k]).None?
    ensures FirstLabels(files) == FileLabels(files[j])
  {
    var r := FirstLabels(files);
    var k :| 0 <= k < |files| && FileLabels(files[k]) == r && forall i :: 0 <= i < k ==> FileLabels(files[i]).None?;
    assert k == j;
  }

  // ---------------------------------------------------------------------------
  // read_jet_features_from_dir

  /** The feature rows one file adds: all of them, with no cut; nothing if it cannot be opened. */
  function ReadableFeatures<C>(rec: FileRecord<C>): seq<Row>
  {
    if rec.Record? && rec.features.Some? then rec.features.value else []
  }

  /** The feature rows accumulated over `files`: a row is gathered iff some file holds it. */
  function AllFeaturesOf<C>(files: seq<FileRecord<C>>): (r: seq<Row>)
    ensures forall x :: x in r <==> exists k :: 0 <= k < |files| && x in ReadableFeatures(files[k])
  {
    if files == [] then []
    else
      var init := files[..|files| - 1];
      var r := AllFeaturesOf(init) + ReadableFeatures(files[|files| - 1]);
      assert forall k :: 0 <= k < |init| ==> init[k] == files[k];
      r
  }

  /** A file that opens but has no feature dataset: extending with it raises TypeError. */
  predicate FeaturesKeyMissing<C>(rec: FileRecord<C>) { rec.Record? && rec.features.None? }

  /** The event-feature names of the first file, in list order, whose read succeeds. */
  function FirstEventLabels<C>(files: seq<FileRecord<C>>): (r: Option<seq<string>>)
    ensures r.Some? <==> exists k :: 0 <= k < |files| && files[k].Record? && ReadLabels(files[k].eventFeatureNames).Some?
    ensures r.Some? ==> exists k :: 0 <= k < |files| && files[k].Record? && ReadLabels(files[k].eventFeatureNames) == r
                                    && forall j :: 0 <= j < k ==> !(files[j].Record? && ReadLabels(files[j].eventFeatureNames).Some?)
  {
    if files == [] then None
    else if files[0].Record? && ReadLabels(files[0].eventFeatureNames).Some? then ReadLabels(files[0].eventFeatureNames)
    else
      var r := FirstEventLabels(files[1..]);
      assert forall k :: 1 <= k < |files| ==> files[k] == files[1..][k - 1];
      if r.Some? then
        var k :| 0 <= k < |files[1..]| && files[1..][k].Record? && ReadLabels(files[1..][k].eventFeatureNames) == r
                 && forall j :: 0 <= j < k ==> !(files[1..][j].Record? && ReadLabels(files[1..][j].eventFeatureNames).Some?);
        assert files[k + 1].Record? && ReadLabels(files[k + 1].eventFeatureNames) == r;
        r
      else r
  }

  /**
   * read_jet_features_from_dir: concatenate the feature rows of every file
   * that can be opened, with neither a cut nor a limit, then take the
   * event-feature names from the first file that yields them.
   */
  method ReadJetFeaturesFromDir<C>(files: seq<FileRecord<C>>) returns (r: Result<(seq<Row>, seq<string>), LoadError>)
    ensures (exists k :: 0 <= k < |files| && FeaturesKeyMissing(files[k])) ==> r == Err(FeaturesMissing)
    ensures files == [] ==> r == Err(NoFilesRead)
    ensures r.Ok? <==> && files != []
                       && (forall k :: 0 <= k < |files| ==> !FeaturesKeyMissing(files[k]))
                       && FirstEventLabels(files).Some?
    ensures r.Ok? ==> r.value == (AllFeaturesOf(files), FirstEventLabels(files).value)
    ensures && files != []
            && (forall k :: 0 <= k < |files| ==> !FeaturesKeyMissing(files[k]))
            && FirstEventLabels(files).None?
            ==> r == Err(NoLabelsRead)
  {
    var featuresConcat: seq<Row> := [];
    var i := 0;
    while i < |files|
      invariant 0 <= i <= |files|
      invariant featuresConcat == AllFeaturesOf(files[..i])
      invariant forall k :: 0 <= k < i ==> !FeaturesKeyMissing(files[k])
    {
      var rec := files[i];
      assert files[..i + 1][..i] == files[..i];
      if rec.Record? {
        if rec.features.None? {
          return Err(FeaturesMissing);
        }
        featuresConcat := featuresConcat + rec.features.value;
      }
      i := i + 1;
    }
    if files == [] {
      return Err(NoFilesRead);
    }
    assert files[..|files|] == files;

    var eventNames := FindEventLabels(files);
    if eventNames.None? {
      return Err(NoLabelsRead);
    }
    r := Ok((featuresConcat, eventNames.value));
  }

  /** The label loop of read_jet_features_from_dir: the first file whose event-feature names read. */
  method FindEventLabels<C>(files: seq<FileRecord<C>>) returns (names: Option<seq<string>>)
    ensures names == FirstEventLabels(files)
  {
    var j := 0;
    while j < |files|
      invariant 0 <= j <= |files|
      invariant FirstEventLabels(files) == FirstEventLabels(files[j..])
    {
      var rec := files[j];
      assert files[j..][1..] == files[j + 1..];
      if rec.Record? {
        var d := ReadLabels(rec.eventFeatureNames);
        if d.Some? {
          return d;
        }
      }
      j := j + 1;
    }
    assert files[|files|..] == [];
    return None;
  }
}
