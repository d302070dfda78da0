/** File discovery and selection in `src/data_processing.py`: the names of
    the "latest" files, the flattening of the remote `index.json` manifest
    into rows, and the choice of one historical file per MCC (clinical site). */
module DataFiles {
  import opened Wrappers
  import opened Text

  /** One `{mcc: file}` dictionary of a file list. */
  datatype FileEntry = FileEntry(mcc: string, file: string)

  /** One row of the manifest frame: the (date, time) key and the file it names. */
  datatype ManifestRow = ManifestRow(date: string, time: string, mcc: string, file: string)

  /** The placeholder the report suffix carries for the MCC. */
  const Placeholder: string := "[mcc]"

  // ---------------------------------------------------------------------------
  // get_latest_files_list
  // ---------------------------------------------------------------------------

  /** The entry for one MCC: keyed by `str(mcc)`, the suffix with every
      placeholder replaced by that key. A suffix without a placeholder names
      the same file for every MCC. */
  function LatestEntry(reportSuffix: string, mcc: int): (e: FileEntry)
    ensures e.mcc == Str(mcc)
    ensures !Contains(reportSuffix, Placeholder) ==> e.file == reportSuffix
  {
    var file := ReplaceAll(reportSuffix, Placeholder, Str(mcc));
    assert !Contains(reportSuffix, Placeholder) ==> file == reportSuffix by {
      if !Contains(reportSuffix, Placeholder) {
        ReplaceAllAbsent(reportSuffix, Placeholder, Str(mcc));
      }
    }
    FileEntry(Str(mcc), file)
  }

  /** One entry per requested MCC, in request order. */
  method GetLatestFilesList(reportSuffix: string, mccs: seq<int>) returns (files: seq<FileEntry>)
    ensures |files| == |mccs|
    ensures forall i :: 0 <= i < |mccs| ==> files[i] == LatestEntry(reportSuffix, mccs[i])
  {
    files := [];
    for i := 0 to |mccs|
      invariant |files| == i
      invariant forall k :: 0 <= k < i ==> files[k] == LatestEntry(reportSuffix, mccs[k])
    {
      var key := Str(mccs[i]);
      files := files + [FileEntry(key, ReplaceAll(reportSuffix, Placeholder, key))];
    }
  }

  /** Distinct MCCs get distinct keys. */
  lemma LatestKeysDistinct(reportSuffix: string, m1: int, m2: int)
    requires m1 != m2
    ensures LatestEntry(reportSuffix, m1).mcc != LatestEntry(reportSuffix, m2).mcc
  {
    if Str(m1) == Str(m2) {
      StrInjective(m1, m2);
    }
  }

  /** A suffix of the shape the application uses, with a single placeholder
      and no other `[`, is named after the MCC and nothing else. */
  lemma LatestFileName(prefix: string, suffix: string, mcc: int)
    requires '[' !in prefix && '[' !in suffix
    ensures LatestEntry(prefix + Placeholder + suffix, mcc).file == prefix + Str(mcc) + suffix
  {
    SubstituteSinglePlaceholder(prefix, suffix, Placeholder, Str(mcc));
  }

  /** The application's own suffix, `consort-data-[mcc]-latest.csv`. */
  lemma ConsortLatestFileName(mcc: int)
    ensures LatestEntry("consort-data-[mcc]-latest.csv", mcc).file
         == "consort-data-" + Str(mcc) + "-latest.csv"
  {
    assert "consort-data-[mcc]-latest.csv" == "consort-data-" + Placeholder + "-latest.csv";
    LatestFileName("consort-data-", "-latest.csv", mcc);
  }

  // ---------------------------------------------------------------------------
  // get_available_files_df: flattening the parsed index.json
  // ---------------------------------------------------------------------------

  /** A file descriptor object of the index, e.g. `{"mcc": "1", "file": ...}`. */
  type Descriptor = map<string, string>

  /** A JSON object `{time: [descriptor, ...]}`, keys in document order. */
  type TimeTable = seq<(string, seq<Descriptor>)>

  /** The parsed index: `{date: [timeTable, ...]}`, keys in document order. */
  type Index = seq<(string, seq<TimeTable>)>

  /** Why the flattening raises. */
  datatype IndexError =
    | EmptyDateList(date: string)                         // `i[a][0]` on an empty list
    | EmptyFileList(date: string, time: string)           // no descriptor in column 0
    | MissingKey(date: string, time: string, key: string) // `x[0]['mcc']` or `x[0]['file']`

  /** The table of times the flattening reads for the `k`-th date: its first list element. */
  function TableOf(index: Index, k: nat): TimeTable
    requires k < |index| && |index[k].1| > 0
  {
    index[k].1[0]
  }

  /** Every time of the table lists a first descriptor with both keys. */
  ghost predicate TableShaped(table: TimeTable) {
    forall j :: 0 <= j < |table| ==>
      |table[j].1| > 0 && "mcc" in table[j].1[0] && "file" in table[j].1[0]
  }

  /** The index has the shape the flattening needs. */
  ghost predicate WellShaped(index: Index) {
    forall k :: 0 <= k < |index| ==> |index[k].1| > 0 && TableShaped(index[k].1[0])
  }

  /** The row for time `j` of date `k`. */
  function RowAt(index: Index, k: nat, j: nat): ManifestRow
    requires WellShaped(index) && k < |index| && j < |TableOf(index, k)|
  {
    var (time, descriptors) := TableOf(index, k)[j];
    ManifestRow(index[k].0, time, descriptors[0]["mcc"], descriptors[0]["file"])
  }

  /** The rows of one date's time table, in key order: one per time, all
      carrying that date; an error names that date. */
  function FlattenTable(date: string, table: TimeTable): (r: Result<seq<ManifestRow>, IndexError>)
    ensures r.Success? ==> |r.value| == |table| && forall row :: row in r.value ==> row.date == date
    ensures r.Failure? ==> r.error.date == date
    decreases |table|
  {
    if |table| == 0 then Success([])
    else
      var (time, descriptors) := table[0];
      if |descriptors| == 0 then Failure(EmptyFileList(date, time))
      else if "mcc" !in descriptors[0] then Failure(MissingKey(date, time, "mcc"))
      else if "file" !in descriptors[0] then Failure(MissingKey(date, time, "file"))
      else
        match FlattenTable(date, table[1..])
        case Failure(e) => Failure(e)
        case Success(rest) =>
          Success([ManifestRow(date, time, descriptors[0]["mcc"], descriptors[0]["file"])] + rest)
  }

  /** The date keys of the index, in order. */
  function DateKeys(index: Index): (keys: seq<string>)
    ensures |keys| == |index| && forall k :: 0 <= k < |index| ==> keys[k] == index[k].0
  {
    seq(|index|, k requires 0 <= k < |index| => index[k].0)
  }

  /** The manifest rows: one per (date, time) key of each date's first table,
      with `mcc` and `file` read from the first descriptor. Every row and
      every error names a date key of the index. */
  function FlattenIndex(index: Index): (r: Result<seq<ManifestRow>, IndexError>)
    ensures r.Success? ==> forall row :: row in r.value ==> row.date in DateKeys(index)
    ensures r.Failure? ==> r.error.date in DateKeys(index)
    decreases |index|
  {
    assert |index| > 0 ==> DateKeys(index) == [index[0].0] + DateKeys(index[1..]);
    if |index| == 0 then Success([])
    else if |index[0].1| == 0 then Failure(EmptyDateList(index[0].0))
    else
      match FlattenTable(index[0].0, index[0].1[0])
      case Failure(e) => Failure(e)
      case Success(rows) =>
        match FlattenIndex(index[1..])
        case Failure(e) => Failure(e)
        case Success(rest) => Success(rows + rest)
  }

  lemma {:induction false} FlattenTableSpec(date: string, table: TimeTable)
    ensures FlattenTable(date, table).Success? <==> TableShaped(table)
    ensures FlattenTable(date, table).Success? ==>
      var rows := FlattenTable(date, table).value;
      |rows| == |table| &&
      forall j :: 0 <= j < |table| ==>
        rows[j] == ManifestRow(date, table[j].0, table[j].1[0]["mcc"], table[j].1[0]["file"])
    decreases |table|
  {
    if |table| > 0 {
      FlattenTableSpec(date, table[1..]);
      assert forall j :: 1 <= j < |table| ==> table[1..][j - 1] == table[j];
    }
  }

  /** An index is well shaped when its first date is and the rest is. */
  lemma WellShapedCons(index: Index)
    requires |index| > 0
    ensures WellShaped(index) <==>
      |index[0].1| > 0 && TableShaped(index[0].1[0]) && WellShaped(index[1..])
  {
    var tail := index[1..];
    assert forall k :: 1 <= k < |index| ==> tail[k - 1] == index[k];
  }

  /** The flattening succeeds exactly on a well-shaped index. */
  lemma {:induction false} FlattenIndexShape(index: Index)
    ensures FlattenIndex(index).Success? <==> WellShaped(index)
    decreases |index|
  {
    if |index| > 0 {
      FlattenIndexShape(index[1..]);
      WellShapedCons(index);
      if |index[0].1| > 0 {
        FlattenTableSpec(index[0].0, index[0].1[0]);
      }
    }
  }

  /** A row some (date, time) key of the index yields. */
  ghost predicate IsKeyRow(index: Index, row: ManifestRow)
    requires WellShaped(index)
  {
    exists k, j :: 0 <= k < |index| && 0 <= j < |TableOf(index, k)| && row == RowAt(index, k, j)
  }

  /** Dropping the first date shifts the later dates' rows down by one. */
  lemma RowAtTail(index: Index, k: nat, j: nat)
    requires WellShaped(index) && 0 < k < |index| && j < |TableOf(index, k)|
    ensures WellShaped(index[1..])
    ensures RowAt(index, k, j) == RowAt(index[1..], k - 1, j)
  {
    WellShapedCons(index);
    assert index[1..][k - 1] == index[k];
  }

  /** The first date's rows, then the later dates' rows. */
  lemma FlattenIndexSplit(index: Index)
    requires WellShaped(index) && |index| > 0
    ensures WellShaped(index[1..])
    ensures FlattenIndex(index).Success? && FlattenIndex(index[1..]).Success?
    ensures var rows := FlattenTable(index[0].0, TableOf(index, 0)).value;
      FlattenIndex(index).value == rows + FlattenIndex(index[1..]).value &&
      |rows| == |TableOf(index, 0)| &&
      forall j :: 0 <= j < |rows| ==> rows[j] == RowAt(index, 0, j)
  {
    WellShapedCons(index);
    FlattenIndexShape(index);
    FlattenIndexShape(index[1..]);
    FlattenTableSpec(index[0].0, TableOf(index, 0));
  }

  /** Every row of the flattening comes from a key of the index. */
  lemma {:induction false} FlattenIndexSound(index: Index)
    requires WellShaped(index)
    ensures FlattenIndex(index).Success?
    ensures forall row :: row in FlattenIndex(index).value ==> IsKeyRow(index, row)
    decreases |index|
  {
    FlattenIndexShape(index);
    if |index| > 0 {
      var tail := index[1..];
      FlattenIndexSplit(index);
      FlattenIndexSound(tail);
      var rows := FlattenTable(index[0].0, TableOf(index, 0)).value;
      var rest := FlattenIndex(tail).value;
      forall row | row in rows + rest ensures IsKeyRow(index, row) {
        if row in rows {
          var j :| 0 <= j < |rows| && rows[j] == row;
          assert row == RowAt(index, 0, j);
        } else {
          assert IsKeyRow(tail, row);
          var k, j :| 0 <= k < |tail| && 0 <= j < |TableOf(tail, k)| && row == RowAt(tail, k, j);
          assert tail[k] == index[k + 1];
          RowAtTail(index, k + 1, j);
        }
      }
    }
  }

  /** Every key of the index yields a row of the flattening. */
  lemma {:induction false} FlattenIndexComplete(index: Index)
    requires WellShaped(index)
    ensures FlattenIndex(index).Success?
    ensures forall k, j :: 0 <= k < |index| && 0 <= j < |TableOf(index, k)| ==>
      RowAt(index, k, j) in FlattenIndex(index).value
    decreases |index|
  {
    FlattenIndexShape(index);
    if |index| > 0 {
      var tail := index[1..];
      FlattenIndexSplit(index);
      FlattenIndexComplete(tail);
      var rows := FlattenTable(index[0].0, TableOf(index, 0)).value;
      var rest := FlattenIndex(tail).value;
      forall k, j | 0 <= k < |index| && 0 <= j < |TableOf(index, k)|
        ensures RowAt(index, k, j) in rows + rest
      {
        if k == 0 {
          assert RowAt(index, k, j) == rows[j];
        } else {
          RowAtTail(index, k, j);
          assert RowAt(tail, k - 1, j) in rest;
        }
      }
    }
  }

  /** On a well-shaped index the rows are exactly the (date, time) keys of
      every date's first table. */
  lemma FlattenIndexRows(index: Index)
    requires WellShaped(index)
    ensures FlattenIndex(index).Success?
    ensures forall row :: row in FlattenIndex(index).value <==> IsKeyRow(index, row)
  {
    FlattenIndexSound(index);
    FlattenIndexComplete(index);
  }

  // ---------------------------------------------------------------------------
  // get_data_files_list
  // ---------------------------------------------------------------------------

  /** The manifest rows for one date and MCC (the boolean mask of the frame). */
  function Candidates(manifest: seq<ManifestRow>, date: string, mcc: string): (rows: seq<ManifestRow>)
    ensures forall row :: row in rows <==> row in manifest && row.date == date && row.mcc == mcc
    ensures |rows| <= |manifest|
    decreases |manifest|
  {
    if |manifest| == 0 then []
    else
      var rest := Candidates(manifest[1..], date, mcc);
      assert manifest == [manifest[0]] + manifest[1..];
      if manifest[0].date == date && manifest[0].mcc == mcc then [manifest[0]] + rest else rest
  }

  /** The first row once sorted by `time` descending: a row with the greatest
      time (which of several equal times wins is left open). */
  function Newest(rows: seq<ManifestRow>): (r: ManifestRow)
    requires |rows| > 0
    ensures r in rows
    ensures forall row :: row in rows ==> LexLeq(row.time, r.time)
    decreases |rows|
  {
    LexLeqReflexive(rows[0].time);
    if |rows| == 1 then rows[0]
    else
      var m := Newest(rows[1..]);
      assert rows == [rows[0]] + rows[1..];
      LexLeqTotal(m.time, rows[0].time);
      if LexLeq(m.time, rows[0].time) then
        assert forall row :: row in rows[1..] ==> LexLeq(row.time, rows[0].time) by {
          forall row | row in rows[1..] ensures LexLeq(row.time, rows[0].time) {
            LexLeqTransitive(row.time, m.time, rows[0].time);
          }
        }
        rows[0]
      else m
  }

  /** The manifest has a file for `mcc` on `date`. */
  ghost predicate HasFile(manifest: seq<ManifestRow>, date: string, mcc: string) {
    exists row :: row in manifest && row.date == date && row.mcc == mcc
  }

  /** `file` comes from a manifest row for `date` and `mcc` whose time is not
      older than any other such row's. */
  ghost predicate IsLatestFile(manifest: seq<ManifestRow>, date: string, mcc: string, file: string) {
    exists row :: row in manifest && row.date == date && row.mcc == mcc && row.file == file &&
      forall other :: other in manifest && other.date == date && other.mcc == mcc ==>
        LexLeq(other.time, row.time)
  }

  /** The manifest has a file exactly when the selection is non-empty. */
  lemma HasFileIffCandidates(manifest: seq<ManifestRow>, date: string, mcc: string)
    ensures HasFile(manifest, date, mcc) <==> |Candidates(manifest, date, mcc)| > 0
  {
    if HasFile(manifest, date, mcc) {
      var row :| row in manifest && row.date == date && row.mcc == mcc;
      assert row in Candidates(manifest, date, mcc);
    }
  }

  /** The newest candidate is a latest file in the sense of `IsLatestFile`. */
  lemma NewestIsLatest(manifest: seq<ManifestRow>, date: string, mcc: string)
    requires |Candidates(manifest, date, mcc)| > 0
    ensures IsLatestFile(manifest, date, mcc, Newest(Candidates(manifest, date, mcc)).file)
  {
    var newest := Newest(Candidates(manifest, date, mcc));
    assert newest in manifest && newest.date == date && newest.mcc == mcc;
  }

  /** `entry` names `key` and a latest file for it on `date`. */
  ghost predicate Picked(manifest: seq<ManifestRow>, date: string, key: string, entry: FileEntry) {
    entry.mcc == key && HasFile(manifest, date, key) && IsLatestFile(manifest, date, key, entry.file)
  }

  /** `keys[k]` is the first key with no file on `date`. */
  ghost predicate FirstWithoutFile(manifest: seq<ManifestRow>, date: string, keys: seq<string>, k: int) {
    0 <= k < |keys| && !HasFile(manifest, date, keys[k]) &&
    forall j :: 0 <= j < k ==> HasFile(manifest, date, keys[j])
  }

  /** Why the selection raises: `iloc[0]` on an empty selection. */
  datatype SelectError = NoFileFor(mcc: string)

  /** The `str(mcc)` keys of a list of MCCs (see `MccKeysAt`). */
  function MccKeys(mccs: seq<int>): (keys: seq<string>)
    ensures |keys| == |mccs|
    decreases |mccs|
  {
    if |mccs| == 0 then [] else [Str(mccs[0])] + MccKeys(mccs[1..])
  }

  lemma {:induction false} MccKeysAt(mccs: seq<int>, i: nat)
    requires i < |mccs|
    ensures MccKeys(mccs)[i] == Str(mccs[i])
    decreases |mccs|
  {
    if i > 0 {
      MccKeysAt(mccs[1..], i - 1);
    }
  }

  /** One `{str(mcc): file}` per requested MCC, in request order, each the
      newest file for that MCC on the selected date; raises at the first MCC
      with no file on that date. */
  method GetDataFilesList(selectedDate: string, mccs: seq<int>, manifest: seq<ManifestRow>)
    returns (r: Result<seq<FileEntry>, SelectError>)
    ensures r.Success? ==> forall i :: 0 <= i < |mccs| ==> HasFile(manifest, selectedDate, MccKeys(mccs)[i])
    ensures var keys := MccKeys(mccs); r.Success? ==>
      |r.value| == |mccs| &&
      forall i :: 0 <= i < |mccs| ==>
        r.value[i].mcc == keys[i] && IsLatestFile(manifest, selectedDate, keys[i], r.value[i].file)
    ensures r.Failure? ==>
      exists k :: FirstWithoutFile(manifest, selectedDate, MccKeys(mccs), k) &&
        r.error == NoFileFor(MccKeys(mccs)[k])
  {
    var keys := MccKeys(mccs);
    var files: seq<FileEntry> := [];
    var i := 0;
    while i < |mccs|
      invariant i <= |mccs| && |files| == i
      invariant forall k :: 0 <= k < i ==> Picked(manifest, selectedDate, keys[k], files[k])
    {
      var mcc := keys[i];
      var selected := Candidates(manifest, selectedDate, mcc);
      if |selected| == 0 {
        r := Failure(NoFileFor(mcc));
        assert FirstWithoutFile(manifest, selectedDate, keys, i) by {
          HasFileIffCandidates(manifest, selectedDate, mcc);
        }
        return;
      }
      var newest := Newest(selected);
      var entry := FileEntry(mcc, newest.file);
      assert Picked(manifest, selectedDate, mcc, entry) by {
        HasFileIffCandidates(manifest, selectedDate, mcc);
        NewestIsLatest(manifest, selectedDate, mcc);
      }
      ghost var before := files;
      files := files + [entry];
      assert forall k :: 0 <= k < i ==> files[k] == before[k];
      assert files[i] == entry;
      i := i + 1;
    }
    r := Success(files);
  }
}
