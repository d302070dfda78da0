/** The callbacks of `src/app.py` that hold logic: the date dropdown's
    options, the session store update when a date is picked
    (`set_dropdown_dates_value`) and the selection of the rows to draw
    (`show_store_data`). Authentication is a boolean input; loading a date's
    records is a function input. */
module App {
  import opened Wrappers
  import opened Seqs
  import opened DataFiles
  import opened Sankey

  /** The option and store key of the data loaded at start-up. */
  const Latest: string := "latest"

  // ---------------------------------------------------------------------------
  // date_options
  // ---------------------------------------------------------------------------

  /** The `date` column of the manifest frame. */
  function Dates(rows: seq<ManifestRow>): (dates: seq<string>)
    ensures |dates| == |rows| && forall i :: 0 <= i < |rows| ==> dates[i] == rows[i].date
  {
    seq(|rows|, i requires 0 <= i < |rows| => rows[i].date)
  }

  /** The values of the date dropdown: `latest`, then each manifest date once. */
  function DateOptions(rows: seq<ManifestRow>): (options: seq<string>)
    ensures |options| > 0 && options[0] == Latest
    ensures NoDups(options[1..])
    ensures forall d :: d in options[1..] <==> d in Dates(rows)
    ensures rows == [] ==> options == [Latest]
  {
    var pastDates := if |rows| == 0 then [] else Distinct(Dates(rows));
    assert ([Latest] + pastDates)[1..] == pastDates;
    [Latest] + pastDates
  }

  /** The dates after `latest` are in order of first appearance. */
  lemma DateOptionsFirstSeen(rows: seq<ManifestRow>, i: nat, j: nat)
    requires 1 <= i < j < |DateOptions(rows)|
    ensures FirstIndex(Dates(rows), DateOptions(rows)[i]) < FirstIndex(Dates(rows), DateOptions(rows)[j])
  {
    DistinctFirstSeen(Dates(rows), i - 1, j - 1);
  }

  /** The dates of an index whose first time table is not empty, in key order. */
  function IndexDates(index: Index): (dates: seq<string>)
    ensures forall d :: d in dates ==> exists k :: 0 <= k < |index| && index[k].0 == d
    decreases |index|
  {
    if |index| == 0 then []
    else
      var rest := IndexDates(index[1..]);
      assert forall d :: d in rest ==> exists k :: 0 <= k < |index| && index[k].0 == d by {
        forall d | d in rest ensures exists k :: 0 <= k < |index| && index[k].0 == d {
          var k :| 0 <= k < |index[1..]| && index[1..][k].0 == d;
          assert index[k + 1].0 == d;
        }
      }
      if |index[0].1| > 0 && |index[0].1[0]| > 0 then [index[0].0] + rest else rest
  }

  /** The dates of a JSON object are its distinct keys. */
  ghost predicate DistinctDateKeys(index: Index) {
    forall k1, k2 :: 0 <= k1 < k2 < |index| ==> index[k1].0 != index[k2].0
  }

  /** A column holding one date throughout lists it once. */
  lemma {:induction false} DistinctRepeated(s: seq<string>, d: string)
    requires |s| > 0 && forall i :: 0 <= i < |s| ==> s[i] == d
    ensures Distinct(s) == [d]
    decreases |s|
  {
    var p := s[..|s| - 1];
    assert s == p + [d];
    if |p| == 0 {
      assert Distinct(s) == [d] by { DistinctSnoc(p, d); }
    } else {
      assert Distinct(p) == [d] by { DistinctRepeated(p, d); }
      assert d in p;
      assert Distinct(s) == [d] by { DistinctSnoc(p, d); }
    }
  }

  lemma DatesAppend(a: seq<ManifestRow>, b: seq<ManifestRow>)
    ensures Dates(a + b) == Dates(a) + Dates(b)
  {
  }

  /** The de-duplicated dates of the rows one date contributes. */
  lemma TableDates(date: string, table: TimeTable)
    requires FlattenTable(date, table).Success?
    ensures var head := FlattenTable(date, table).value;
      (forall x :: x in Dates(head) ==> x == date) &&
      Distinct(Dates(head)) == (if |table| > 0 then [date] else [])
  {
    FlattenTableSpec(date, table);
    var head := FlattenTable(date, table).value;
    if |table| > 0 {
      DistinctRepeated(Dates(head), date);
    } else {
      assert Dates(head) == [];
    }
  }

  lemma FlattenIndexCons(index: Index)
    requires |index| > 0 && FlattenIndex(index).Success?
    ensures |index[0].1| > 0 && FlattenTable(index[0].0, index[0].1[0]).Success?
    ensures FlattenIndex(index[1..]).Success?
    ensures FlattenIndex(index).value
         == FlattenTable(index[0].0, index[0].1[0]).value + FlattenIndex(index[1..]).value
  {
  }

  /** The later dates of an index with distinct keys differ from its first. */
  lemma LaterDatesDiffer(index: Index)
    requires |index| > 0 && DistinctDateKeys(index)
    ensures index[0].0 !in IndexDates(index[1..])
  {
    var tail := index[1..];
    forall d | d in IndexDates(tail) ensures d != index[0].0 {
      var k :| 0 <= k < |tail| && tail[k].0 == d;
      assert index[k + 1].0 == d;
    }
  }

  /** Built from a flattened index, the dropdown lists `latest` and then the
      dates of the index in key order, skipping dates without files. */
  lemma {:induction false} DateOptionsOfIndex(index: Index)
    requires FlattenIndex(index).Success? && DistinctDateKeys(index)
    ensures DateOptions(FlattenIndex(index).value) == [Latest] + IndexDates(index)
    decreases |index|
  {
    if |index| > 0 {
      var tail := index[1..];
      var date := index[0].0;
      var table := index[0].1[0];
      FlattenIndexCons(index);
      var head := FlattenTable(date, table).value;
      var rest := FlattenIndex(tail).value;
      var first: seq<string> := if |table| > 0 then [date] else [];
      var restDates := IndexDates(tail);
      assert DistinctDateKeys(tail);
      assert Distinct(Dates(rest)) == restDates by {
        DateOptionsOfIndex(tail);
        assert DateOptions(rest)[1..] == restDates;
        if |rest| == 0 { assert Dates(rest) == []; }
      }
      assert Distinct(Dates(head)) == first && forall x :: x in Dates(head) ==> x == date by {
        TableDates(date, table);
      }
      assert Without(restDates, Dates(head)) == restDates by {
        LaterDatesDiffer(index);
        WithoutNothing(restDates, Dates(head));
      }
      assert Distinct(Dates(head + rest)) == first + restDates by {
        DatesAppend(head, rest);
        DistinctAppend(Dates(head), Dates(rest));
      }
      assert IndexDates(index) == first + restDates;
      assert |head + rest| == 0 ==> first + restDates == [] by {
        if |head + rest| == 0 { assert Dates(head + rest) == []; }
      }
    }
  }

  // ---------------------------------------------------------------------------
  // set_dropdown_dates_value
  // ---------------------------------------------------------------------------

  /** The session store: records stored under a date or `latest`. */
  type Store = map<string, seq<FlowRecord>>

  /** Python truthiness of the dropdown value: `None` and `""` are falsy. */
  predicate Truthy(selectedDate: Option<string>) {
    selectedDate.Some? && selectedDate.value != ""
  }

  /** Looking up a date's files and loading them: the records, or the
      lookup's failure when an MCC has no file for the date. */
  type Loader = string -> Result<seq<FlowRecord>, SelectError>

  /** The store after a date is picked. A missing store starts as
      `{latest: ...}` whatever the date; a stored date is kept as it is;
      otherwise the date's files are looked up and loaded, the records stored
      only when non-empty, and a failed lookup fails the update. */
  function StoreAfter(store: Option<Store>, date: string, latest: seq<FlowRecord>, load: Loader)
    : (r: Result<Store, SelectError>)
    ensures store.None? ==> r == Success(map[Latest := latest])
    ensures store.Some? ==> (r.Failure? <==> date !in store.value && load(date).Failure?)
    ensures r.Failure? ==> r.error == load(date).error
    ensures store.Some? && r.Success? ==>
      store.value.Keys <= r.value.Keys <= store.value.Keys + {date} &&
      forall k :: k in store.value ==> r.value[k] == store.value[k]
    ensures store.Some? && date !in store.value && load(date).Success? ==>
      (date in r.value <==> |load(date).value| > 0) &&
      (date in r.value ==> r.value[date] == load(date).value)
  {
    if store.None? then Success(map[Latest := latest])
    else if date in store.value then Success(store.value)
    else
      match load(date)
      case Failure(e) => Failure(e)
      case Success(loaded) =>
        if |loaded| > 0 then Success(store.value[date := loaded]) else Success(store.value)
  }

  /** The store update as written: the file lookup for a new date is called
      without its MCC list, which raises, so the callback fails there and the
      store never gains a historical date. */
  function StoreAfterAsWritten(store: Option<Store>, date: string, latest: seq<FlowRecord>): (r: Result<Store, CallbackError>)
    ensures r.Failure? <==> store.Some? && date !in store.value
    ensures r.Success? ==> r.value.Keys <= (if store.None? then {Latest} else store.value.Keys)
  {
    if store.None? then Success(map[Latest := latest])
    else if date in store.value then Success(store.value)
    else Failure(MissingArgument)
  }

  /** After the first pick, a second pick of a historical date fails as
      written, whatever the date's files hold. */
  lemma SecondPickFailsAsWritten(latest: seq<FlowRecord>)
    ensures var first := StoreAfterAsWritten(None, "2023-01-01", latest);
      first == Success(map[Latest := latest]) &&
      StoreAfterAsWritten(Some(first.value), "2023-01-01", latest) == Failure(MissingArgument)
  {
  }

  /** Nothing is loaded for a date already in the store: the result does not
      depend on the loader and equals the store. */
  lemma StoreAfterIgnoresLoader(store: Store, date: string, latest: seq<FlowRecord>,
                                load1: Loader, load2: Loader)
    requires date in store
    ensures StoreAfter(Some(store), date, latest, load1) == StoreAfter(Some(store), date, latest, load2) == Success(store)
  {
  }

  /** With the loader giving the same answer both times, picking the same
      date again after a successful pick changes nothing. */
  lemma StoreAfterIdempotent(store: Store, date: string, latest: seq<FlowRecord>, load: Loader)
    requires StoreAfter(Some(store), date, latest, load).Success?
    ensures var once := StoreAfter(Some(store), date, latest, load).value;
      StoreAfter(Some(once), date, latest, load) == Success(once)
  {
  }

  /** The two cases behind `StoreAfterIdempotent`, for two different loads
      of the same date. A date the first pick stored is not loaded again,
      whatever the second load returns. A date whose first load was empty
      was not stored, so the second pick looks it up and loads it afresh. */
  lemma StoreAfterSecondPick(store: Store, date: string, latest: seq<FlowRecord>,
                             load1: Loader, load2: Loader)
    requires StoreAfter(Some(store), date, latest, load1).Success?
    ensures var once := StoreAfter(Some(store), date, latest, load1).value;
      date in once ==> StoreAfter(Some(once), date, latest, load2) == Success(once)
    ensures var once := StoreAfter(Some(store), date, latest, load1).value;
      date !in once ==> once == store && StoreAfter(Some(once), date, latest, load2) == StoreAfter(Some(store), date, latest, load2)
  {
  }

  /** Every stored date other than `latest` has records. */
  ghost predicate HistoryNonEmpty(store: Store) {
    forall k :: k in store && k != Latest ==> |store[k]| > 0
  }

  lemma StoreAfterKeepsHistoryNonEmpty(store: Option<Store>, date: string, latest: seq<FlowRecord>,
                                       load: Loader)
    requires store.Some? ==> HistoryNonEmpty(store.value)
    ensures StoreAfter(store, date, latest, load).Success? ==>
      HistoryNonEmpty(StoreAfter(store, date, latest, load).value)
  {
  }

  /** The dashboard's client-side state: the store and the MCC dropdown. */
  class Session {
    var storeData: Option<Store>
    var mccValue: string

    /** The page as laid out: no store yet, MCC `1` selected. */
    constructor ()
      ensures storeData == None && mccValue == "1"
    {
      storeData := None;
      mccValue := "1";
    }

    /** The callback on a new date: refused (no update) for an
        unauthenticated user, a falsy date or a failed file lookup; otherwise
        the store is updated in place and the MCC dropdown reset to `1`. */
    method SetDropdownDatesValue(authenticated: bool, selectedDate: Option<string>,
                                 latest: seq<FlowRecord>, load: Loader)
      returns (updated: bool)
      modifies this
      ensures updated <==>
        (authenticated && Truthy(selectedDate) &&
         StoreAfter(old(storeData), selectedDate.value, latest, load).Success?)
      ensures !updated ==> storeData == old(storeData) && mccValue == old(mccValue)
      ensures updated ==>
        storeData == Some(StoreAfter(old(storeData), selectedDate.value, latest, load).value) &&
        mccValue == "1"
    {
      if !authenticated || !Truthy(selectedDate) {
        return false;
      }
      var date := selectedDate.value;
      if storeData.None? {
        storeData := Some(map[Latest := latest]);
      } else if date !in storeData.value {
        var loaded := load(date);
        if loaded.Failure? {
          return false;
        }
        if |loaded.value| > 0 {
          storeData := Some(storeData.value[date := loaded.value]);
        }
      }
      mccValue := "1";
      return true;
    }
  }

  // ---------------------------------------------------------------------------
  // show_store_data
  // ---------------------------------------------------------------------------

  /** Python's `str` of a dropdown value: `None` prints as `"None"`. */
  function PyStr(value: Option<string>): string {
    if value.None? then "None" else value.value
  }

  /** The rows whose `mcc` is `mcc`, in order: each such row as often as in
      the input, no other row. */
  function RowsForMcc(rows: seq<FlowRecord>, mcc: string): (selected: seq<FlowRecord>)
    ensures forall x :: multiset(selected)[x] == if x.mcc == mcc then multiset(rows)[x] else 0
    decreases |rows|
  {
    if |rows| == 0 then []
    else
      var rest := RowsForMcc(rows[1..], mcc);
      assert rows == [rows[0]] + rows[1..];
      if rows[0].mcc == mcc then [rows[0]] + rest else rest
  }

  /** The filter keeps the input order: it selects from each part of the
      input separately. With `RowsForMccSingle` this fixes the selection
      row by row. */
  /** Sequence concatenation regroups freely. */
  lemma AppendAssoc(x: seq<FlowRecord>, y: seq<FlowRecord>, z: seq<FlowRecord>)
    ensures x + (y + z) == (x + y) + z
  {
  }

  lemma {:induction false} RowsForMccOrder(a: seq<FlowRecord>, b: seq<FlowRecord>, mcc: string)
    ensures RowsForMcc(a + b, mcc) == RowsForMcc(a, mcc) + RowsForMcc(b, mcc)
    decreases |a|
  {
    if |a| == 0 {
      assert a + b == b;
    } else {
      var ab := a + b;
      assert ab[1..] == a[1..] + b;
      RowsForMccOrder(a[1..], b, mcc);
      RowsForMccCons(ab, mcc);
      RowsForMccCons(a, mcc);
      AppendAssoc(if a[0].mcc == mcc then [a[0]] else [], RowsForMcc(a[1..], mcc), RowsForMcc(b, mcc));
    }
  }

  /** One step of the filter: the first row, if it matches, then the rest's selection. */
  lemma RowsForMccCons(s: seq<FlowRecord>, mcc: string)
    requires |s| > 0
    ensures RowsForMcc(s, mcc) == (if s[0].mcc == mcc then [s[0]] else []) + RowsForMcc(s[1..], mcc)
  {
  }

  /** A single row is kept exactly when its `mcc` matches. */
  lemma RowsForMccSingle(x: FlowRecord, mcc: string)
    ensures RowsForMcc([x], mcc) == if x.mcc == mcc then [x] else []
  {
    assert [x][1..] == [];
  }

  /** The words every chart title starts with. */
  const TitlePrefix: string := "CONSORT Report from "

  /** The chart title as written: the historical branch prints the words
      `str(selected_date)` instead of the date, so its text does not depend
      on the date. */
  function ChartTitleAsWritten(date: string): (t: string)
    ensures |TitlePrefix| <= |t| && t[..|TitlePrefix|] == TitlePrefix
    ensures date != Latest ==> t[|TitlePrefix|..] == "str(selected_date)"
  {
    if date == Latest then "CONSORT Report from latest data"
    else "CONSORT Report from str(selected_date)"
  }

  /** Two different historical dates get the same title. */
  lemma ChartTitleAsWrittenHidesDate()
    ensures ChartTitleAsWritten("2023-01-01") == ChartTitleAsWritten("2023-02-01")
  {
  }

  /** The chart title with the date filled in: after the common words comes
      `latest data` or the selected date itself. */
  function ChartTitle(date: string): (t: string)
    ensures |TitlePrefix| <= |t| && t[..|TitlePrefix|] == TitlePrefix
    ensures t[|TitlePrefix|..] == if date == Latest then "latest data" else date
  {
    if date == Latest then "CONSORT Report from latest data"
    else "CONSORT Report from " + date
  }

  /** Different historical dates get different titles. */
  lemma ChartTitleNamesDate(d1: string, d2: string)
    requires d1 != Latest && d2 != Latest && d1 != d2
    ensures ChartTitle(d1) != ChartTitle(d2)
  {
    assert ChartTitle(d1)[|TitlePrefix|..] == d1;
  }

  /** What the content callback shows. */
  datatype Content =
    | NoDataMessage
    | Report(title: string, table: seq<FlowRecord>, nodes: seq<string>, edges: seq<Edge>)

  /** Why a callback does not produce its output. */
  datatype CallbackError =
    | PreventUpdate          // unauthenticated caller
    | StoreMissing           // `store_data` is `None`
    | KeyMissing(key: string) // no entry for the selected date
    | MissingArgument        // a call short of a required argument

  /** The content for the selected date and MCC: the "no data" message when
      the stored entry or its rows for the MCC are empty, otherwise the table
      of those rows and their sankey graph. */
  function ShowStoreData(authenticated: bool, mcc: Option<string>, store: Option<Store>,
                         selectedDate: Option<string>): (r: Result<Content, CallbackError>)
    ensures !authenticated ==> r == Failure(PreventUpdate)
    ensures authenticated ==> (r.Failure? <==> store.None? || PyStr(selectedDate) !in store.value)
    ensures r.Success? ==>
      var rows := RowsForMcc(store.value[PyStr(selectedDate)], PyStr(mcc));
      (r.value.NoDataMessage? <==> |rows| == 0) &&
      (r.value.Report? ==>
        r.value.table == rows && r.value.title == ChartTitle(PyStr(selectedDate)) &&
        (r.value.nodes, r.value.edges) == SankeyDataframe(rows))
  {
    if !authenticated then Failure(PreventUpdate)
    else if store.None? then Failure(StoreMissing)
    else
      var key := PyStr(selectedDate);
      if key !in store.value then Failure(KeyMissing(key))
      else
        var records := store.value[key];
        if |records| == 0 then Success(NoDataMessage)
        else
          var rows := RowsForMcc(records, PyStr(mcc));
          if |rows| == 0 then Success(NoDataMessage)
          else
            var graph := SankeyDataframe(rows);
            Success(Report(ChartTitle(key), rows, graph.0, graph.1))
  }

  /** A historical date whose files load empty is not stored, so the
      content callback that follows fails on the missing key instead of
      showing the "no data" message. */
  lemma EmptyLoadFailsLookup(store: Store, date: string, latest: seq<FlowRecord>,
                             load: Loader, mcc: Option<string>)
    requires date !in store && load(date) == Success([])
    ensures StoreAfter(Some(store), date, latest, load) == Success(store)
    ensures ShowStoreData(true, mcc, Some(store), Some(date)) == Failure(KeyMissing(date))
  {
  }

  /** On the first pick the store holds only `latest`, so a historical first
      pick fails on the missing key. */
  lemma FirstPickStoresOnlyLatest(date: string, latest: seq<FlowRecord>, load: Loader, mcc: Option<string>)
    requires date != Latest
    ensures StoreAfter(None, date, latest, load) == Success(map[Latest := latest])
    ensures ShowStoreData(true, mcc, Some(map[Latest := latest]), Some(date)) == Failure(KeyMissing(date))
  {
  }

  /** After an authenticated pick of a date that ends up stored, the content
      for that date is the report on its rows for MCC `1`, or the "no data"
      message when it has none. */
  lemma StoredDateShows(store: Option<Store>, date: string, latest: seq<FlowRecord>, load: Loader)
    requires StoreAfter(store, date, latest, load).Success?
    requires date in StoreAfter(store, date, latest, load).value
    ensures var after := StoreAfter(store, date, latest, load).value;
      var rows := RowsForMcc(after[date], "1");
      ShowStoreData(true, Some("1"), Some(after), Some(date)).Success? &&
      (|rows| > 0 <==> ShowStoreData(true, Some("1"), Some(after), Some(date)).value.Report?)
  {
  }
}
