/** The query filter over the unified table: validation of the requested
    entities, metrics and date bounds in a fixed order, then a conjunctive
    row filter whose survivors are returned as records with plain dates. */
module Query {
  import opened Wrappers
  import opened Dates
  import opened Frames
  import Consolidation

  /** Positions of the unified columns `entity, metric, date, value`. */
  const EntityAt: nat := 0
  const MetricAt: nat := 1
  const DateAt: nat := 2
  const ValueAt: nat := 3

  /** A query argument given either as one name or as a list of names. */
  datatype Selection = One(name: string) | Many(names: seq<string>)

  /** The list a selection stands for: a single name is a one-element list. */
  function Names(s: Selection): seq<string> {
    match s
    case One(n) => [n]
    case Many(ns) => ns
  }

  /** One output record, fields in the order `entity, metric, date, value`. */
  datatype OutRecord = OutRecord(entity: Cell, metric: Cell, date: string, value: Cell)

  /** The three validation errors, or the filtered records. */
  datatype QueryResult = EntityError | MetricError | DateError | Records(records: seq<OutRecord>)

  /** A row of the unified table: four cells with a calendar date third. */
  predicate UnifiedRow(row: Row) {
    |row| == 4 && row[DateAt].Day?
  }

  /** The table the query runs on: the consolidated four columns, dated rows. */
  predicate IsUnified(t: Frame) {
    t.columns == Consolidation.UnifiedColumns
    && forall i :: 0 <= i < |t.rows| ==> UnifiedRow(t.rows[i])
  }

  /** Whether `name` is among the distinct values of column `col`. */
  predicate Present(t: Frame, col: nat, name: string)
    requires IsUnified(t) && col < 4
  {
    exists i :: 0 <= i < |t.rows| && t.rows[i][col] == Text(name)
  }

  /** Whether every requested name is among the distinct values of column `col`. */
  predicate AllPresent(t: Frame, col: nat, names: seq<string>)
    requires IsUnified(t) && col < 4
  {
    forall k :: 0 <= k < |names| ==> Present(t, col, names[k])
  }

  /** An optional date argument: absent is no bound, a string must parse. */
  function ParseBound(s: Option<string>): (r: Result<Option<CalendarDate>, string>)
    ensures s.None? ==> r == Success(None)
    ensures s.Some? ==> (r.Success? <==> ParseIsoDate(s.value).Some?)
    ensures s.Some? && r.Success? ==> r.value == Some(ParseIsoDate(s.value).value)
  {
    match s
    case None => Success(None)
    case Some(text) =>
      match ParseIsoDate(text)
      case None => Failure(text)
      case Some(d) => Success(Some(d))
  }

  /** The row filter once all arguments are validated. */
  datatype Filter = Filter(entities: seq<string>, metrics: seq<string>, start: Option<CalendarDate>, end: Option<CalendarDate>)

  /** The filter's condition on one row: entity and metric requested, and the
      date within whichever bounds are given (both inclusive). */
  predicate Keeps(f: Filter, row: Row)
    requires UnifiedRow(row)
  {
    row[EntityAt].Text? && row[EntityAt].text in f.entities
    && row[MetricAt].Text? && row[MetricAt].text in f.metrics
    && (f.start.None? || NotAfter(f.start.value, row[DateAt].date))
    && (f.end.None? || NotAfter(row[DateAt].date, f.end.value))
  }

  /** A kept row as a record, its date rendered `YYYY-MM-DD`. */
  function ToRecord(row: Row): OutRecord
    requires UnifiedRow(row)
  {
    OutRecord(row[EntityAt], row[MetricAt], RenderIsoDate(row[DateAt].date), row[ValueAt])
  }

  /** The boolean mask `entity_filter & start_date_filter & end_date_filter & metric_filter`. */
  function Mask(rows: seq<Row>, f: Filter): (m: seq<bool>)
    requires forall i :: 0 <= i < |rows| ==> UnifiedRow(rows[i])
    ensures |m| == |rows| && forall i :: 0 <= i < |rows| ==> (m[i] <==> Keeps(f, rows[i]))
  {
    seq(|rows|, i requires 0 <= i < |rows| => Keeps(f, rows[i]))
  }

  /** The positions where a mask is true, in increasing order. */
  function TrueAt(m: seq<bool>): (ix: seq<int>)
    ensures |ix| <= |m|
    ensures forall k :: 0 <= k < |ix| ==> 0 <= ix[k] < |m| && m[ix[k]]
  {
    if m == [] then []
    else TrueAt(m[..|m| - 1]) + (if m[|m| - 1] then [|m| - 1] else [])
  }

  /** `df_copy[mask]` with the date column re-rendered: the kept rows, in row order. */
  function Select(rows: seq<Row>, f: Filter): (out: seq<OutRecord>)
    requires forall i :: 0 <= i < |rows| ==> UnifiedRow(rows[i])
    ensures |out| <= |rows|
    ensures forall k :: 0 <= k < |out| ==> exists i :: 0 <= i < |rows| && Keeps(f, rows[i]) && out[k] == ToRecord(rows[i])
  {
    var ix := TrueAt(Mask(rows, f));
    var out := seq(|ix|, k requires 0 <= k < |ix| => ToRecord(rows[ix[k]]));
    assert forall k :: 0 <= k < |out| ==> Keeps(f, rows[ix[k]]) && out[k] == ToRecord(rows[ix[k]]);
    out
  }

  /** The query: first failing check wins, otherwise the filtered records. */
  function Query(t: Frame, entities: Option<Selection>, metric: Option<Selection>,
                 startDate: Option<string>, endDate: Option<string>): (r: QueryResult)
    requires IsUnified(t)
    ensures r.Records? ==> |r.records| <= |t.rows|
  {
    if entities.None? then EntityError
    else if metric.None? then MetricError
    else
      var es := Names(entities.value);
      var ms := Names(metric.value);
      if !AllPresent(t, EntityAt, es) then EntityError
      else if !AllPresent(t, MetricAt, ms) then MetricError
      else
        var start := ParseBound(startDate);
        if start.Failure? then DateError
        else
          var end := ParseBound(endDate);
          if end.Failure? then DateError
          else Records(Select(t.rows, Filter(es, ms, start.value, end.value)))
  }

  /** Consolidation yields a table the query accepts whenever every file's
      date-like cells hold calendar dates: the consolidated `date` cells
      are those cells, unchanged. */
  lemma ConsolidatedIsUnified(mapping: map<string, string>, store: map<string, Frame>, order: seq<string>)
    requires Consolidation.IsYieldOrder(mapping, order)
    requires Consolidation.Consolidate(mapping, store, order).Success?
    requires forall k :: k in mapping && mapping[k] in store ==> Consolidation.DatesAreDays(store[mapping[k]])
    ensures IsUnified(Consolidation.Consolidate(mapping, store, order).value)
  {
    Consolidation.ConsolidatedFrame(mapping, store, order);
    var results := Consolidation.Contributions(mapping, store);
    forall i | 0 <= i < |order| && results[order[i]].Success?
      ensures Consolidation.DatedRows(results[order[i]].value.rows)
    {
      Consolidation.ContributionDated(mapping, store, order[i]);
    }
    Consolidation.RowsInOrderDated(results, order);
  }

  /** The filter a fully validated query applies. */
  function QueryFilter(entities: Selection, metric: Selection,
                       startDate: Option<string>, endDate: Option<string>): Filter
    requires ParseBound(startDate).Success? && ParseBound(endDate).Success?
  {
    Filter(Names(entities), Names(metric), ParseBound(startDate).value, ParseBound(endDate).value)
  }

  // ---------------------------------------------------------------------
  // Validation order

  /** A missing entities argument is the entity error, whatever else is given. */
  lemma MissingEntitiesFirst(t: Frame, metric: Option<Selection>, startDate: Option<string>, endDate: Option<string>)
    requires IsUnified(t)
    ensures Query(t, None, metric, startDate, endDate) == EntityError
  {
  }

  /** With entities given, a missing metric is the metric error. */
  lemma MissingMetricSecond(t: Frame, entities: Selection, startDate: Option<string>, endDate: Option<string>)
    requires IsUnified(t)
    ensures Query(t, Some(entities), None, startDate, endDate) == MetricError
  {
  }

  /** One unknown entity fails the whole query, before metrics and dates are looked at. */
  lemma UnknownEntityThird(t: Frame, entities: Selection, metric: Selection,
                           startDate: Option<string>, endDate: Option<string>, k: int)
    requires IsUnified(t)
    requires 0 <= k < |Names(entities)| && !Present(t, EntityAt, Names(entities)[k])
    ensures Query(t, Some(entities), Some(metric), startDate, endDate) == EntityError
  {
  }

  /** With every entity known, one unknown metric is the metric error, before dates are looked at. */
  lemma UnknownMetricFourth(t: Frame, entities: Selection, metric: Selection,
                            startDate: Option<string>, endDate: Option<string>, k: int)
    requires IsUnified(t) && AllPresent(t, EntityAt, Names(entities))
    requires 0 <= k < |Names(metric)| && !Present(t, MetricAt, Names(metric)[k])
    ensures Query(t, Some(entities), Some(metric), startDate, endDate) == MetricError
  {
  }

  /** With entities and metrics known, an unparseable start or end date is the date error. */
  lemma BadDateFifth(t: Frame, entities: Selection, metric: Selection,
                     startDate: Option<string>, endDate: Option<string>)
    requires IsUnified(t)
    requires AllPresent(t, EntityAt, Names(entities)) && AllPresent(t, MetricAt, Names(metric))
    requires (startDate.Some? && ParseIsoDate(startDate.value).None?)
          || (endDate.Some? && ParseIsoDate(endDate.value).None?)
    ensures Query(t, Some(entities), Some(metric), startDate, endDate) == DateError
  {
  }

  /** A query yields records exactly when every check passes. */
  lemma RecordsIff(t: Frame, entities: Option<Selection>, metric: Option<Selection>,
                   startDate: Option<string>, endDate: Option<string>)
    requires IsUnified(t)
    ensures Query(t, entities, metric, startDate, endDate).Records? <==>
      entities.Some? && metric.Some?
      && AllPresent(t, EntityAt, Names(entities.value)) && AllPresent(t, MetricAt, Names(metric.value))
      && (startDate.None? || ParseIsoDate(startDate.value).Some?)
      && (endDate.None? || ParseIsoDate(endDate.value).Some?)
  {
  }

  /** A single entity name, or a single metric name, behaves exactly like
      the one-element list holding it, whatever the other argument is. */
  lemma SingleNameIsOneElementList(t: Frame, entity: string, metric: string,
                                   entities: Option<Selection>, metrics: Option<Selection>,
                                   startDate: Option<string>, endDate: Option<string>)
    requires IsUnified(t)
    ensures Query(t, Some(One(entity)), metrics, startDate, endDate)
         == Query(t, Some(Many([entity])), metrics, startDate, endDate)
    ensures Query(t, entities, Some(One(metric)), startDate, endDate)
         == Query(t, entities, Some(Many([metric])), startDate, endDate)
  {
  }

  // ---------------------------------------------------------------------
  // What the records are

  lemma {:induction false} TrueAtIncreases(m: seq<bool>)
    ensures forall k, l :: 0 <= k < l < |TrueAt(m)| ==> TrueAt(m)[k] < TrueAt(m)[l]
  {
    if m != [] {
      TrueAtIncreases(m[..|m| - 1]);
    }
  }

  lemma {:induction false} TrueAtCovers(m: seq<bool>)
    ensures forall i :: 0 <= i < |m| ==> (i in TrueAt(m) <==> m[i])
  {
    if m != [] {
      var front := m[..|m| - 1];
      TrueAtCovers(front);
      assert forall i :: 0 <= i < |front| ==> front[i] == m[i];
      assert |m| - 1 !in TrueAt(front);
    }
  }

  /** The selection is the subsequence of rows the filter keeps: strictly
      increasing row indices, one per record, covering exactly the kept rows. */
  lemma SelectIsKeptSubsequence(rows: seq<Row>, f: Filter) returns (ix: seq<int>)
    requires forall i :: 0 <= i < |rows| ==> UnifiedRow(rows[i])
    ensures |ix| == |Select(rows, f)|
    ensures forall k :: 0 <= k < |ix| ==> 0 <= ix[k] < |rows| && Select(rows, f)[k] == ToRecord(rows[ix[k]])
    ensures forall k, l :: 0 <= k < l < |ix| ==> ix[k] < ix[l]
    ensures forall i :: 0 <= i < |rows| ==> (i in ix <==> Keeps(f, rows[i]))
  {
    ix := TrueAt(Mask(rows, f));
    TrueAtIncreases(Mask(rows, f));
    TrueAtCovers(Mask(rows, f));
  }

  /** On success the records are the kept input rows, in input order. */
  lemma QueryRecords(t: Frame, entities: Selection, metric: Selection,
                     startDate: Option<string>, endDate: Option<string>) returns (ix: seq<int>)
    requires IsUnified(t)
    requires Query(t, Some(entities), Some(metric), startDate, endDate).Records?
    ensures ParseBound(startDate).Success? && ParseBound(endDate).Success?
    ensures var out := Query(t, Some(entities), Some(metric), startDate, endDate).records;
      var f := QueryFilter(entities, metric, startDate, endDate);
      && |ix| == |out|
      && (forall k :: 0 <= k < |ix| ==> 0 <= ix[k] < |t.rows| && out[k] == ToRecord(t.rows[ix[k]]))
      && (forall k, l :: 0 <= k < l < |ix| ==> ix[k] < ix[l])
      && (forall i :: 0 <= i < |t.rows| ==> (i in ix <==> Keeps(f, t.rows[i])))
  {
    ix := SelectIsKeptSubsequence(t.rows, QueryFilter(entities, metric, startDate, endDate));
  }

  /** Every record of a successful query is a requested entity and metric on
      a date inside the bounds, and its date text parses back to that date. */
  lemma RecordsSatisfyFilter(t: Frame, entities: Selection, metric: Selection,
                             startDate: Option<string>, endDate: Option<string>, k: int)
    requires IsUnified(t)
    requires Query(t, Some(entities), Some(metric), startDate, endDate).Records?
    requires 0 <= k < |Query(t, Some(entities), Some(metric), startDate, endDate).records|
    ensures var rec := Query(t, Some(entities), Some(metric), startDate, endDate).records[k];
      && rec.entity.Text? && rec.entity.text in Names(entities)
      && rec.metric.Text? && rec.metric.text in Names(metric)
      && ParseIsoDate(rec.date).Some?
      && (startDate.None? || NotAfter(ParseIsoDate(startDate.value).value, ParseIsoDate(rec.date).value))
      && (endDate.None? || NotAfter(ParseIsoDate(rec.date).value, ParseIsoDate(endDate.value).value))
  {
    var ix := QueryRecords(t, entities, metric, startDate, endDate);
    ParseRendered(t.rows[ix[k]][DateAt].date);
  }

  /** Signups of entity acme on 15 January and 15 February 2024. */
  const JanuaryRows: seq<Row> := [
    [Text("acme"), Text("signups"), Day(Date(2024, 1, 15)), Number(10.0)],
    [Text("acme"), Text("signups"), Day(Date(2024, 2, 15)), Number(12.0)]]

  const JanuaryFilter: Filter := Filter(["acme"], ["signups"], Some(Date(2024, 1, 1)), Some(Date(2024, 1, 31)))

  lemma JanuaryTable(t: Frame)
    requires t.columns == Consolidation.UnifiedColumns && t.rows == JanuaryRows
    ensures IsUnified(t)
    ensures AllPresent(t, EntityAt, ["acme"]) && AllPresent(t, MetricAt, ["signups"])
  {
    assert t.rows[0][EntityAt] == Text("acme") && t.rows[0][MetricAt] == Text("signups");
  }

  /** The example query: acme signups in January keep the 15 January row only. */
  lemma JanuaryExample(t: Frame)
    requires t.columns == Consolidation.UnifiedColumns && t.rows == JanuaryRows
    ensures IsUnified(t)
    ensures Query(t, Some(Many(["acme"])), Some(One("signups")), Some("2024-01-01"), Some("2024-01-31"))
         == Records([OutRecord(Text("acme"), Text("signups"), "2024-01-15", Number(10.0))])
  {
    JanuaryTable(t);
    JanuaryBounds();
    assert Query(t, Some(Many(["acme"])), Some(One("signups")), Some("2024-01-01"), Some("2024-01-31"))
        == Records(Select(t.rows, JanuaryFilter));
    JanuarySelection(t.rows, JanuaryFilter);
  }

  lemma JanuarySelection(rows: seq<Row>, f: Filter)
    requires rows == JanuaryRows && f == JanuaryFilter
    ensures Select(rows, f) == [OutRecord(Text("acme"), Text("signups"), "2024-01-15", Number(10.0))]
  {
    JanuaryMask(rows, f);
    assert [true, false][..1] == [true] && [true][..0] == [];
    assert TrueAt([true, false]) == [0];
    JanuaryRecord(rows[0]);
  }

  lemma JanuaryMask(rows: seq<Row>, f: Filter)
    requires rows == JanuaryRows && f == JanuaryFilter
    ensures Mask(rows, f) == [true, false]
  {
    assert Keeps(f, rows[0]) && !Keeps(f, rows[1]);
  }

  lemma JanuaryRecord(row: Row)
    requires row == JanuaryRows[0]
    ensures ToRecord(row) == OutRecord(Text("acme"), Text("signups"), "2024-01-15", Number(10.0))
  {
    assert RenderIsoDate(Date(2024, 1, 15)) == "2024-01-15";
  }

  lemma JanuaryBounds()
    ensures ParseIsoDate("2024-01-01") == Some(Date(2024, 1, 1))
    ensures ParseIsoDate("2024-01-31") == Some(Date(2024, 1, 31))
  {
    ParseRendered(Date(2024, 1, 1));
    ParseRendered(Date(2024, 1, 31));
    assert RenderIsoDate(Date(2024, 1, 1)) == "2024-01-01";
    assert RenderIsoDate(Date(2024, 1, 31)) == "2024-01-31";
  }

  /** A malformed start date is reported only once entities and metrics have passed. */
  lemma SlashDateAfterUnknownEntity(t: Frame, metric: Selection)
    requires IsUnified(t) && !Present(t, EntityAt, "ghost")
    ensures Query(t, Some(One("ghost")), Some(metric), Some("2024/01/01"), None) == EntityError
  {
    assert Names(One("ghost"))[0] == "ghost";
  }
}
