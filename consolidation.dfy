/** Per-metric loading and normalisation, and the consolidation loop of
    `MetricDataFrame.get_all_metrics_df`. */
module Consolidation {
  import opened Wrappers
  import opened Frames

  /** The columns of every normalised frame and of the consolidated frame. */
  const UnifiedColumns: seq<string> := ["entity", "metric", "date", "value"]

  /** `pd.DataFrame(columns=['entity', 'metric', 'date', 'value'])`. */
  const EmptyUnified: Frame := Table(UnifiedColumns, [])

  // ---------------------------------------------------------------------
  // Loading one metric (`_get_metric_data`)
  // ---------------------------------------------------------------------

  /** `metric_df['metric'] = metric`: every column called `metric` is
      overwritten with the name, or one such column is appended. */
  function WithMetric(t: Frame, metric: string): (r: Frame)
    ensures |r.rows| == |t.rows|
    ensures |r.columns| == |t.columns| + (if "metric" in t.columns then 0 else 1)
    ensures r.columns[..|t.columns|] == t.columns
    ensures "metric" !in t.columns ==> r.columns[|t.columns|] == "metric"
    ensures forall i, j :: 0 <= i < |r.rows| && 0 <= j < |r.columns| && r.columns[j] == "metric" ==>
      r.rows[i][j] == Text(metric)
    ensures forall i, j :: 0 <= i < |t.rows| && 0 <= j < |t.columns| && t.columns[j] != "metric" ==>
      r.rows[i][j] == t.rows[i][j]
  {
    if "metric" in t.columns then
      Table(t.columns, seq(|t.rows|, i requires 0 <= i < |t.rows| =>
        seq(|t.columns|, j requires 0 <= j < |t.columns| =>
          if t.columns[j] == "metric" then Text(metric) else t.rows[i][j])))
    else
      Table(t.columns + ["metric"], seq(|t.rows|, i requires 0 <= i < |t.rows| => t.rows[i] + [Text(metric)]))
  }

  /** `_get_metric_data(mapping, metric)`. Reading the file at
      `mapping[metric]` is given as `store`: a path missing from it is a
      read failure, which the source reports by returning `None`. */
  function Load(mapping: map<string, string>, store: map<string, Frame>, metric: string): (r: Option<Frame>)
    requires metric in mapping
    ensures r.Some? <==> mapping[metric] in store
    ensures r.Some? ==>
      var file := store[mapping[metric]];
      |r.value.columns| == |file.columns| + (if "metric" in file.columns then 0 else 1)
    ensures r.Some? ==>
      var file := store[mapping[metric]];
      |r.value.rows| == |file.rows| && "metric" in r.value.columns
      && |file.columns| <= |r.value.columns| && r.value.columns[..|file.columns|] == file.columns
    ensures r.Some? ==> forall i, j :: 0 <= i < |r.value.rows| && 0 <= j < |r.value.columns| && r.value.columns[j] == "metric" ==>
      r.value.rows[i][j] == Text(metric)
    ensures r.Some? ==>
      var file := store[mapping[metric]];
      forall i, j :: 0 <= i < |file.rows| && 0 <= j < |file.columns| && file.columns[j] != "metric" ==>
        r.value.rows[i][j] == file.rows[i][j]
  {
    if mapping[metric] in store then Some(WithMetric(store[mapping[metric]], metric)) else None
  }

  // ---------------------------------------------------------------------
  // Normalising one frame (the body of the loop over finished loads)
  // ---------------------------------------------------------------------

  predicate DateLike(c: string) {
    c == "date" || c == "month" || c == "week"
  }

  /** The `convert_to_date_col` lambda. */
  function ToDateColumn(c: string): string {
    if DateLike(c) then "date" else c
  }

  /** `list(map(convert_to_date_col, metric_df.columns))`. */
  function RenameColumns(cols: seq<string>): (r: seq<string>)
    ensures |r| == |cols|
    ensures forall j :: 0 <= j < |cols| ==> (r[j] == "date" <==> DateLike(cols[j]))
    ensures forall j :: 0 <= j < |cols| && !DateLike(cols[j]) ==> r[j] == cols[j]
    ensures "month" !in r && "week" !in r
  {
    if cols == [] then [] else [ToDateColumn(cols[0])] + RenameColumns(cols[1..])
  }

  /** The columns `['entity', 'date', 'metric']` that are not values. */
  predicate IsIdentifier(c: string) {
    c == "entity" || c == "date" || c == "metric"
  }

  /** Number of columns that are not identifiers. */
  function NonIdentifierCount(cols: seq<string>): (n: nat)
    ensures n <= |cols|
  {
    if cols == [] then 0 else (if IsIdentifier(cols[0]) then 0 else 1) + NonIdentifierCount(cols[1..])
  }

  /** Position of the first column that is not an identifier. */
  function FirstNonIdentifier(cols: seq<string>): (j: nat)
    requires NonIdentifierCount(cols) > 0
    ensures j < |cols| && !IsIdentifier(cols[j])
    ensures forall k :: 0 <= k < j ==> IsIdentifier(cols[k])
  {
    if !IsIdentifier(cols[0]) then 0 else 1 + FirstNonIdentifier(cols[1..])
  }

  lemma {:induction false} SoleNonIdentifier(cols: seq<string>, j: int)
    requires NonIdentifierCount(cols) == 1 && 0 <= j < |cols| && !IsIdentifier(cols[j])
    ensures FirstNonIdentifier(cols) == j
  {
    if IsIdentifier(cols[0]) {
      SoleNonIdentifier(cols[1..], j - 1);
    } else if j > 0 {
      NonIdentifierPositive(cols[1..], j - 1);
    }
  }

  lemma {:induction false} NonIdentifierPositive(cols: seq<string>, j: int)
    requires 0 <= j < |cols| && !IsIdentifier(cols[j])
    ensures NonIdentifierCount(cols) > 0
  {
    if j > 0 && IsIdentifier(cols[0]) {
      NonIdentifierPositive(cols[1..], j - 1);
    }
  }

  datatype NormaliseError =
    | ValueColumns(count: nat)     // pandas refuses to put zero or several columns into `value`
    | MissingColumn(name: string)  // `metric_df[[...]]` names a column that is not there
    | DuplicateColumn(name: string) // a name occurs twice, which the concatenation refuses

  /** `metric_df['value'] = metric_df[[non-identifier columns]]`: exactly one
      such column is accepted; it becomes (or already is) the `value` column. */
  function AssignValue(t: Frame): (r: Result<Frame, NormaliseError>)
    ensures r.Success? <==> NonIdentifierCount(t.columns) == 1
    ensures r.Failure? ==> r.error == ValueColumns(NonIdentifierCount(t.columns))
    ensures r.Success? ==>
      |r.value.rows| == |t.rows|
      && |t.columns| <= |r.value.columns| && r.value.columns[..|t.columns|] == t.columns
      && (forall i :: 0 <= i < |t.rows| ==> r.value.rows[i][..|t.columns|] == t.rows[i])
    ensures r.Success? ==>
      Count(r.value.columns, "value") == 1
      && forall i :: 0 <= i < |t.rows| ==>
        r.value.rows[i][IndexOf(r.value.columns, "value")] == t.rows[i][FirstNonIdentifier(t.columns)]
    ensures r.Success? ==> forall n :: n != "value" ==> Count(r.value.columns, n) == Count(t.columns, n)
  {
    if NonIdentifierCount(t.columns) != 1 then Failure(ValueColumns(NonIdentifierCount(t.columns)))
    else
      var v := FirstNonIdentifier(t.columns);
      ValueIsTheSoleNonIdentifier(t.columns, v);
      if t.columns[v] == "value" then Success(KeepValue(t, v)) else Success(AppendValue(t, v))
  }

  /** The sole value column is already called `value`: the frame is unchanged. */
  function KeepValue(t: Frame, v: nat): (r: Frame)
    requires v < |t.columns| && t.columns[v] == "value" && Count(t.columns, "value") == 1
    ensures r == t && IndexOf(r.columns, "value") == v
    ensures forall i :: 0 <= i < |t.rows| ==> r.rows[i][..|t.columns|] == t.rows[i]
  {
    UniqueIndex(t.columns, "value", v);
    assert forall i :: 0 <= i < |t.rows| ==> t.rows[i][..|t.columns|] == t.rows[i];
    t
  }

  /** A copy of column `v` is appended under the name `value`. */
  function AppendValue(t: Frame, v: nat): (r: Frame)
    requires v < |t.columns| && "value" !in t.columns
    ensures |r.rows| == |t.rows| && |r.columns| == |t.columns| + 1 && r.columns[..|t.columns|] == t.columns
    ensures forall i :: 0 <= i < |t.rows| ==> r.rows[i][..|t.columns|] == t.rows[i]
    ensures Count(r.columns, "value") == 1 && IndexOf(r.columns, "value") == |t.columns|
    ensures forall i :: 0 <= i < |t.rows| ==> r.rows[i][|t.columns|] == t.rows[i][v]
    ensures forall n :: n != "value" ==> Count(r.columns, n) == Count(t.columns, n)
  {
    var cols := t.columns + ["value"];
    var rows := seq(|t.rows|, i requires 0 <= i < |t.rows| => t.rows[i] + [t.rows[i][v]]);
    assert cols[..|t.columns|] == t.columns;
    AppendedCounts(t.columns, "value");
    UniqueIndex(cols, "value", |t.columns|);
    assert forall i :: 0 <= i < |t.rows| ==> rows[i][..|t.columns|] == t.rows[i];
    Table(cols, rows)
  }

  lemma AppendedCounts(cols: seq<string>, name: string)
    ensures forall n :: Count(cols + [name], n) == Count(cols, n) + (if n == name then 1 else 0)
  {
    forall n ensures Count(cols + [name], n) == Count(cols, n) + (if n == name then 1 else 0) {
      CountAppend(cols, [name], n);
      assert Count([name], n) == Count([], n) + (if n == name then 1 else 0);
    }
  }

  /** The sole non-identifier column is the only one that can be called `value`. */
  lemma ValueIsTheSoleNonIdentifier(cols: seq<string>, v: int)
    requires NonIdentifierCount(cols) == 1 && 0 <= v < |cols| && !IsIdentifier(cols[v])
    ensures cols[v] == "value" ==> Count(cols, "value") == 1
    ensures cols[v] != "value" ==> "value" !in cols
  {
    forall j | 0 <= j < |cols| && cols[j] == "value" ensures j == v {
      SoleNonIdentifier(cols, j);
      SoleNonIdentifier(cols, v);
    }
    if cols[v] == "value" {
      OnlyAt(cols, "value", v);
    }
  }

  lemma {:induction false} OnlyAt(cols: seq<string>, name: string, v: int)
    requires 0 <= v < |cols| && cols[v] == name
    requires forall j :: 0 <= j < |cols| && cols[j] == name ==> j == v
    ensures Count(cols, name) == 1
  {
    if v == 0 {
      assert name !in cols[1..] by {
        forall j | 0 <= j < |cols| - 1 ensures cols[1..][j] != name {
          assert cols[j + 1] == cols[1..][j];
        }
      }
    } else {
      forall j | 0 <= j < |cols| - 1 && cols[1..][j] == name ensures j == v - 1 {
        assert cols[j + 1] == name;
      }
      OnlyAt(cols[1..], name, v - 1);
    }
  }

  /** The first of `names` that is not a column, if any. */
  function FirstMissing(cols: seq<string>, names: seq<string>): (r: Option<string>)
    ensures r.None? <==> forall c :: 0 <= c < |names| ==> names[c] in cols
    ensures r.Some? ==> r.value in names && r.value !in cols
  {
    if names == [] then None
    else if names[0] !in cols then Some(names[0])
    else FirstMissing(cols, names[1..])
  }

  /** The first of `names` that is more than one column, if any. */
  function FirstDuplicate(cols: seq<string>, names: seq<string>): (r: Option<string>)
    ensures r.None? <==> forall c :: 0 <= c < |names| ==> Count(cols, names[c]) <= 1
    ensures r.Some? ==> r.value in names && Count(cols, r.value) > 1
  {
    if names == [] then None
    else if Count(cols, names[0]) > 1 then Some(names[0])
    else FirstDuplicate(cols, names[1..])
  }

  /** `metric_df[names]`: the named columns, in the order given. */
  function Project(t: Frame, names: seq<string>): (r: Result<Frame, NormaliseError>)
    ensures r.Success? <==> forall c :: 0 <= c < |names| ==> Count(t.columns, names[c]) == 1
    ensures r.Success? ==> r.value.columns == names && |r.value.rows| == |t.rows|
    ensures r.Success? ==> forall i, c :: 0 <= i < |t.rows| && 0 <= c < |names| ==>
      r.value.rows[i][c] == t.rows[i][IndexOf(t.columns, names[c])]
  {
    match FirstMissing(t.columns, names)
    case Some(n) => Failure(MissingColumn(n))
    case None =>
      match FirstDuplicate(t.columns, names)
      case Some(n) => Failure(DuplicateColumn(n))
      case None =>
        Success(Table(names, seq(|t.rows|, i requires 0 <= i < |t.rows| =>
          seq(|names|, c requires 0 <= c < |names| => t.rows[i][IndexOf(t.columns, names[c])]))))
  }

  /** The three statements of the loop body that reshape one loaded frame. */
  function Normalise(t: Frame): (r: Result<Frame, NormaliseError>)
    ensures r.Success? ==> r.value.columns == UnifiedColumns && |r.value.rows| == |t.rows|
  {
    var renamed: Frame := Table(RenameColumns(t.columns), t.rows);
    match AssignValue(renamed)
    case Failure(e) => Failure(e)
    case Success(v) => Project(v, UnifiedColumns)
  }

  // ---------------------------------------------------------------------
  // What normalisation accepts and produces, stated on the loaded frame
  // ---------------------------------------------------------------------

  /** A column that ends up in `value`: neither `entity` nor `metric` nor date-like. */
  predicate IsValueColumn(c: string) {
    c != "entity" && c != "metric" && !DateLike(c)
  }

  function DateLikeCount(cols: seq<string>): (n: nat)
    ensures n <= |cols|
  {
    if cols == [] then 0 else (if DateLike(cols[0]) then 1 else 0) + DateLikeCount(cols[1..])
  }

  function FirstDateLike(cols: seq<string>): (j: nat)
    requires DateLikeCount(cols) > 0
    ensures j < |cols| && DateLike(cols[j])
  {
    if DateLike(cols[0]) then 0 else 1 + FirstDateLike(cols[1..])
  }

  function ValueColumnCount(cols: seq<string>): (n: nat)
    ensures n <= |cols|
  {
    if cols == [] then 0 else (if IsValueColumn(cols[0]) then 1 else 0) + ValueColumnCount(cols[1..])
  }

  function FirstValueColumn(cols: seq<string>): (j: nat)
    requires ValueColumnCount(cols) > 0
    ensures j < |cols| && IsValueColumn(cols[j])
  {
    if IsValueColumn(cols[0]) then 0 else 1 + FirstValueColumn(cols[1..])
  }

  /** One `entity` column, one `metric` column, one date-like column
      (`date`, `month` or `week`) and one value column. */
  predicate WellShaped(cols: seq<string>) {
    Count(cols, "entity") == 1 && Count(cols, "metric") == 1
    && DateLikeCount(cols) == 1 && ValueColumnCount(cols) == 1
  }

  lemma RenameUnfold(cols: seq<string>)
    requires cols != []
    ensures RenameColumns(cols)[0] == ToDateColumn(cols[0])
    ensures RenameColumns(cols)[1..] == RenameColumns(cols[1..])
  {
  }

  /** Renaming keeps the count of every name that is not date-like and
      gathers the date-like columns under `date`. */
  lemma {:induction false} RenamedCount(cols: seq<string>, name: string)
    requires !DateLike(name)
    ensures Count(RenameColumns(cols), name) == Count(cols, name)
    ensures Count(RenameColumns(cols), "date") == DateLikeCount(cols)
  {
    if cols != [] {
      RenameUnfold(cols);
      RenamedCount(cols[1..], name);
    }
  }

  lemma {:induction false} RenamedNonIdentifiers(cols: seq<string>)
    ensures NonIdentifierCount(RenameColumns(cols)) == ValueColumnCount(cols)
    ensures ValueColumnCount(cols) > 0 ==> FirstNonIdentifier(RenameColumns(cols)) == FirstValueColumn(cols)
  {
    if cols != [] {
      RenameUnfold(cols);
      RenamedNonIdentifiers(cols[1..]);
    }
  }

  lemma {:induction false} RenamedIndex(cols: seq<string>, name: string)
    requires !DateLike(name) && name in cols
    ensures IndexOf(RenameColumns(cols), name) == IndexOf(cols, name)
  {
    RenameUnfold(cols);
    if cols[0] != name {
      RenamedIndex(cols[1..], name);
    }
  }

  lemma {:induction false} RenamedDateIndex(cols: seq<string>)
    requires DateLikeCount(cols) > 0
    ensures RenameColumns(cols)[FirstDateLike(cols)] == "date"
    ensures IndexOf(RenameColumns(cols), "date") == FirstDateLike(cols)
  {
    RenameUnfold(cols);
    if !DateLike(cols[0]) {
      RenamedDateIndex(cols[1..]);
    }
  }

  /** How renaming moves the columns that normalisation looks up. */
  lemma RenamedColumns(cols: seq<string>)
    ensures var r := RenameColumns(cols);
      Count(r, "entity") == Count(cols, "entity") && Count(r, "metric") == Count(cols, "metric")
      && Count(r, "date") == DateLikeCount(cols) && NonIdentifierCount(r) == ValueColumnCount(cols)
    ensures "entity" in cols ==> IndexOf(RenameColumns(cols), "entity") == IndexOf(cols, "entity")
    ensures "metric" in cols ==> IndexOf(RenameColumns(cols), "metric") == IndexOf(cols, "metric")
    ensures DateLikeCount(cols) > 0 ==> IndexOf(RenameColumns(cols), "date") == FirstDateLike(cols)
    ensures ValueColumnCount(cols) > 0 ==> FirstNonIdentifier(RenameColumns(cols)) == FirstValueColumn(cols)
  {
    RenamedCount(cols, "entity");
    RenamedCount(cols, "metric");
    RenamedNonIdentifiers(cols);
    if "entity" in cols { RenamedIndex(cols, "entity"); }
    if "metric" in cols { RenamedIndex(cols, "metric"); }
    if DateLikeCount(cols) > 0 { RenamedDateIndex(cols); }
  }

  /** Projecting onto the unified columns succeeds when each of them occurs once. */
  lemma ProjectUnifiedSucceeds(v: Frame)
    ensures Project(v, UnifiedColumns).Success? <==>
      Count(v.columns, "entity") == 1 && Count(v.columns, "metric") == 1
      && Count(v.columns, "date") == 1 && Count(v.columns, "value") == 1
  {
    var u := UnifiedColumns;
    assert u[0] == "entity" && u[1] == "metric" && u[2] == "date" && u[3] == "value";
  }

  /** The unified row picks the four named cells, in order. */
  lemma ProjectUnifiedRows(v: Frame, i: int)
    requires Project(v, UnifiedColumns).Success? && 0 <= i < |v.rows|
    ensures "entity" in v.columns && "metric" in v.columns && "date" in v.columns && "value" in v.columns
    ensures Project(v, UnifiedColumns).value.rows[i] ==
      [v.rows[i][IndexOf(v.columns, "entity")], v.rows[i][IndexOf(v.columns, "metric")],
       v.rows[i][IndexOf(v.columns, "date")], v.rows[i][IndexOf(v.columns, "value")]]
  {
    var u := UnifiedColumns;
    var p := Project(v, u).value;
    var row := p.rows[i];
    assert |row| == 4;
    forall c | 0 <= c < 4
      ensures row[c] == v.rows[i][IndexOf(v.columns, u[c])]
    {
    }
    assert row == [row[0], row[1], row[2], row[3]];
  }

  /** Normalisation succeeds exactly on well-shaped frames. */
  lemma NormaliseSucceedsIff(t: Frame)
    ensures Normalise(t).Success? <==> WellShaped(t.columns)
  {
    var renamed: Frame := Table(RenameColumns(t.columns), t.rows);
    RenamedColumns(t.columns);
    var a := AssignValue(renamed);
    if a.Success? {
      var v := a.value;
      assert Count(v.columns, "entity") == Count(t.columns, "entity");
      assert Count(v.columns, "metric") == Count(t.columns, "metric");
      assert Count(v.columns, "date") == DateLikeCount(t.columns);
      ProjectUnifiedSucceeds(v);
    }
  }

  /** The frame between assigning `value` and projecting, with the
      positions of the looked-up columns traced back to the loaded frame. */
  lemma AssignedColumns(t: Frame)
    requires WellShaped(t.columns)
    ensures AssignValue(Table(RenameColumns(t.columns), t.rows)).Success?
    ensures var v := AssignValue(Table(RenameColumns(t.columns), t.rows)).value;
      |t.columns| <= |v.columns| && |v.rows| == |t.rows|
      && "entity" in v.columns && "metric" in v.columns && "date" in v.columns
      && IndexOf(v.columns, "entity") == IndexOf(t.columns, "entity")
      && IndexOf(v.columns, "metric") == IndexOf(t.columns, "metric")
      && IndexOf(v.columns, "date") == FirstDateLike(t.columns)
  {
    var renamed: Frame := Table(RenameColumns(t.columns), t.rows);
    RenamedColumns(t.columns);
    var v := AssignValue(renamed).value;
    PrefixIndex(renamed.columns, v.columns, "entity");
    PrefixIndex(renamed.columns, v.columns, "metric");
    PrefixIndex(renamed.columns, v.columns, "date");
  }

  /** A name that occurs once in a longer column list keeps its position from the prefix. */
  lemma PrefixIndex(cols: seq<string>, longer: seq<string>, name: string)
    requires name in cols && |cols| <= |longer| && longer[..|cols|] == cols && Count(longer, name) == 1
    ensures name in longer && IndexOf(longer, name) == IndexOf(cols, name)
  {
    var j := IndexOf(cols, name);
    assert longer[j] == longer[..|cols|][j];
    UniqueIndex(longer, name, j);
  }

  /** After assigning `value`, the identifier cells of row `i` are the
      loaded row's entity, metric and date-like cells. */
  lemma AssignedIdentifiers(t: Frame, v: Frame, i: int)
    requires WellShaped(t.columns) && 0 <= i < |t.rows|
    requires AssignValue(Table(RenameColumns(t.columns), t.rows)) == Success(v)
    ensures "entity" in v.columns && "metric" in v.columns && "date" in v.columns && i < |v.rows|
    ensures v.rows[i][IndexOf(v.columns, "entity")] == t.rows[i][IndexOf(t.columns, "entity")]
    ensures v.rows[i][IndexOf(v.columns, "metric")] == t.rows[i][IndexOf(t.columns, "metric")]
    ensures v.rows[i][IndexOf(v.columns, "date")] == t.rows[i][FirstDateLike(t.columns)]
  {
    AssignedColumns(t);
    var front := v.rows[i][..|t.columns|];
    assert front == t.rows[i];
    var ie, im, id := IndexOf(t.columns, "entity"), IndexOf(t.columns, "metric"), FirstDateLike(t.columns);
    assert v.rows[i][ie] == front[ie] && v.rows[i][im] == front[im] && v.rows[i][id] == front[id];
  }

  /** After assigning `value`, the `value` cell of row `i` is the loaded row's value cell. */
  lemma AssignedValueCell(t: Frame, v: Frame, i: int)
    requires WellShaped(t.columns) && 0 <= i < |t.rows|
    requires AssignValue(Table(RenameColumns(t.columns), t.rows)) == Success(v)
    ensures "value" in v.columns && i < |v.rows|
    ensures v.rows[i][IndexOf(v.columns, "value")] == t.rows[i][FirstValueColumn(t.columns)]
  {
    RenamedNonIdentifiers(t.columns);
  }

  /** Row `i` of a normalised frame holds, in this order, the loaded row's
      entity, metric, date-like and value cells. */
  lemma NormalisedRow(t: Frame, i: int)
    requires Normalise(t).Success? && 0 <= i < |t.rows|
    ensures WellShaped(t.columns) && |Normalise(t).value.rows| == |t.rows|
    ensures Normalise(t).value.rows[i] ==
      [t.rows[i][IndexOf(t.columns, "entity")], t.rows[i][IndexOf(t.columns, "metric")],
       t.rows[i][FirstDateLike(t.columns)], t.rows[i][FirstValueColumn(t.columns)]]
  {
    NormaliseSucceedsIff(t);
    var v := AssignValue(Table(RenameColumns(t.columns), t.rows)).value;
    assert Normalise(t) == Project(v, UnifiedColumns);
    AssignedIdentifiers(t, v, i);
    AssignedValueCell(t, v, i);
    ProjectUnifiedRows(v, i);
  }

  /** A normalised frame has the unified columns, one row per loaded row,
      and each row carries the loaded row's entity, metric, date-like and
      value cells. */
  lemma NormalisedRows(t: Frame)
    requires Normalise(t).Success?
    ensures WellShaped(t.columns)
    ensures Normalise(t).value.columns == UnifiedColumns
    ensures |Normalise(t).value.rows| == |t.rows|
    ensures forall i :: 0 <= i < |t.rows| ==>
      Normalise(t).value.rows[i] == [t.rows[i][IndexOf(t.columns, "entity")], t.rows[i][IndexOf(t.columns, "metric")],
                                    t.rows[i][FirstDateLike(t.columns)], t.rows[i][FirstValueColumn(t.columns)]]
  {
    NormaliseSucceedsIff(t);
    forall i | 0 <= i < |t.rows|
      ensures Normalise(t).value.rows[i] ==
        [t.rows[i][IndexOf(t.columns, "entity")], t.rows[i][IndexOf(t.columns, "metric")],
         t.rows[i][FirstDateLike(t.columns)], t.rows[i][FirstValueColumn(t.columns)]]
    {
      NormalisedRow(t, i);
    }
  }

  // ---------------------------------------------------------------------
  // Consolidation (`get_all_metrics_df`)
  // ---------------------------------------------------------------------

  datatype ConsolidationError =
    | LoadFailed(metric: string)                        // the load returned None
    | BadSchema(metric: string, reason: NormaliseError) // the loaded frame could not be normalised
    | NoWorkers                                         // `ThreadPoolExecutor(max_workers=0)`

  /** What one finished load adds to the consolidated frame, or why it fails. */
  function Contribution(mapping: map<string, string>, store: map<string, Frame>, metric: string): (r: Result<Frame, ConsolidationError>)
    requires metric in mapping
    ensures (r.Failure? && r.error == LoadFailed(metric)) <==> mapping[metric] !in store
    ensures r.Failure? ==> r.error == LoadFailed(metric) || (r.error.BadSchema? && r.error.metric == metric)
    ensures r.Success? ==> r.value.columns == UnifiedColumns && |r.value.rows| == |store[mapping[metric]].rows|
  {
    match Load(mapping, store, metric)
    case None => Failure(LoadFailed(metric))
    case Some(t) =>
      match Normalise(t)
      case Failure(e) => Failure(BadSchema(metric, e))
      case Success(n) => Success(n)
  }

  /** `pd.concat([acc, t], ignore_index=True)` for frames with the same columns. */
  function Append(acc: Frame, t: Frame): (r: Frame)
    requires acc.columns == t.columns
    ensures r.columns == acc.columns && |r.rows| == |acc.rows| + |t.rows|
    ensures r.rows[..|acc.rows|] == acc.rows && r.rows[|acc.rows|..] == t.rows
    ensures multiset(r.rows) == multiset(acc.rows) + multiset(t.rows)
  {
    Table(acc.columns, acc.rows + t.rows)
  }

  /** The loop over `as_completed` starts only after the `with` block has
      waited for every load, and it yields each submitted future exactly
      once, in the arbitrary order of the set it builds from them: `order` is
      any arrangement of the metric names. */
  predicate IsYieldOrder(mapping: map<string, string>, order: seq<string>) {
    multiset(order) == multiset(mapping.Keys)
  }

  /** The outcome of every metric's load and normalisation, by metric name. */
  function Contributions(mapping: map<string, string>, store: map<string, Frame>): (r: map<string, Result<Frame, ConsolidationError>>)
    ensures r.Keys == mapping.Keys
  {
    map k | k in mapping :: Contribution(mapping, store, k)
  }

  /** Every successful outcome is a frame with the unified columns. */
  predicate Unified(results: map<string, Result<Frame, ConsolidationError>>) {
    forall k :: k in results && results[k].Success? ==> results[k].value.columns == UnifiedColumns
  }

  predicate AllIn(results: map<string, Result<Frame, ConsolidationError>>, order: seq<string>) {
    forall i :: 0 <= i < |order| ==> order[i] in results
  }

  lemma YieldOrderIsCovered(mapping: map<string, string>, store: map<string, Frame>, order: seq<string>)
    requires IsYieldOrder(mapping, order)
    ensures AllIn(Contributions(mapping, store), order)
    ensures forall k :: k in mapping ==> exists i :: 0 <= i < |order| && order[i] == k
  {
    forall i | 0 <= i < |order| ensures order[i] in mapping {
      assert order[i] in multiset(order);
    }
    forall k | k in mapping ensures exists i :: 0 <= i < |order| && order[i] == k {
      assert k in multiset(mapping.Keys);
      assert k in multiset(order);
    }
  }

  /** The loop over the finished loads, from accumulator `acc` onwards. */
  function Fold(acc: Frame, results: map<string, Result<Frame, ConsolidationError>>, order: seq<string>): (r: Result<Frame, ConsolidationError>)
    requires acc.columns == UnifiedColumns && Unified(results) && AllIn(results, order)
    ensures r.Success? ==> r.value.columns == UnifiedColumns
    ensures r.Failure? ==> exists i :: 0 <= i < |order| && results[order[i]] == r
    decreases |order|
  {
    if order == [] then Success(acc)
    else
      match results[order[0]]
      case Failure(e) => Failure(e)
      case Success(n) => Fold(Append(acc, n), results, order[1..])
  }

  /** The consolidated frame for finished loads yielded in `order`. */
  function Consolidate(mapping: map<string, string>, store: map<string, Frame>, order: seq<string>): (r: Result<Frame, ConsolidationError>)
    requires IsYieldOrder(mapping, order)
    ensures r.Success? ==> r.value.columns == UnifiedColumns
    ensures r.Failure? ==> exists k :: k in mapping && Contribution(mapping, store, k) == r
    ensures r.Failure? ==> r.error.LoadFailed? || r.error.BadSchema?
  {
    YieldOrderIsCovered(mapping, store, order);
    Fold(EmptyUnified, Contributions(mapping, store), order)
  }

  /** `get_all_metrics_df` as written: the pool is sized by the number of
      metrics, and a pool of size zero raises before anything is loaded. */
  function ConsolidateAsWritten(mapping: map<string, string>, store: map<string, Frame>, order: seq<string>): (r: Result<Frame, ConsolidationError>)
    requires IsYieldOrder(mapping, order)
    ensures r == Failure(NoWorkers) <==> |mapping| == 0
    ensures |mapping| > 0 ==> r == Consolidate(mapping, store, order)
  {
    if |mapping| == 0 then Failure(NoWorkers) else Consolidate(mapping, store, order)
  }

  /** `get_all_metrics_df`: creating the pool fails for an empty catalog;
      otherwise the loaded frames are taken in `order` and the normalising
      statements run on each in turn. The source has read every file before
      the first frame is appended; here each `Load` happens inside the loop,
      which is the same because `Load` is a function without effects. */
  method GetAllMetrics(mapping: map<string, string>, store: map<string, Frame>, order: seq<string>)
    returns (r: Result<Frame, ConsolidationError>)
    requires IsYieldOrder(mapping, order)
    ensures r == ConsolidateAsWritten(mapping, store, order)
    ensures |mapping| > 0 ==> r == Consolidate(mapping, store, order)
    ensures r.Success? ==> r.value.columns == UnifiedColumns
  {
    if |mapping| == 0 {
      return Failure(NoWorkers);
    }
    YieldOrderIsCovered(mapping, store, order);
    ghost var results := Contributions(mapping, store);
    var all := EmptyUnified;
    for i := 0 to |order|
      invariant all.columns == UnifiedColumns
      invariant Fold(all, results, order[i..]) == Consolidate(mapping, store, order)
    {
      var metric := order[i];
      assert order[i..][0] == metric && order[i..][1..] == order[i + 1..];
      var loaded := Load(mapping, store, metric);
      if loaded.None? {
        return Failure(LoadFailed(metric));
      }
      var metricDf := loaded.value;
      metricDf := Table(RenameColumns(metricDf.columns), metricDf.rows);
      var withValue := AssignValue(metricDf);
      if withValue.Failure? {
        return Failure(BadSchema(metric, withValue.error));
      }
      var projected := Project(withValue.value, UnifiedColumns);
      if projected.Failure? {
        return Failure(BadSchema(metric, projected.error));
      }
      all := Append(all, projected.value);
    }
    assert order[|order|..] == [];
    r := Success(all);
  }

  // ---------------------------------------------------------------------
  // Properties of consolidation
  // ---------------------------------------------------------------------

  /** The rows one outcome contributes: those of a successful one, none otherwise. */
  function RowsOf(r: Result<Frame, ConsolidationError>): seq<Row> {
    match r
    case Success(n) => n.rows
    case Failure(_) => []
  }

  /** The contributed rows, metric after metric in `order`. */
  function RowsInOrder(results: map<string, Result<Frame, ConsolidationError>>, order: seq<string>): seq<Row>
    requires AllIn(results, order)
  {
    if order == [] then [] else RowsOf(results[order[0]]) + RowsInOrder(results, order[1..])
  }

  /** The rows of the files behind `order`, counted before any reshaping. */
  function StoredRowCount(mapping: map<string, string>, store: map<string, Frame>, order: seq<string>): nat
    requires forall i :: 0 <= i < |order| ==> order[i] in mapping
  {
    if order == [] then 0
    else
      (if mapping[order[0]] in store then |store[mapping[order[0]]].rows| else 0)
      + StoredRowCount(mapping, store, order[1..])
  }

  lemma AllInTail(results: map<string, Result<Frame, ConsolidationError>>, order: seq<string>)
    requires AllIn(results, order) && order != []
    ensures AllIn(results, order[1..])
  {
    forall i | 0 <= i < |order| - 1 ensures order[1..][i] in results { assert order[1..][i] == order[i + 1]; }
  }

  lemma {:induction false} FoldResult(acc: Frame, results: map<string, Result<Frame, ConsolidationError>>, order: seq<string>)
    requires acc.columns == UnifiedColumns && Unified(results) && AllIn(results, order)
    ensures Fold(acc, results, order).Success? <==> forall i :: 0 <= i < |order| ==> results[order[i]].Success?
    ensures Fold(acc, results, order).Success? ==>
      Fold(acc, results, order).value == Table(UnifiedColumns, acc.rows + RowsInOrder(results, order))
    decreases |order|
  {
    if order != [] {
      AllInTail(results, order);
      match results[order[0]]
      case Failure(_) =>
      case Success(n) =>
        var next := Append(acc, n);
        FoldResult(next, results, order[1..]);
        assert acc.rows + RowsInOrder(results, order) == next.rows + RowsInOrder(results, order[1..]);
        forall i | 1 <= i < |order| ensures order[i] == order[1..][i - 1] {}
    }
  }

  /** Consolidation succeeds exactly when every metric of the catalog
      loads and normalises: a failed load is never skipped. */
  lemma ConsolidateSucceedsIff(mapping: map<string, string>, store: map<string, Frame>, order: seq<string>)
    requires IsYieldOrder(mapping, order)
    ensures Consolidate(mapping, store, order).Success? <==>
      forall k :: k in mapping ==> Contribution(mapping, store, k).Success?
  {
    YieldOrderIsCovered(mapping, store, order);
    var results := Contributions(mapping, store);
    FoldResult(EmptyUnified, results, order);
    if Consolidate(mapping, store, order).Success? {
      forall k | k in mapping ensures Contribution(mapping, store, k).Success? {
        var i :| 0 <= i < |order| && order[i] == k;
        assert results[order[i]].Success?;
      }
    }
  }

  /** A metric whose file cannot be read makes the whole consolidation fail. */
  lemma FailedLoadFailsConsolidation(mapping: map<string, string>, store: map<string, Frame>, order: seq<string>, metric: string)
    requires IsYieldOrder(mapping, order) && metric in mapping && mapping[metric] !in store
    ensures Consolidate(mapping, store, order).Failure?
  {
    ConsolidateSucceedsIff(mapping, store, order);
    assert Contribution(mapping, store, metric).Failure?;
  }

  /** The consolidated frame has the unified columns and the contributed rows in `order`. */
  lemma ConsolidatedFrame(mapping: map<string, string>, store: map<string, Frame>, order: seq<string>)
    requires IsYieldOrder(mapping, order) && Consolidate(mapping, store, order).Success?
    ensures AllIn(Contributions(mapping, store), order)
    ensures Consolidate(mapping, store, order).value
      == Table(UnifiedColumns, RowsInOrder(Contributions(mapping, store), order))
  {
    YieldOrderIsCovered(mapping, store, order);
    FoldResult(EmptyUnified, Contributions(mapping, store), order);
  }

  lemma {:induction false} RowsInOrderAppend(results: map<string, Result<Frame, ConsolidationError>>, a: seq<string>, b: seq<string>)
    requires AllIn(results, a) && AllIn(results, b)
    ensures AllIn(results, a + b)
    ensures RowsInOrder(results, a + b) == RowsInOrder(results, a) + RowsInOrder(results, b)
    decreases |a|
  {
    assert AllIn(results, a + b) by {
      forall i | 0 <= i < |a + b| ensures (a + b)[i] in results {
        if i >= |a| { assert (a + b)[i] == b[i - |a|]; }
      }
    }
    if a == [] {
      assert a + b == b;
    } else {
      assert (a + b)[0] == a[0] && (a + b)[1..] == a[1..] + b;
      AllInTail(results, a);
      RowsInOrderAppend(results, a[1..], b);
    }
  }

  lemma MultisetWithout<T>(s: seq<T>, j: int)
    requires 0 <= j < |s|
    ensures multiset(s) == multiset{s[j]} + multiset(s[..j] + s[j + 1..])
  {
    assert s == s[..j] + [s[j]] + s[j + 1..];
  }

  lemma MultisetCancel<T>(a: multiset<T>, b: multiset<T>, x: T)
    requires multiset{x} + a == multiset{x} + b
    ensures a == b
  {
    forall y ensures a[y] == b[y] {
      assert (multiset{x} + a)[y] == (multiset{x} + b)[y];
    }
  }

  lemma PermutationTail<T>(o1: seq<T>, o2: seq<T>, j: int)
    requires multiset(o1) == multiset(o2) && o1 != [] && 0 <= j < |o2| && o2[j] == o1[0]
    ensures multiset(o1[1..]) == multiset(o2[..j] + o2[j + 1..])
  {
    MultisetWithout(o1, 0);
    MultisetWithout(o2, j);
    assert o1[..0] + o1[1..] == o1[1..];
    MultisetCancel(multiset(o1[1..]), multiset(o2[..j] + o2[j + 1..]), o1[0]);
  }

  lemma RowsInOrderCons(results: map<string, Result<Frame, ConsolidationError>>, x: string, s: seq<string>)
    requires x in results && AllIn(results, s)
    ensures AllIn(results, [x] + s)
    ensures RowsInOrder(results, [x] + s) == RowsOf(results[x]) + RowsInOrder(results, s)
  {
    var xs := [x] + s;
    assert xs[0] == x && xs[1..] == s;
    assert AllIn(results, xs) by {
      forall i | 0 <= i < |xs| ensures xs[i] in results {
        if i > 0 { assert xs[i] == s[i - 1]; }
      }
    }
  }

  lemma DropPastHead<T>(o: seq<T>, j: int)
    requires 0 < j < |o|
    ensures o[1..][j - 1] == o[j] && o == [o[0]] + o[1..]
    ensures o[..j] + o[j + 1..] == [o[0]] + (o[1..][..j - 1] + o[1..][j..])
  {
    var rest := o[1..];
    assert o[..j] == [o[0]] + rest[..j - 1];
    assert o[j + 1..] == rest[j..];
  }

  /** Taking one metric out of an order takes out exactly its rows. */
  lemma {:induction false} RowsWithout(results: map<string, Result<Frame, ConsolidationError>>, o: seq<string>, j: int)
    requires AllIn(results, o) && 0 <= j < |o|
    ensures AllIn(results, o[..j] + o[j + 1..])
    ensures multiset(RowsInOrder(results, o))
      == multiset(RowsOf(results[o[j]])) + multiset(RowsInOrder(results, o[..j] + o[j + 1..]))
    decreases j
  {
    var rest := o[1..];
    AllInTail(results, o);
    if j == 0 {
      assert o[..0] + o[1..] == rest;
    } else {
      var shorter := rest[..j - 1] + rest[j..];
      RowsWithout(results, rest, j - 1);
      DropPastHead(o, j);
      RowsInOrderCons(results, o[0], rest);
      RowsInOrderCons(results, o[0], shorter);
    }
  }

  /** Rearranging the order rearranges the rows and nothing else. */
  lemma {:induction false} RowsInOrderPermutation(results: map<string, Result<Frame, ConsolidationError>>, o1: seq<string>, o2: seq<string>)
    requires AllIn(results, o1) && AllIn(results, o2) && multiset(o1) == multiset(o2)
    ensures multiset(RowsInOrder(results, o1)) == multiset(RowsInOrder(results, o2))
    decreases |o1|
  {
    if o1 == [] {
      assert |o2| == |multiset(o2)| == 0;
    } else {
      var k := o1[0];
      assert k in multiset(o2);
      var j :| 0 <= j < |o2| && o2[j] == k;
      var rest := o2[..j] + o2[j + 1..];
      RowsWithout(results, o2, j);
      AllInTail(results, o1);
      PermutationTail(o1, o2, j);
      RowsInOrderPermutation(results, o1[1..], rest);
    }
  }

  /** The order in which the finished loads are yielded changes neither the outcome
      nor, on success, the multiset of consolidated rows. */
  lemma ConsolidateOrderIndependent(mapping: map<string, string>, store: map<string, Frame>, o1: seq<string>, o2: seq<string>)
    requires IsYieldOrder(mapping, o1) && IsYieldOrder(mapping, o2)
    ensures Consolidate(mapping, store, o1).Success? <==> Consolidate(mapping, store, o2).Success?
    ensures Consolidate(mapping, store, o1).Success? ==>
      Consolidate(mapping, store, o1).value.columns == Consolidate(mapping, store, o2).value.columns
      && multiset(Consolidate(mapping, store, o1).value.rows) == multiset(Consolidate(mapping, store, o2).value.rows)
  {
    ConsolidateSucceedsIff(mapping, store, o1);
    ConsolidateSucceedsIff(mapping, store, o2);
    if Consolidate(mapping, store, o1).Success? {
      ConsolidatedFrame(mapping, store, o1);
      ConsolidatedFrame(mapping, store, o2);
      RowsInOrderPermutation(Contributions(mapping, store), o1, o2);
    }
  }

  /** What one metric contributes: one row per row of its file, each
      carrying the metric's name. */
  lemma ContributionTagged(mapping: map<string, string>, store: map<string, Frame>, metric: string)
    requires metric in mapping && Contribution(mapping, store, metric).Success?
    ensures mapping[metric] in store
    ensures |Contribution(mapping, store, metric).value.rows| == |store[mapping[metric]].rows|
    ensures forall i :: 0 <= i < |Contribution(mapping, store, metric).value.rows| ==>
      Contribution(mapping, store, metric).value.rows[i][1] == Text(metric)
  {
    var t := WithMetric(store[mapping[metric]], metric);
    NormalisedRows(t);
  }

  /** Every date-like cell of a file holds a calendar date. */
  predicate DatesAreDays(t: Frame) {
    forall i, c :: 0 <= i < |t.rows| && 0 <= c < |t.columns| && DateLike(t.columns[c]) ==> t.rows[i][c].Day?
  }

  /** Rows of the unified width whose `date` cell holds a calendar date. */
  predicate DatedRows(rows: seq<Row>) {
    forall i :: 0 <= i < |rows| ==> |rows[i]| == 4 && rows[i][2].Day?
  }

  /** Attaching the metric name leaves the date-like cells as they were. */
  lemma WithMetricKeepsDays(file: Frame, metric: string)
    requires DatesAreDays(file)
    ensures DatesAreDays(WithMetric(file, metric))
  {
    var t := WithMetric(file, metric);
    forall i, c | 0 <= i < |t.rows| && 0 <= c < |t.columns| && DateLike(t.columns[c]) ensures t.rows[i][c].Day? {
      assert c < |file.columns| && t.columns[c] == file.columns[c] by {
        assert t.columns[..|file.columns|] == file.columns;
      }
    }
  }

  /** The date-like cells pass through normalisation unchanged, so a file
      with calendar dates there contributes dated rows. */
  lemma ContributionDated(mapping: map<string, string>, store: map<string, Frame>, metric: string)
    requires metric in mapping && mapping[metric] in store && DatesAreDays(store[mapping[metric]])
    requires Contribution(mapping, store, metric).Success?
    ensures DatedRows(Contribution(mapping, store, metric).value.rows)
  {
    var t := WithMetric(store[mapping[metric]], metric);
    WithMetricKeepsDays(store[mapping[metric]], metric);
    var n := Contribution(mapping, store, metric).value;
    assert Normalise(t) == Success(n);
    forall i | 0 <= i < |n.rows| ensures |n.rows[i]| == 4 && n.rows[i][2].Day? {
      NormalisedRow(t, i);
    }
  }

  lemma {:induction false} RowsInOrderDated(results: map<string, Result<Frame, ConsolidationError>>, order: seq<string>)
    requires AllIn(results, order)
    requires forall i :: 0 <= i < |order| && results[order[i]].Success? ==> DatedRows(results[order[i]].value.rows)
    ensures DatedRows(RowsInOrder(results, order))
    decreases |order|
  {
    if order != [] {
      AllInTail(results, order);
      var rest := order[1..];
      forall i | 0 <= i < |rest| && results[rest[i]].Success? ensures DatedRows(results[rest[i]].value.rows) {
        assert rest[i] == order[i + 1];
      }
      RowsInOrderDated(results, rest);
      var head, tail := RowsOf(results[order[0]]), RowsInOrder(results, rest);
      var joined: seq<Row> := head + tail;
      assert RowsInOrder(results, order) == joined;
      forall i | 0 <= i < |joined| ensures |joined[i]| == 4 && joined[i][2].Day? {
        if i >= |head| { assert joined[i] == tail[i - |head|]; }
      }
    }
  }

  /** What the loader accepts from a file: one `entity` column, at most one
      `metric` column (it is overwritten), one date-like column and one value column. */
  predicate Loadable(cols: seq<string>) {
    Count(cols, "entity") == 1 && Count(cols, "metric") <= 1
    && DateLikeCount(cols) == 1 && ValueColumnCount(cols) == 1
  }

  lemma {:induction false} ClassCountsAppend(cols: seq<string>, c: string)
    ensures DateLikeCount(cols + [c]) == DateLikeCount(cols) + (if DateLike(c) then 1 else 0)
    ensures ValueColumnCount(cols + [c]) == ValueColumnCount(cols) + (if IsValueColumn(c) then 1 else 0)
  {
    if cols == [] {
      assert cols + [c] == [c];
    } else {
      assert (cols + [c])[1..] == cols[1..] + [c];
      ClassCountsAppend(cols[1..], c);
    }
  }

  /** Attaching the metric name yields a well-shaped frame exactly when the file is loadable. */
  lemma WithMetricShape(t: Frame, metric: string)
    ensures WellShaped(WithMetric(t, metric).columns) <==> Loadable(t.columns)
  {
    var r := WithMetric(t, metric);
    if "metric" in t.columns {
      assert r.columns == r.columns[..|t.columns|];
    } else {
      assert r.columns == t.columns + ["metric"];
      CountAppend(t.columns, ["metric"], "entity");
      CountAppend(t.columns, ["metric"], "metric");
      ClassCountsAppend(t.columns, "metric");
    }
  }

  /** One metric contributes exactly when its file can be read and is loadable. */
  lemma ContributionSucceedsIff(mapping: map<string, string>, store: map<string, Frame>, metric: string)
    requires metric in mapping
    ensures Contribution(mapping, store, metric).Success? <==>
      mapping[metric] in store && Loadable(store[mapping[metric]].columns)
  {
    if mapping[metric] in store {
      var t := WithMetric(store[mapping[metric]], metric);
      NormaliseSucceedsIff(t);
      WithMetricShape(store[mapping[metric]], metric);
    }
  }

  lemma {:induction false} RowCountInOrder(mapping: map<string, string>, store: map<string, Frame>, order: seq<string>)
    requires AllIn(Contributions(mapping, store), order)
    requires forall i :: 0 <= i < |order| ==> Contribution(mapping, store, order[i]).Success?
    ensures |RowsInOrder(Contributions(mapping, store), order)| == StoredRowCount(mapping, store, order)
  {
    if order != [] {
      ContributionTagged(mapping, store, order[0]);
      AllInTail(Contributions(mapping, store), order);
      forall i | 0 <= i < |order| - 1 ensures Contribution(mapping, store, order[1..][i]).Success? {
        assert order[1..][i] == order[i + 1];
      }
      RowCountInOrder(mapping, store, order[1..]);
    }
  }

  /** The consolidated row count is the sum of the row counts of the metric files. */
  lemma ConsolidatedRowCount(mapping: map<string, string>, store: map<string, Frame>, order: seq<string>)
    requires IsYieldOrder(mapping, order) && Consolidate(mapping, store, order).Success?
    ensures forall i :: 0 <= i < |order| ==> order[i] in mapping
    ensures |Consolidate(mapping, store, order).value.rows| == StoredRowCount(mapping, store, order)
  {
    YieldOrderIsCovered(mapping, store, order);
    ConsolidatedFrame(mapping, store, order);
    ConsolidateSucceedsIff(mapping, store, order);
    assert forall i :: 0 <= i < |order| ==> Contribution(mapping, store, order[i]).Success?;
    RowCountInOrder(mapping, store, order);
  }

  /** With an empty catalog the source never reaches its accumulator:
      the pool constructor raises first. */
  lemma EmptyCatalogFailsAsWritten(store: map<string, Frame>)
    ensures ConsolidateAsWritten(map[], store, []) == Failure(NoWorkers)
  {
  }

  /** The intended result for an empty catalog: the empty four-column frame. */
  lemma EmptyCatalogGivesEmptyFrame(store: map<string, Frame>)
    ensures Consolidate(map[], store, []) == Success(EmptyUnified)
  {
  }
}
