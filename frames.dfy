/** In-memory stand-ins for pandas data frames: named columns over
    rectangular rows of cells. */
module Frames {
  import opened Dates

  /** One cell of a frame: text, a calendar date, a number, or missing. */
  datatype Cell = Text(text: string) | Day(date: CalendarDate) | Number(amount: real) | Null

  type Row = seq<Cell>

  datatype Table = Table(columns: seq<string>, rows: seq<Row>)

  /** Every row has one cell per column, as in any data frame. */
  predicate Rectangular(t: Table) {
    forall i :: 0 <= i < |t.rows| ==> |t.rows[i]| == |t.columns|
  }

  type Frame = t: Table | Rectangular(t) witness Table([], [])

  /** Number of columns called `name`. */
  function Count(cols: seq<string>, name: string): (n: nat)
    ensures n <= |cols|
    ensures n == 0 <==> name !in cols
  {
    if cols == [] then 0 else (if cols[0] == name then 1 else 0) + Count(cols[1..], name)
  }

  /** Position of the first column called `name`. */
  function IndexOf(cols: seq<string>, name: string): (i: nat)
    requires name in cols
    ensures i < |cols| && cols[i] == name
    ensures forall j :: 0 <= j < i ==> cols[j] != name
  {
    if cols[0] == name then 0 else 1 + IndexOf(cols[1..], name)
  }

  lemma {:induction false} CountAppend(a: seq<string>, b: seq<string>, name: string)
    ensures Count(a + b, name) == Count(a, name) + Count(b, name)
  {
    if a == [] {
      assert a + b == b;
    } else {
      assert (a + b)[1..] == a[1..] + b;
      CountAppend(a[1..], b, name);
    }
  }

  /** A name that occurs once sits at its first index and nowhere else. */
  lemma {:induction false} UniqueIndex(cols: seq<string>, name: string, j: int)
    requires Count(cols, name) == 1 && 0 <= j < |cols| && cols[j] == name
    ensures IndexOf(cols, name) == j
  {
    if cols[0] != name {
      UniqueIndex(cols[1..], name, j - 1);
    }
  }
}
