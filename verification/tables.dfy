/** The pandas frames that the row-filtering scripts read from CSV and write back: a list
    of column names and rows that map each column to a cell, and the step that
    strip_processed.py and explicit_blanks.py share — give every row the number after the
    first character of its task (`int(x['task'][1:])`), sort on an integer column and that
    number, and restore the original columns. */
module Tables {
  import opened Wrappers
  import opened Strs
  import opened Seqs

  /** A cell as pandas reads it: an integer, a string, a boolean or missing (NaN). */
  datatype Cell = Int(i: int) | Str(s: string) | Bool(b: bool) | Null

  type Row = map<string, Cell>

  datatype Table = Table(columns: seq<string>, rows: seq<Row>)

  datatype Error =
    | MissingColumn(name: string)
    | ColumnOverlap(name: string)
    | BadTask(task: Cell)
    | NotInteger(column: string)
    | MissingSubjects(ids: seq<Cell>)

  function ColumnSet(columns: seq<string>): set<string>
  {
    set c | c in columns
  }

  /** What reading a CSV file gives: distinct column names, and every row holding exactly
      those columns. */
  predicate WellFormed(t: Table)
  {
    NoDups(t.columns) && forall r | r in t.rows :: r.Keys == ColumnSet(t.columns)
  }

  /** The cell of a column, NaN when the row has no such column. */
  function Get(r: Row, c: string): Cell
  {
    if c in r then r[c] else Null
  }

  /** Python's `int(s)` on a string: surrounding whitespace, an optional sign and
      decimal digits. */
  function ParseInt(s: string): (n: Option<int>)
    ensures IsDigits(Strip(s)) ==> n == Some(DigitsValue(Strip(s)))
  {
    var t := Strip(s);
    if IsDigits(t) then Some(DigitsValue(t))
    else if |t| > 1 && (t[0] == '-' || t[0] == '+') && IsDigits(t[1..]) then
      var v: int := DigitsValue(t[1..]);
      Some(if t[0] == '-' then -v else v)
    else None
  }

  /** `str(n)` reads back as `n`. */
  lemma ParseIntRoundTrip(n: nat)
    ensures ParseInt(NatToString(n)) == Some(n)
  {
    var s := NatToString(n);
    assert !IsSpace(s[0]) && !IsSpace(s[|s| - 1]);
    assert LeadingSpace(s) == 0 && s[0..] == s;
    assert TrailingSpace(s) == 0;
    assert Strip(s) == s[..|s|] == s;
    NatToStringValue(n);
  }

  /** `int(x['task'][1:])`: the number after the first character of the task ("T12" gives
      12); None where Python raises. */
  function TaskNumber(c: Cell): Option<int>
  {
    match c
    case Str(s) => if |s| == 0 then None else ParseInt(s[1..])
    case _ => None
  }

  lemma TaskNumberRoundTrip(t: char, n: nat)
    ensures TaskNumber(Str([t] + NatToString(n))) == Some(n)
  {
    assert ([t] + NatToString(n))[1..] == NatToString(n);
    ParseIntRoundTrip(n);
  }

  function IntOf(c: Cell): int
  {
    if c.Int? then c.i else 0
  }

  function TaskOf(r: Row): int
  {
    var n := TaskNumber(Get(r, "task"));
    if n.Some? then n.value else 0
  }

  /** The sort key `by = [first, 'tmp']`, with `tmp` the task number. */
  function RowKey(first: string): Row -> Key
  {
    (r: Row) => (IntOf(Get(r, first)), TaskOf(r))
  }

  /** `reindex(columns = columns)` after `tmp` was added: the listed columns, a missing one
      as NaN, and `tmp` holding the task number. */
  function Restore(r: Row, columns: seq<string>): (out: Row)
    ensures out.Keys == ColumnSet(columns)
  {
    map c | c in ColumnSet(columns) :: if c == "tmp" then Int(TaskOf(r)) else Get(r, c)
  }

  function RestoreAll(rs: seq<Row>, columns: seq<string>): (out: seq<Row>)
    ensures |out| == |rs| && forall i | 0 <= i < |rs| :: out[i] == Restore(rs[i], columns)
  {
    seq(|rs|, i requires 0 <= i < |rs| => Restore(rs[i], columns))
  }

  /** The first row whose task has no number. */
  function FirstBadTask(rs: seq<Row>): (c: Cell)
    requires exists r | r in rs :: TaskNumber(Get(r, "task")).None?
    ensures exists r | r in rs :: c == Get(r, "task") && TaskNumber(c).None?
  {
    if TaskNumber(Get(rs[0], "task")).None? then Get(rs[0], "task")
    else
      assert forall r | r in rs[1..] :: r in rs;
      assert exists r | r in rs[1..] :: TaskNumber(Get(r, "task")).None?;
      FirstBadTask(rs[1..])
  }

  /** `reset_index()`, the `tmp` column, `sort_values(by = [first, 'tmp'])` and
      `reindex(columns = columns)`. */
  function SortByTask(rs: seq<Row>, columns: seq<string>, first: string): (r: Result<seq<Row>, Error>)
    ensures "task" !in columns ==> r == Err(MissingColumn("task"))
    ensures r.Ok? <==> ("task" in columns && first in columns
      && forall x | x in rs :: TaskNumber(Get(x, "task")).Some? && Get(x, first).Int?)
    ensures r.Ok? ==> r.value == RestoreAll(SortBy(rs, RowKey(first)), columns)
  {
    if "task" !in columns then Err(MissingColumn("task"))
    else if exists x | x in rs :: TaskNumber(Get(x, "task")).None? then Err(BadTask(FirstBadTask(rs)))
    else if first !in columns then Err(MissingColumn(first))
    else if exists x | x in rs :: !Get(x, first).Int? then Err(NotInteger(first))
    else Ok(RestoreAll(SortBy(rs, RowKey(first)), columns))
  }

  /** Restoring the columns of a row read from the file gives the row back, unless the
      file has its own `tmp` column. */
  lemma RestoreIdentity(r: Row, columns: seq<string>)
    requires r.Keys == ColumnSet(columns) && "tmp" !in columns
    ensures Restore(r, columns) == r
  {
  }

  lemma {:induction false} RestoreAllIdentity(rs: seq<Row>, columns: seq<string>)
    requires forall r | r in rs :: r.Keys == ColumnSet(columns)
    requires "tmp" !in columns
    ensures RestoreAll(rs, columns) == rs
  {
    forall i | 0 <= i < |rs| ensures RestoreAll(rs, columns)[i] == rs[i] {
      RestoreIdentity(rs[i], columns);
    }
  }

  /** On rows read from the file (and no `tmp` column of its own), the result is a
      reordering of the rows, sorted on the key; rows of equal key keep their order, and
      rows already in that order come back as they were. */
  lemma SortByTaskMeaning(rs: seq<Row>, columns: seq<string>, first: string)
    requires forall r | r in rs :: r.Keys == ColumnSet(columns)
    requires "tmp" !in columns && SortByTask(rs, columns, first).Ok?
    ensures multiset(SortByTask(rs, columns, first).value) == multiset(rs)
    ensures SortedBy(SortByTask(rs, columns, first).value, RowKey(first))
    ensures SortedBy(rs, RowKey(first)) ==> SortByTask(rs, columns, first).value == rs
    ensures forall k: Key :: Filter(SortByTask(rs, columns, first).value, HasKey(RowKey(first), k))
                             == Filter(rs, HasKey(RowKey(first), k))
  {
    var sorted := SortBy(rs, RowKey(first));
    forall r | r in sorted ensures r.Keys == ColumnSet(columns) {
      assert r in multiset(sorted);
    }
    RestoreAllIdentity(sorted, columns);
    if SortedBy(rs, RowKey(first)) {
      SortSortedIdentity(rs, RowKey(first));
    }
    forall k: Key ensures Filter(sorted, HasKey(RowKey(first), k)) == Filter(rs, HasKey(RowKey(first), k)) {
      SortStable(rs, RowKey(first), k);
    }
  }
}
