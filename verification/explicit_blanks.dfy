/** explicit_blanks.py: in a reduction, a consensus text that is empty or only whitespace
    becomes the word `BLANK`; the rows are then put in order of subject and task number and
    written out with the original columns. */
module ExplicitBlanks {
  import opened Wrappers
  import opened Strs
  import opened Seqs
  import opened Tables

  const Consensus := "data.consensus_text"
  const BlankWord := "BLANK"

  /** `replace('^\s*$', 'BLANK', regex = True)` on one cell: the pattern matches exactly
      the strings made only of whitespace, the empty one included. */
  function MarkBlank(c: Cell): Cell
  {
    if c.Str? && AllSpace(c.s) then Str(BlankWord) else c
  }

  /** The row with its consensus cell marked. */
  function BlankRow(r: Row): (out: Row)
    ensures out.Keys == r.Keys
    ensures forall c | c in r && c != Consensus :: out[c] == r[c]
  {
    if Consensus in r then r[Consensus := MarkBlank(r[Consensus])] else r
  }

  function BlankRows(rs: seq<Row>): (out: seq<Row>)
    ensures |out| == |rs| && forall i | 0 <= i < |rs| :: out[i] == BlankRow(rs[i])
  {
    seq(|rs|, i requires 0 <= i < |rs| => BlankRow(rs[i]))
  }

  /** The consensus column replaced in place (`inplace = True`). */
  method ReplaceBlanks(rows: array<Row>)
    modifies rows
    ensures rows[..] == BlankRows(old(rows[..]))
  {
    var i := 0;
    while i < rows.Length
      invariant 0 <= i <= rows.Length
      invariant forall j | 0 <= j < i :: rows[j] == BlankRow(old(rows[j]))
      invariant forall j | i <= j < rows.Length :: rows[j] == old(rows[j])
    {
      var r := rows[i];
      if Consensus in r {
        rows[i] := r[Consensus := MarkBlank(r[Consensus])];
      }
      i := i + 1;
    }
  }

  /** The rows after the replacement, which happens only when the column exists. */
  function Marked(t: Table): seq<Row>
  {
    if Consensus in t.columns then BlankRows(t.rows) else t.rows
  }

  /** What the script writes for one reduction file. */
  function ExplicitBlanksSpec(t: Table): (r: Result<Table, Error>)
  {
    var sorted :- SortByTask(Marked(t), t.columns, "subject_id");
    Ok(Table(t.columns, sorted))
  }

  /** One reduction file through the script. */
  method ExplicitBlanks(t: Table) returns (r: Result<Table, Error>)
    ensures r == ExplicitBlanksSpec(t)
  {
    var rows := new Row[|t.rows|](i requires 0 <= i < |t.rows| => t.rows[i]);
    assert rows[..] == t.rows;
    if Consensus in t.columns {
      ReplaceBlanks(rows);
    }
    var sorted := SortByTask(rows[..], t.columns, "subject_id");
    if sorted.Err? {
      return Err(sorted.error);
    }
    return Ok(Table(t.columns, sorted.value));
  }

  // ----- properties -----

  /** A cell changes exactly when it is a string of whitespace only, and then it reads
      BLANK; marking twice is marking once. */
  lemma MarkBlankMeaning(c: Cell)
    ensures MarkBlank(c) != c <==> c.Str? && AllSpace(c.s)
    ensures MarkBlank(c) != c ==> MarkBlank(c) == Str(BlankWord)
    ensures MarkBlank(MarkBlank(c)) == MarkBlank(c)
  {
    if c.Str? && AllSpace(c.s) {
      assert !IsSpace(BlankWord[0]);
    }
  }

  /** On a file as read (and without a `tmp` column of its own) the output has the same
      columns and as many rows; they are the input rows with the consensus marked,
      reordered by subject and task number, and no consensus text is left blank. Without a
      consensus column the rows are only reordered. */
  lemma ExplicitBlanksMeaning(t: Table)
    requires WellFormed(t) && "tmp" !in t.columns && ExplicitBlanksSpec(t).Ok?
    ensures var out := ExplicitBlanksSpec(t).value;
      && out.columns == t.columns
      && |out.rows| == |t.rows|
      && WellFormed(out)
      && SortedBy(out.rows, RowKey("subject_id"))
      && (Consensus in t.columns ==>
            multiset(out.rows) == multiset(BlankRows(t.rows))
            && forall x: Row | x in out.rows :: !(Get(x, Consensus).Str? && AllSpace(Get(x, Consensus).s)))
      && (Consensus !in t.columns ==> multiset(out.rows) == multiset(t.rows))
  {
    MarkedRows(t);
    var rows := Marked(t);
    SortByTaskMeaning(rows, t.columns, "subject_id");
    var out := ExplicitBlanksSpec(t).value;
    assert |out.rows| == |rows| by {
      assert |multiset(out.rows)| == |multiset(rows)|;
    }
    forall x | x in out.rows ensures x in rows {
      assert x in multiset(rows);
    }
  }

  /** The marked rows keep the file's columns, and with a consensus column none of them
      has a blank consensus left. */
  lemma MarkedRows(t: Table)
    requires WellFormed(t)
    ensures forall x | x in Marked(t) :: x.Keys == ColumnSet(t.columns)
    ensures Consensus in t.columns ==>
      forall x: Row | x in Marked(t) :: !(Get(x, Consensus).Str? && AllSpace(Get(x, Consensus).s))
  {
    var rows := Marked(t);
    forall x | x in rows
      ensures x.Keys == ColumnSet(t.columns)
      ensures Consensus in t.columns ==> !(Get(x, Consensus).Str? && AllSpace(Get(x, Consensus).s))
    {
      var i :| 0 <= i < |rows| && rows[i] == x;
      assert t.rows[i] in t.rows;
      if Consensus in t.columns {
        MarkBlankMeaning(t.rows[i][Consensus]);
        assert !IsSpace(BlankWord[0]);
      }
    }
  }
}
