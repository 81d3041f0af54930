/** strip_processed.py: drops from an extraction the classifications of tasks that an
    earlier tranche already completed, then puts the rows in order of classification and
    task number and writes them out with the original columns. */
module StripProcessed {
  import opened Wrappers
  import opened Strs
  import opened Seqs
  import opened Tables

  /** The `complete` column of the tranche file, indexed by (subject_id, task). */
  type Tranche = map<(Cell, Cell), Cell>

  /** The `complete` cell a row gets from the left join: NaN when the tranche has no entry
      for its subject and task. */
  function CompleteOf(tranche: Tranche, r: Row): Cell
  {
    var k := (Get(r, "subject_id"), Get(r, "task"));
    if k in tranche then tranche[k] else Null
  }

  /** `complete == True` under Python's equality, where `1 == True`; NaN is not. */
  predicate IsTrue(c: Cell)
  {
    c == Bool(true) || c == Int(1)
  }

  /** The rows that `extraction_df['complete'] != True` keeps. */
  function Pending(tranche: Tranche): Row -> bool
  {
    (r: Row) => !IsTrue(CompleteOf(tranche, r))
  }

  const ClassificationId := "classification_id"

  /** One extraction file through the script. */
  function StripProcessed(tranche: Tranche, t: Table): (r: Result<Table, Error>)
    ensures r.Ok? <==> && "subject_id" in t.columns && "task" in t.columns
                       && "complete" !in t.columns && ClassificationId in t.columns
                       && forall x | x in t.rows && !IsTrue(CompleteOf(tranche, x)) ::
                            TaskNumber(Get(x, "task")).Some? && Get(x, ClassificationId).Int?
    ensures r.Ok? ==> r.value.columns == t.columns
    ensures "subject_id" !in t.columns ==> r == Err(MissingColumn("subject_id"))
    ensures "subject_id" in t.columns && "task" in t.columns && "complete" in t.columns ==>
      r == Err(ColumnOverlap("complete"))
  {
    if "subject_id" !in t.columns then Err(MissingColumn("subject_id"))
    else if "task" !in t.columns then Err(MissingColumn("task"))
    else if "complete" in t.columns then Err(ColumnOverlap("complete"))
    else
      var kept := Filter(t.rows, Pending(tranche));
      var rows :- SortByTask(kept, t.columns, ClassificationId);
      Ok(Table(t.columns, rows))
  }

  const DefaultSuffix := ".new"

  /** `f'{extraction}{args.suffix}'`. */
  function OutputName(extraction: string, suffix: string): (name: string)
    ensures StartsWith(name, extraction) && name[|extraction|..] == suffix
  {
    extraction + suffix
  }

  /** On a file as read (and without a `tmp` column of its own): a row is written exactly
      when the tranche does not mark its subject and task complete — rows the tranche does
      not know, or whose flag is NaN, stay — each as often as it was there, and the output
      is in order of classification and task number. */
  lemma StripMeaning(tranche: Tranche, t: Table)
    requires WellFormed(t) && "tmp" !in t.columns && StripProcessed(tranche, t).Ok?
    ensures var out := StripProcessed(tranche, t).value;
      && WellFormed(out)
      && (forall x :: x in out.rows <==> x in t.rows && !IsTrue(CompleteOf(tranche, x)))
      && multiset(out.rows) == multiset(Filter(t.rows, Pending(tranche)))
      && SortedBy(out.rows, RowKey(ClassificationId))
  {
    var kept := Filter(t.rows, Pending(tranche));
    SortByTaskMeaning(kept, t.columns, ClassificationId);
    var out := StripProcessed(tranche, t).value;
    forall x ensures x in out.rows <==> x in kept {
      assert x in out.rows <==> x in multiset(out.rows);
    }
  }

  /** A tranche that marks nothing complete, on a file already in order, writes the file
      back unchanged. */
  lemma StripIdentity(tranche: Tranche, t: Table)
    requires WellFormed(t) && "tmp" !in t.columns && StripProcessed(tranche, t).Ok?
    requires forall x | x in t.rows :: !IsTrue(CompleteOf(tranche, x))
    requires SortedBy(t.rows, RowKey(ClassificationId))
    ensures StripProcessed(tranche, t) == Ok(t)
  {
    FilterAll(t.rows, Pending(tranche));
    SortByTaskMeaning(t.rows, t.columns, ClassificationId);
  }
}
