/** pick_volumes.py: keeps the rows of an extraction whose subject lies in a register
    volume between a first and a final volume (inclusive), in their original order. Each
    subject's volume comes from the subjects table; a subject without one stops the run. */
module PickVolumes {
  import opened Wrappers
  import opened Strs
  import opened Seqs
  import opened Tables

  /** The `volume` column of the subjects table, by subject id. */
  type Volumes = map<int, int>

  /** The volume a row gets from the join; None is NaN. */
  function VolumeOf(volumes: Volumes, r: Row): Option<int>
  {
    var id := Get(r, "subject_id");
    if id.Int? && id.i in volumes then Some(volumes[id.i]) else None
  }

  function Unknown(volumes: Volumes): Row -> bool
  {
    (r: Row) => VolumeOf(volumes, r).None?
  }

  /** `volume.between(first, final)`: both ends included. */
  function InRange(volumes: Volumes, first: int, final: int): Row -> bool
  {
    (r: Row) => VolumeOf(volumes, r).Some? && first <= VolumeOf(volumes, r).value <= final
  }

  datatype Warning = StartAbsent(first: int) | StopAbsent(final: int)

  /** The table written, the warnings printed and the number of rows removed. */
  datatype Picked = Picked(table: Table, warnings: seq<Warning>, removed: nat)

  /** The rows numbered from `from` on, as `reset_index()` numbers them. */
  function Tag<T>(rows: seq<T>, from: nat): (ps: seq<(nat, T)>)
    ensures |ps| == |rows|
    ensures forall i | 0 <= i < |ps| :: ps[i] == (from + i, rows[i])
  {
    if |rows| == 0 then []
    else
      var rest := Tag(rows[1..], from + 1);
      assert forall i | 1 <= i < |rows| :: rows[1..][i - 1] == rows[i];
      [(from, rows[0])] + rest
  }

  /** `set_index('index')`: the rows without their numbers. */
  function Untag<T>(ps: seq<(nat, T)>): (rows: seq<T>)
    ensures |rows| == |ps| && forall i | 0 <= i < |ps| :: rows[i] == ps[i].1
  {
    seq(|ps|, i requires 0 <= i < |ps| => ps[i].1)
  }

  /** The saved number, the key of `sort_index()`. */
  function IndexKey<T>(p: (nat, T)): Key
  {
    (p.0, 0)
  }

  function Lift<T>(p: T -> bool): ((nat, T)) -> bool
  {
    (q: (nat, T)) => p(q.1)
  }

  /** The subject ids without a volume, each once, in order of first appearance
      (`index.drop_duplicates()`). */
  function MissingIds(volumes: Volumes, rows: seq<Row>): (ids: seq<Cell>)
    ensures NoDups(ids)
    ensures forall c :: c in ids <==> exists r | r in rows :: VolumeOf(volumes, r).None? && c == Get(r, "subject_id")
  {
    var lacking := Filter(rows, Unknown(volumes));
    var ids := seq(|lacking|, i requires 0 <= i < |lacking| => Get(lacking[i], "subject_id"));
    assert forall c :: c in ids <==> exists r | r in lacking :: c == Get(r, "subject_id") by {
      forall c ensures c in ids <==> exists r | r in lacking :: c == Get(r, "subject_id") {
        if c in ids {
          var i :| 0 <= i < |ids| && ids[i] == c;
          assert lacking[i] in lacking;
        }
        if exists r | r in lacking :: c == Get(r, "subject_id") {
          var r :| r in lacking && c == Get(r, "subject_id");
          var j :| 0 <= j < |lacking| && lacking[j] == r;
          assert ids[j] == c;
        }
      }
    }
    Dedup(ids)
  }

  /** The volumes of the joined rows, `set(volumes)`. */
  function Present(volumes: Volumes, rows: seq<Row>): set<int>
  {
    set r | r in rows && VolumeOf(volumes, r).Some? :: VolumeOf(volumes, r).value
  }

  /** The warnings for a first or final volume that no row has, in that order. */
  function Warnings(present: set<int>, first: int, final: int): (w: seq<Warning>)
    ensures StartAbsent(first) in w <==> first !in present
    ensures StopAbsent(final) in w <==> final !in present
  {
    (if first in present then [] else [StartAbsent(first)])
    + (if final in present then [] else [StopAbsent(final)])
  }

  /** One extraction file through the script. */
  function PickVolumes(volumes: Volumes, t: Table, first: int, final: int): (r: Result<Picked, Error>)
    ensures r.Ok? <==> "subject_id" in t.columns && "volume" !in t.columns
                       && forall x | x in t.rows :: VolumeOf(volumes, x).Some?
    ensures "subject_id" in t.columns && "volume" !in t.columns && r.Err? ==>
      r == Err(MissingSubjects(MissingIds(volumes, t.rows)))
    ensures r.Ok? ==> r.value.table.columns == t.columns
    ensures r.Ok? ==> r.value.removed == |t.rows| - |r.value.table.rows|
    ensures r.Ok? ==> (StartAbsent(first) in r.value.warnings <==> first !in Present(volumes, t.rows))
    ensures r.Ok? ==> (StopAbsent(final) in r.value.warnings <==> final !in Present(volumes, t.rows))
  {
    if "subject_id" !in t.columns then Err(MissingColumn("subject_id"))
    else if "volume" in t.columns then Err(ColumnOverlap("volume"))
    else if exists x | x in t.rows :: VolumeOf(volumes, x).None? then
      Err(MissingSubjects(MissingIds(volumes, t.rows)))
    else
      var warnings := Warnings(Present(volumes, t.rows), first, final);
      var kept := Untag(SortBy(Filter(Tag(t.rows, 0), Lift(InRange(volumes, first, final))), IndexKey));
      Ok(Picked(Table(t.columns, kept), warnings, |t.rows| - |kept|))
  }

  const DefaultSuffix := ".vols.csv"

  /** `f'{extraction.split(".", 1)[0]}{args.suffix}'`: the name up to its first dot. */
  function OutputName(extraction: string, suffix: string): (name: string)
    ensures exists k | 0 <= k <= |extraction| :: name == extraction[..k] + suffix && '.' !in extraction[..k]
                                                  && (k == |extraction| || extraction[k] == '.')
  {
    var k := FindChar(extraction, '.');
    extraction[..k] + suffix
  }

  lemma UntagCons<T>(x: (nat, T), ps: seq<(nat, T)>)
    ensures Untag([x] + ps) == [x.1] + Untag(ps)
  {
  }

  lemma TagHead<T>(rows: seq<T>, from: nat)
    requires |rows| > 0
    ensures Tag(rows, from) == [(from, rows[0])] + Tag(rows[1..], from + 1)
  {
  }

  /** Filtering numbered rows and dropping the numbers is filtering the rows. */
  lemma {:induction false} UntagFilter<T>(rows: seq<T>, from: nat, p: T -> bool)
    ensures Untag(Filter(Tag(rows, from), Lift(p))) == Filter(rows, p)
  {
    if |rows| > 0 {
      var x := (from, rows[0]);
      var tail := Tag(rows[1..], from + 1);
      var ft := Filter(tail, Lift(p));
      TagHead(rows, from);
      UntagFilter(rows[1..], from + 1, p);
      FilterCons(x, tail, Lift(p));
      FilterHead(rows, p);
      if p(rows[0]) {
        UntagCons(x, ft);
        assert Untag(Filter(Tag(rows, from), Lift(p))) == [rows[0]] + Untag(ft);
      } else {
        assert Filter(Tag(rows, from), Lift(p)) == ft;
      }
    }
  }

  /** Numbering the rows, filtering, sorting on the numbers and dropping them keeps the
      rows that pass, in their original order. */
  lemma OriginalOrder<T>(rows: seq<T>, p: T -> bool)
    ensures Untag(SortBy(Filter(Tag(rows, 0), Lift(p)), IndexKey)) == Filter(rows, p)
  {
    var tagged := Tag(rows, 0);
    assert SortedBy(tagged, IndexKey);
    FilterSorted(tagged, Lift(p), IndexKey);
    SortSortedIdentity(Filter(tagged, Lift(p)), IndexKey);
    UntagFilter(rows, 0, p);
  }

  /** The kept rows are exactly those whose volume lies between the first and the final
      volume, both included, in their original order; the number removed is the number
      of the others. */
  lemma PickMeaning(volumes: Volumes, t: Table, first: int, final: int)
    requires PickVolumes(volumes, t, first, final).Ok?
    ensures var out := PickVolumes(volumes, t, first, final).value;
      && out.table.rows == Filter(t.rows, InRange(volumes, first, final))
      && (forall x :: x in out.table.rows <==>
            x in t.rows && first <= VolumeOf(volumes, x).value <= final)
      && out.removed == |t.rows| - Count(t.rows, InRange(volumes, first, final))
  {
    var p := InRange(volumes, first, final);
    PickedRows(volumes, t, first, final);
    var kept := Filter(t.rows, p);
    FilterCount(t.rows, p);
    forall x ensures x in kept <==> x in t.rows && first <= VolumeOf(volumes, x).value <= final {
      assert x in kept <==> x in t.rows && p(x);
    }
  }

  lemma PickedRows(volumes: Volumes, t: Table, first: int, final: int)
    requires PickVolumes(volumes, t, first, final).Ok?
    ensures var out := PickVolumes(volumes, t, first, final).value;
      && out.table.rows == Filter(t.rows, InRange(volumes, first, final))
      && out.removed == |t.rows| - |out.table.rows|
  {
    OriginalOrder(t.rows, InRange(volumes, first, final));
  }

  /** A first or final volume that no row has only adds a warning: the rows kept are the
      same as for the volumes the rows do have around it. */
  lemma AbsentVolumeOnlyWarns(volumes: Volumes, t: Table, first: int, final: int)
    requires PickVolumes(volumes, t, first, final).Ok?
    requires first !in Present(volumes, t.rows)
    ensures PickVolumes(volumes, t, first + 1, final).Ok?
    ensures PickVolumes(volumes, t, first, final).value.table == PickVolumes(volumes, t, first + 1, final).value.table
    ensures StartAbsent(first) in PickVolumes(volumes, t, first, final).value.warnings
  {
    PickMeaning(volumes, t, first, final);
    PickMeaning(volumes, t, first + 1, final);
    forall x | x in t.rows ensures InRange(volumes, first, final)(x) == InRange(volumes, first + 1, final)(x) {
      var v := VolumeOf(volumes, x).value;
      assert v in Present(volumes, t.rows);
    }
    FilterSame(t.rows, InRange(volumes, first, final), InRange(volumes, first + 1, final));
  }
}
