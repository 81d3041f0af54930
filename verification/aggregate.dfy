/** aggregate.py: decoding of dropdown selections to their labels, the outer join of the
    per-field columns on (subject_id, task), and the volume/page columns read from each
    subject's scan file name. */
module Aggregate {
  import opened Wrappers
  import opened Seqs
  import opened ScanNames
  import opened Strs

  // ----- dropdown decoding (aggregate.py:113-126) -----

  /** A key of the decoded mapping: Python's `None` (abstentions) or a label text. */
  datatype Key = NullKey | Label(text: string)

  /** What `decode_dropdown` returns: the single key, or `str()` of the whole mapping,
      kept here as the mapping itself in insertion order. */
  datatype Decoded = Single(key: Key) | Printed(entries: seq<(Key, int)>)

  datatype Error =
    | NotOneSelection(count: nat)
    | MissingLabel(code: string)
    | EmptyLabel(code: string)
    | SubjectNotInMetadata(subject: int)
    | NoFilename(subject: int)
    | RowCountMismatch(subject: int, rows: nat)

  /** The key under which the task-label file stores the label of option `code`. */
  function LabelEntry(code: string): string
  {
    "T1.selects.0.options.*." + code + ".label"
  }

  /** One option code to its key: `'None'` is Python's None; any other code takes the first
      value of the inner mapping stored under its label entry (a missing entry is a
      KeyError, an empty one an IndexError). `labels` maps each entry to the values of its
      inner mapping, in file order. */
  function DecodeCode(code: string, labels: map<string, seq<string>>): (r: Result<Key, Error>)
    ensures code == "None" ==> r == Ok(NullKey)
    ensures code != "None" && LabelEntry(code) !in labels ==> r == Err(MissingLabel(code))
    ensures code != "None" && LabelEntry(code) in labels && |labels[LabelEntry(code)]| == 0
      ==> r == Err(EmptyLabel(code))
    ensures code != "None" && LabelEntry(code) in labels && |labels[LabelEntry(code)]| > 0
      ==> r == Ok(Label(labels[LabelEntry(code)][0]))
  {
    if code == "None" then Ok(NullKey)
    else if LabelEntry(code) !in labels then Err(MissingLabel(code))
    else if |labels[LabelEntry(code)]| == 0 then Err(EmptyLabel(code))
    else Ok(Label(labels[LabelEntry(code)][0]))
  }

  /** `result[k] = v` on an insertion-ordered dict: an existing key keeps its place and
      takes the new value; a new key goes last. */
  function Assign(d: seq<(Key, int)>, k: Key, v: int): (r: seq<(Key, int)>)
    requires NoDups(Firsts(d))
    ensures NoDups(Firsts(r))
    ensures k in Firsts(d) ==> Firsts(r) == Firsts(d)
    ensures k !in Firsts(d) ==> Firsts(r) == Firsts(d) + [k]
    ensures forall i | 0 <= i < |r| :: r[i].1 == (if r[i].0 == k then v else d[i].1)
  {
    var ks := Firsts(d);
    if k in ks then
      var at := IndexOf(ks, k);
      var r := d[at := (k, v)];
      assert Firsts(r) == ks;
      r
    else
      var r := d + [(k, v)];
      assert Firsts(r) == ks + [k];
      r
  }

  /** The dict that the loop of `decode_dropdown` builds from decoded (key, votes) pairs. */
  function Tally(es: seq<(Key, int)>): (r: seq<(Key, int)>)
    ensures NoDups(Firsts(r))
  {
    if |es| == 0 then []
    else Assign(Tally(es[..|es| - 1]), es[|es| - 1].0, es[|es| - 1].1)
  }

  /** Decodes every code of one selection mapping, in order; the first failure stops. */
  function DecodeAll(sel: seq<(string, int)>, labels: map<string, seq<string>>): (r: Result<seq<(Key, int)>, Error>)
    ensures r.Ok? ==> |r.value| == |sel|
  {
    if |sel| == 0 then Ok([])
    else
      var front :- DecodeAll(sel[..|sel| - 1], labels);
      var k :- DecodeCode(sel[|sel| - 1].0, labels);
      Ok(front + [(k, sel[|sel| - 1].1)])
  }

  /** A single key is returned as itself; anything else as the printed mapping. */
  function Collapse(t: seq<(Key, int)>): Decoded
  {
    if |t| == 1 then Single(t[0].0) else Printed(t)
  }

  /** What `decode_dropdown` computes from the parsed list of selection mappings. */
  function DecodeSpec(selections: seq<seq<(string, int)>>, labels: map<string, seq<string>>): Result<Decoded, Error>
  {
    if |selections| != 1 then Err(NotOneSelection(|selections|))
    else
      var es :- DecodeAll(selections[0], labels);
      Ok(Collapse(Tally(es)))
  }

  /** `decode_dropdown`: the loop over the selection's (code, votes) items filling `result`. */
  method DecodeDropdown(selections: seq<seq<(string, int)>>, labels: map<string, seq<string>>)
    returns (r: Result<Decoded, Error>)
    ensures r == DecodeSpec(selections, labels)
  {
    if |selections| != 1 {
      return Err(NotOneSelection(|selections|));
    }
    var sel := selections[0];
    var result: seq<(Key, int)> := [];
    var i := 0;
    while i < |sel|
      invariant 0 <= i <= |sel|
      invariant DecodeAll(sel[..i], labels).Ok?
      invariant result == Tally(DecodeAll(sel[..i], labels).value)
    {
      var k := DecodeCode(sel[i].0, labels);
      if k.Err? {
        DecodeStep(sel, labels, i);
        DecodeAllPrefixErr(sel, labels, i + 1);
        return Err(k.error);
      }
      TallyStep(sel, labels, i, result, k.value);
      result := Assign(result, k.value, sel[i].1);
      i := i + 1;
    }
    assert sel[..i] == sel;
    return Ok(Collapse(result));
  }

  /** Decoding one more code: a failure, or one more entry and one more assignment. */
  lemma DecodeStep(sel: seq<(string, int)>, labels: map<string, seq<string>>, i: nat)
    requires i < |sel| && DecodeAll(sel[..i], labels).Ok?
    ensures var k := DecodeCode(sel[i].0, labels);
      var es := DecodeAll(sel[..i], labels).value;
      && (k.Err? ==> DecodeAll(sel[..i + 1], labels) == Err(k.error))
      && (k.Ok? ==> DecodeAll(sel[..i + 1], labels) == Ok(es + [(k.value, sel[i].1)])
                    && Tally(es + [(k.value, sel[i].1)]) == Assign(Tally(es), k.value, sel[i].1))
  {
    assert sel[..i + 1][..i] == sel[..i];
    var k := DecodeCode(sel[i].0, labels);
    var es := DecodeAll(sel[..i], labels).value;
    if k.Ok? {
      assert (es + [(k.value, sel[i].1)])[..|es|] == es;
    }
  }

  lemma TallyStep(sel: seq<(string, int)>, labels: map<string, seq<string>>, i: nat, result: seq<(Key, int)>, k: Key)
    requires i < |sel| && DecodeAll(sel[..i], labels).Ok? && result == Tally(DecodeAll(sel[..i], labels).value)
    requires DecodeCode(sel[i].0, labels) == Ok(k)
    ensures NoDups(Firsts(result))
    ensures DecodeAll(sel[..i + 1], labels).Ok?
    ensures Assign(result, k, sel[i].1) == Tally(DecodeAll(sel[..i + 1], labels).value)
  {
    DecodeStep(sel, labels, i);
  }

  /** A failure on a prefix is a failure of the whole decoding. */
  lemma {:induction false} DecodeAllPrefixErr(sel: seq<(string, int)>, labels: map<string, seq<string>>, n: nat)
    requires n <= |sel| && DecodeAll(sel[..n], labels).Err?
    ensures DecodeAll(sel, labels) == DecodeAll(sel[..n], labels)
    decreases |sel| - n
  {
    if n < |sel| {
      assert sel[..n + 1][..n] == sel[..n];
      DecodeAllPrefixErr(sel, labels, n + 1);
    } else {
      assert sel[..n] == sel;
    }
  }

  /** The decoding fails exactly when some code has no usable label. */
  lemma {:induction false} DecodeAllOk(sel: seq<(string, int)>, labels: map<string, seq<string>>)
    ensures DecodeAll(sel, labels).Ok?
      <==> forall i | 0 <= i < |sel| :: DecodeCode(sel[i].0, labels).Ok?
    ensures DecodeAll(sel, labels).Ok? ==> forall i | 0 <= i < |sel| ::
      DecodeAll(sel, labels).value[i] == (DecodeCode(sel[i].0, labels).value, sel[i].1)
  {
    if |sel| > 0 {
      var p := sel[..|sel| - 1];
      DecodeAllOk(p, labels);
      assert forall i | 0 <= i < |p| :: p[i] == sel[i];
    }
  }

  /** Value that the last entry with key `k` carries. */
  function LastVote(es: seq<(Key, int)>, k: Key): int
    requires k in Firsts(es)
  {
    if es[|es| - 1].0 == k then es[|es| - 1].1
    else
      assert Firsts(es) == Firsts(es[..|es| - 1]) + [es[|es| - 1].0];
      LastVote(es[..|es| - 1], k)
  }

  /** The tally holds each decoded key once, in first-seen order, with the vote count of
      its LAST occurrence: codes that decode to the same label do not add up. */
  lemma TallyMeaning(es: seq<(Key, int)>)
    ensures Firsts(Tally(es)) == Dedup(Firsts(es))
    ensures forall i | 0 <= i < |Tally(es)| ::
      Tally(es)[i].0 in Firsts(es) && Tally(es)[i].1 == LastVote(es, Tally(es)[i].0)
  {
    TallyKeys(es);
    TallyVotes(es);
  }

  lemma {:induction false} TallyKeys(es: seq<(Key, int)>)
    ensures Firsts(Tally(es)) == Dedup(Firsts(es))
  {
    if |es| > 0 {
      var p := es[..|es| - 1];
      TallyKeys(p);
      assert Firsts(es) == Firsts(p) + [es[|es| - 1].0];
      assert Firsts(es)[..|es| - 1] == Firsts(p);
    }
  }

  lemma {:induction false} TallyVotes(es: seq<(Key, int)>)
    ensures forall i | 0 <= i < |Tally(es)| ::
      Tally(es)[i].0 in Firsts(es) && Tally(es)[i].1 == LastVote(es, Tally(es)[i].0)
  {
    if |es| > 0 {
      var p := es[..|es| - 1];
      var x := es[|es| - 1];
      TallyVotes(p);
      assert Firsts(es) == Firsts(p) + [x.0];
      var t := Tally(es);
      var tp := Tally(p);
      forall i | 0 <= i < |t|
        ensures t[i].0 in Firsts(es) && t[i].1 == LastVote(es, t[i].0)
      {
        if t[i].0 != x.0 {
          assert i < |tp| && t[i] == tp[i];
        }
      }
    }
  }

  /** The whole of `decode_dropdown`: it raises unless there is exactly one selection
      mapping and every code in it has a label; otherwise a mapping with exactly one
      distinct decoded key gives that key, and any other gives the printed mapping of
      the distinct keys in first-seen order with their last vote counts. */
  lemma DecodeSpecMeaning(selections: seq<seq<(string, int)>>, labels: map<string, seq<string>>)
    ensures DecodeSpec(selections, labels).Ok? <==>
      |selections| == 1 && forall i | 0 <= i < |selections[0]| :: DecodeCode(selections[0][i].0, labels).Ok?
    ensures DecodeSpec(selections, labels).Ok? ==>
      var es := DecodeAll(selections[0], labels).value;
      var t := Tally(es);
      Firsts(t) == Dedup(Firsts(es))
      && (forall i | 0 <= i < |t| :: t[i].0 in Firsts(es) && t[i].1 == LastVote(es, t[i].0))
      && (|Dedup(Firsts(es))| == 1 ==> DecodeSpec(selections, labels) == Ok(Single(Dedup(Firsts(es))[0])))
      && (|Dedup(Firsts(es))| != 1 ==> DecodeSpec(selections, labels) == Ok(Printed(t)))
  {
    if |selections| == 1 {
      DecodeAllOk(selections[0], labels);
      if DecodeAll(selections[0], labels).Ok? {
        TallyMeaning(DecodeAll(selections[0], labels).value);
      }
    }
  }

  // ----- the task key converter (aggregate.py:107) -----

  /** `x[1:]`: the task label loses its first character, so "T3" becomes "3". */
  function TaskKey(t: string): (r: string)
    ensures |t| > 0 ==> t == [t[0]] + r
    ensures |t| == 0 ==> r == ""
  {
    if |t| == 0 then "" else t[1..]
  }

  // ----- the outer join (aggregate.py:138-139) -----

  type CellKey = (int, string)

  /** Every (subject_id, task) key present in some column. */
  function AllKeys<V>(columns: seq<map<CellKey, V>>): set<CellKey>
  {
    if |columns| == 0 then {} else AllKeys(columns[..|columns| - 1]) + columns[|columns| - 1].Keys
  }

  lemma {:induction false} AllKeysMeaning<V>(columns: seq<map<CellKey, V>>, k: CellKey)
    ensures k in AllKeys(columns) <==> exists i | 0 <= i < |columns| :: k in columns[i]
  {
    if |columns| > 0 {
      var p := columns[..|columns| - 1];
      AllKeysMeaning(p, k);
      if k in AllKeys(p) {
        var i :| 0 <= i < |p| && k in p[i];
        assert k in columns[i];
      }
      if exists i | 0 <= i < |columns| :: k in columns[i] {
        var i :| 0 <= i < |columns| && k in columns[i];
        if i < |p| { assert k in p[i]; }
      }
    }
  }

  /** `first.join(columns, how='outer')`: one row per key found in any column, one cell
      per column, null where that column has no value for the key. */
  function OuterJoin<V>(columns: seq<map<CellKey, V>>): (r: map<CellKey, seq<Option<V>>>)
    ensures forall k :: k in r <==> exists i | 0 <= i < |columns| :: k in columns[i]
    ensures forall k | k in r :: |r[k]| == |columns|
    ensures forall k, i | k in r && 0 <= i < |columns| ::
      (k in columns[i] ==> r[k][i] == Some(columns[i][k])) && (k !in columns[i] ==> r[k][i] == None)
  {
    var r := map k | k in AllKeys(columns) ::
      seq(|columns|, i requires 0 <= i < |columns| =>
        if k in columns[i] then Some(columns[i][k]) else None);
    forall k ensures k in r <==> exists i | 0 <= i < |columns| :: k in columns[i] {
      AllKeysMeaning(columns, k);
    }
    r
  }

  // ----- volume and page per subject (aggregate.py:142-164) -----

  /** A cell of the volume or page column: a number, or a string ('6', '?', ''). */
  datatype Slot = Num(n: int) | Text(s: string)

  /** The page offsets by volume: the first scans of a volume are not register pages
      (21 of volume 1, 28 of volume 2, 3 of the others); volume 6 has no page numbers. */
  function PageTable(vol: nat, page: nat): (Slot, Slot)
  {
    if vol == 1 then (Num(1), Num(page - 21))
    else if vol == 2 then (Num(2), Num(page - 28))
    else if vol == 6 then (Text("6"), Text("?"))
    else (Num(vol), Num(page - 3))
  }

  /** The volume and page written for one scan file name. */
  function TranslateFilename(f: string): (Slot, Slot)
  {
    match ParseScanName(f)
    case None => (Text("?"), Text("?"))
    case Some((vol, page)) => PageTable(vol, page)
  }

  /** A name of the pattern's shape gets the table entry of its two numbers. */
  lemma TranslateFilenameShape(f: string, prefix: string, vol: string, page: string, opt: string)
    requires Shape(f, prefix, vol, page, opt)
    ensures TranslateFilename(f) == PageTable(DigitsValue(vol), DigitsValue(page))
  {
    ParseComplete(f, prefix, vol, page, opt);
  }

  /** Every name not of the pattern's shape gets ('?', '?'). */
  lemma TranslateFilenameNoMatch(f: string)
    requires forall prefix, vol, page, opt :: !Shape(f, prefix, vol, page, opt)
    ensures TranslateFilename(f) == (Text("?"), Text("?"))
  {
    if ParseScanName(f).Some? {
      ParseSound(f);
    }
  }

  /** One row of the subjects export: its id and the `Filename` entry of its metadata
      (None when the metadata has no such entry). */
  datatype SubjectRecord = SubjectRecord(subjectId: int, filename: Option<string>)

  /** `subjects.query('subject_id == sid').iloc[0]`: the first row for `sid`. */
  function FirstRecord(subjects: seq<SubjectRecord>, sid: int): (r: Option<SubjectRecord>)
    ensures r.Some? ==> r.value in subjects && r.value.subjectId == sid
    ensures r.None? ==> forall i | 0 <= i < |subjects| :: subjects[i].subjectId != sid
  {
    if |subjects| == 0 then None
    else if subjects[0].subjectId == sid then Some(subjects[0])
    else FirstRecord(subjects[1..], sid)
  }

  function RowsOf(keys: seq<CellKey>, sid: int): nat
  {
    Count(keys, (k: CellKey) => k.0 == sid)
  }

  /** Whether the page columns can be written for `sid`: it is in the metadata, the
      metadata has a file name, and the subject has the 25 rows that `[vol] * 25` fills. */
  predicate Stampable(keys: seq<CellKey>, subjects: seq<SubjectRecord>, sid: int)
  {
    FirstRecord(subjects, sid).Some? && FirstRecord(subjects, sid).value.filename.Some?
    && RowsOf(keys, sid) == 25
  }

  function PagesOf(subjects: seq<SubjectRecord>, sid: int): (Slot, Slot)
    requires FirstRecord(subjects, sid).Some? && FirstRecord(subjects, sid).value.filename.Some?
  {
    TranslateFilename(FirstRecord(subjects, sid).value.filename.value)
  }

  /** The page columns are right for every row whose subject is among `done`. */
  predicate StampedFor(keys: seq<CellKey>, subjects: seq<SubjectRecord>, done: seq<int>, cols: seq<(Slot, Slot)>)
  {
    |cols| == |keys|
    && forall i | 0 <= i < |keys| && keys[i].0 in done ::
         Stampable(keys, subjects, keys[i].0) && cols[i] == PagesOf(subjects, keys[i].0)
  }

  /** The loop over the joined table's distinct subject ids that fills the volume and page
      columns (one (volume, page) pair per row of `keys`). */
  method StampPages(keys: seq<CellKey>, subjects: seq<SubjectRecord>)
    returns (r: Result<seq<(Slot, Slot)>, Error>)
    ensures r.Ok? <==> forall i | 0 <= i < |keys| :: Stampable(keys, subjects, keys[i].0)
    ensures r.Ok? ==> |r.value| == |keys|
    ensures r.Ok? ==> forall i | 0 <= i < |keys| ::
      Stampable(keys, subjects, keys[i].0) && r.value[i] == PagesOf(subjects, keys[i].0)
    ensures r.Ok? ==> forall i, j | 0 <= i < |keys| && 0 <= j < |keys| && keys[i].0 == keys[j].0 ::
      r.value[i] == r.value[j]
  {
    var sids := Dedup(Firsts(keys));
    var cols: seq<(Slot, Slot)> := seq(|keys|, i => (Text(""), Text("")));
    var j := 0;
    while j < |sids|
      invariant 0 <= j <= |sids|
      invariant StampedFor(keys, subjects, sids[..j], cols)
    {
      var sid := sids[j];
      assert sid in Firsts(keys);
      var rec := FirstRecord(subjects, sid);
      if rec.None? {
        NotStampable(keys, subjects, sid);
        return Err(SubjectNotInMetadata(sid));
      }
      if rec.value.filename.None? {
        NotStampable(keys, subjects, sid);
        return Err(NoFilename(sid));
      }
      var n := RowsOf(keys, sid);
      if n != 25 {
        NotStampable(keys, subjects, sid);
        return Err(RowCountMismatch(sid, n));
      }
      var pv := TranslateFilename(rec.value.filename.value);
      var next := seq(|keys|, i requires 0 <= i < |keys| => if keys[i].0 == sid then pv else cols[i]);
      StampStep(keys, subjects, sids[..j], cols, sid, next);
      assert sids[..j + 1] == sids[..j] + [sid];
      cols := next;
      j := j + 1;
    }
    assert sids[..j] == sids;
    StampDone(keys, subjects, sids, cols);
    return Ok(cols);
  }

  lemma StampStep(keys: seq<CellKey>, subjects: seq<SubjectRecord>, done: seq<int>,
                  cols: seq<(Slot, Slot)>, sid: int, next: seq<(Slot, Slot)>)
    requires StampedFor(keys, subjects, done, cols) && Stampable(keys, subjects, sid)
    requires |next| == |keys|
    requires forall i | 0 <= i < |keys| ::
      next[i] == if keys[i].0 == sid then PagesOf(subjects, sid) else cols[i]
    ensures StampedFor(keys, subjects, done + [sid], next)
  {
  }

  lemma StampDone(keys: seq<CellKey>, subjects: seq<SubjectRecord>, sids: seq<int>, cols: seq<(Slot, Slot)>)
    requires sids == Dedup(Firsts(keys)) && StampedFor(keys, subjects, sids, cols)
    ensures forall i | 0 <= i < |keys| ::
      Stampable(keys, subjects, keys[i].0) && cols[i] == PagesOf(subjects, keys[i].0)
  {
    forall i | 0 <= i < |keys| ensures keys[i].0 in sids {
      assert Firsts(keys)[i] == keys[i].0;
    }
  }

  lemma NotStampable(keys: seq<CellKey>, subjects: seq<SubjectRecord>, sid: int)
    requires sid in Firsts(keys) && !Stampable(keys, subjects, sid)
    ensures !forall i | 0 <= i < |keys| :: Stampable(keys, subjects, keys[i].0)
  {
    var i :| 0 <= i < |keys| && Firsts(keys)[i] == sid;
    assert keys[i].0 == sid;
  }
}
