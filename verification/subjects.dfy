/** subjects.py: `create_subjects_df`, which turns the subjects export into the table of
    subjects with their register volume, page and image location, reports the pages
    missing from each volume, merges the supplementary subjects, warns about numbers
    below 1 and finds the register pages claimed by more than one subject. */
module Subjects {
  import opened Wrappers
  import opened Strs
  import opened Seqs
  import opened ScanNames
  import Aggregate

  datatype Error =
    | NoFilename(subject: int)
    | NoMatch(filename: string)
    | Volume6
    | NotOneLocation(subject: int)
    | LocationNotText(subject: int)
    | NonUniqueSubjects
    | SupplementPresent(subject: int)
    | SinglePageVolume(volume: int)
    | UnboundDups

  /** A value of the parsed `locations` object. */
  datatype Json = JText(s: string) | JOther

  /** One row of the subjects export, with its JSON columns parsed: the `Filename` entry
      of the metadata (None when it has none) and the entries of the locations object. */
  datatype RawSubject = RawSubject(subjectId: int, filename: Option<string>, locations: seq<(string, Json)>)

  /** One row of the subjects table. */
  datatype Subject = Subject(subjectId: int, volume: int, page: int, location: string)

  // ----- translate_metadata (subjects.py:18-30) -----

  /** The number of scans before page 1 of the register, by volume: volume 20 starts 24
      pages into its register, so its offset is negative. */
  function FrontMatter(vol: int): int
  {
    if vol == 1 then 21
    else if vol == 2 then 28
    else if vol == 20 then -24
    else if vol > 30 then 2
    else 3
  }

  /** The (volume, page) of a scan name: the page is the scan number less the volume's
      front matter; volume 6 and names of another shape raise. */
  function TranslateName(fnam: string): (r: Result<(int, int), Error>)
    ensures r.Ok? <==> ParseScanName(fnam).Some? && ParseScanName(fnam).value.0 != 6
    ensures r.Ok? ==> r.value.0 == ParseScanName(fnam).value.0
    ensures r.Ok? ==> r.value.1 == ParseScanName(fnam).value.1 - FrontMatter(r.value.0)
    ensures ParseScanName(fnam).None? ==> r == Err(NoMatch(fnam))
    ensures ParseScanName(fnam).Some? && ParseScanName(fnam).value.0 == 6 ==> r == Err(Volume6)
  {
    match ParseScanName(fnam)
    case None => Err(NoMatch(fnam))
    case Some((vol, page)) =>
      if vol == 1 then Ok((vol, page - 21))
      else if vol == 2 then Ok((vol, page - 28))
      else if vol == 6 then Err(Volume6)
      else if vol == 20 then Ok((vol, page + 24))
      else if vol > 30 then Ok((vol, page - 2))
      else Ok((vol, page - 3))
  }

  /** `translate_metadata`: the `Filename` entry of the metadata (a KeyError without one). */
  function TranslateMetadata(r: RawSubject): Result<(int, int), Error>
  {
    match r.filename
    case None => Err(NoFilename(r.subjectId))
    case Some(f) => TranslateName(f)
  }

  /** A name the pattern reads is translated, unless its volume is 6. */
  lemma TranslateParsed(f: string, v: nat, p: nat)
    requires ParseScanName(f) == Some((v, p))
    ensures v == 6 ==> TranslateName(f) == Err(Volume6)
    ensures v != 6 ==> TranslateName(f) == Ok((v, p - FrontMatter(v)))
  {
  }

  /** Every name not of the pattern's shape raises. */
  lemma TranslateNoMatch(f: string)
    requires forall prefix, vol, page, opt :: !Shape(f, prefix, vol, page, opt)
    ensures TranslateName(f) == Err(NoMatch(f))
  {
    if ParseScanName(f).Some? {
      ParseSound(f);
    }
  }

  /** The two translations of a scan name, here and in aggregate.py, agree on volumes up to
      30 other than 6 and 20, and disagree on volumes 20 and above 30 (volume 6 is an
      error here and a '?' page there). */
  lemma VariantsCompared(f: string)
    requires ParseScanName(f).Some?
    ensures var (vol, page) := ParseScanName(f).value;
      (vol != 6 && vol != 20 && vol <= 30 ==>
        TranslateName(f).Ok?
        && Aggregate.TranslateFilename(f)
           == (Aggregate.Num(TranslateName(f).value.0), Aggregate.Num(TranslateName(f).value.1)))
      && (vol == 20 || vol > 30 ==>
        TranslateName(f).Ok? && Aggregate.TranslateFilename(f).1 != Aggregate.Num(TranslateName(f).value.1))
      && (vol == 6 ==> TranslateName(f).Err? && Aggregate.TranslateFilename(f).1 == Aggregate.Text("?"))
  {
    var (vol, page) := ParseScanName(f).value;
    TranslateParsed(f, vol, page);
    assert Aggregate.TranslateFilename(f) == Aggregate.PageTable(vol, page);
  }

  // ----- translate_location (subjects.py:32-37) -----

  /** `translate_location`: the locations object must hold exactly one entry, whose value
      is a string; that string is the location. */
  function TranslateLocation(r: RawSubject): (loc: Result<string, Error>)
    ensures loc.Ok? <==> |r.locations| == 1 && r.locations[0].1.JText?
    ensures loc.Ok? ==> loc.value == r.locations[0].1.s
  {
    if |r.locations| != 1 then Err(NotOneLocation(r.subjectId))
    else match r.locations[0].1
      case JText(s) => Ok(s)
      case JOther => Err(LocationNotText(r.subjectId))
  }

  // ----- reading the export (subjects.py:56-63) -----

  function Ids(rs: seq<RawSubject>): (ids: seq<int>)
    ensures |ids| == |rs| && forall i | 0 <= i < |rs| :: ids[i] == rs[i].subjectId
  {
    seq(|rs|, i requires 0 <= i < |rs| => rs[i].subjectId)
  }

  /** `apply` of a translation over the rows, in order: the first failure raises. */
  function ApplyAll<A, B>(rs: seq<A>, f: A -> Result<B, Error>): (r: Result<seq<B>, Error>)
    ensures r.Ok? <==> forall i | 0 <= i < |rs| :: f(rs[i]).Ok?
    ensures r.Ok? ==> |r.value| == |rs| && forall i | 0 <= i < |rs| :: Ok(r.value[i]) == f(rs[i])
  {
    if |rs| == 0 then Ok([])
    else
      var x :- f(rs[0]);
      var rest :- ApplyAll(rs[1..], f);
      assert forall i | 1 <= i < |rs| :: rs[i] == rs[1..][i - 1];
      Ok([x] + rest)
  }

  /** The subjects of the export: exact duplicate rows are dropped first (keeping the
      first of each), a subject id that still repeats raises, and then every row gets its
      volume, page and location. */
  function ReadSubjects(raw: seq<RawSubject>): (r: Result<seq<Subject>, Error>)
    ensures r.Ok? ==> NoDups(Ids(Dedup(raw))) && |r.value| == |Dedup(raw)|
    ensures r.Ok? ==> forall i | 0 <= i < |r.value| ::
      var s := Dedup(raw)[i];
      r.value[i].subjectId == s.subjectId
      && Ok((r.value[i].volume, r.value[i].page)) == TranslateMetadata(s)
      && Ok(r.value[i].location) == TranslateLocation(s)
    ensures !NoDups(Ids(Dedup(raw))) ==> r == Err(NonUniqueSubjects)
    ensures (NoDups(Ids(Dedup(raw)))
             && forall i | 0 <= i < |Dedup(raw)| ::
                  TranslateMetadata(Dedup(raw)[i]).Ok? && TranslateLocation(Dedup(raw)[i]).Ok?) ==> r.Ok?
  {
    var rows := Dedup(raw);
    if !NoDups(Ids(rows)) then Err(NonUniqueSubjects)
    else
      var vps :- ApplyAll(rows, TranslateMetadata);
      var locs :- ApplyAll(rows, TranslateLocation);
      Ok(seq(|rows|, i requires 0 <= i < |rows| => Subject(rows[i].subjectId, vps[i].0, vps[i].1, locs[i])))
  }

  /** Rows repeated exactly are harmless: the same row twice reads as it does once. */
  lemma RepeatedRowHarmless(raw: seq<RawSubject>, i: nat)
    requires i < |raw|
    ensures ReadSubjects(raw + [raw[i]]) == ReadSubjects(raw)
  {
    assert (raw + [raw[i]])[..|raw|] == raw;
    assert raw[i] in raw;
  }

  /** Two different rows for one subject raise, even when each is well formed. */
  lemma ConflictingRowsRaise(a: RawSubject, b: RawSubject)
    requires a.subjectId == b.subjectId && a != b
    ensures ReadSubjects([a, b]) == Err(NonUniqueSubjects)
  {
    assert [a, b][..1] == [a];
    assert [a][..0] == [];
    assert Dedup([a, b]) == [a, b];
    assert Ids([a, b])[0] == Ids([a, b])[1];
  }

  // ----- dump_missing (subjects.py:39-53) -----

  /** The distinct volumes of the rows, in first-seen order (`index.unique()`). */
  function Volumes(rows: seq<Subject>): (vs: seq<int>)
    ensures NoDups(vs)
    ensures forall v :: v in vs <==> exists i | 0 <= i < |rows| :: rows[i].volume == v
    ensures forall v | v in vs :: v in VolumeColumn(rows)
    ensures forall i, j | 0 <= i < j < |vs| ::
      IndexOf(VolumeColumn(rows), vs[i]) < IndexOf(VolumeColumn(rows), vs[j])
  {
    var all := VolumeColumn(rows);
    DedupOrder(all);
    assert forall v :: v in all <==> exists i | 0 <= i < |rows| :: rows[i].volume == v by {
      forall v ensures v in all ==> exists i | 0 <= i < |rows| :: rows[i].volume == v {
        if v in all {
          var i :| 0 <= i < |all| && all[i] == v;
          assert rows[i].volume == v;
        }
      }
    }
    Dedup(all)
  }

  function VolumeColumn(rows: seq<Subject>): (all: seq<int>)
    ensures |all| == |rows| && forall i | 0 <= i < |rows| :: all[i] == rows[i].volume
  {
    seq(|rows|, i requires 0 <= i < |rows| => rows[i].volume)
  }

  /** A volume of the table has at least one page. */
  lemma VolumeHasPages(rows: seq<Subject>, v: int)
    requires v in Volumes(rows)
    ensures |PagesOf(rows, v)| > 0
  {
    var i :| 0 <= i < |rows| && rows[i].volume == v;
    assert rows[i].page in PagesOf(rows, v);
  }

  /** The pages of volume `v`, in row order. */
  function PagesOf(rows: seq<Subject>, v: int): (ps: seq<int>)
    ensures forall p :: p in ps <==> exists i | 0 <= i < |rows| :: rows[i].volume == v && rows[i].page == p
  {
    if |rows| == 0 then []
    else
      var prev := PagesOf(rows[..|rows| - 1], v);
      var last := rows[|rows| - 1];
      assert forall i | 0 <= i < |rows| - 1 :: rows[..|rows| - 1][i] == rows[i];
      if last.volume == v then prev + [last.page] else prev
  }

  function Min(s: seq<int>): (m: int)
    requires |s| > 0
    ensures m in s && forall x | x in s :: m <= x
  {
    if |s| == 1 then s[0]
    else
      var m := Min(s[1..]);
      assert forall x | x in s :: x == s[0] || x in s[1..];
      if s[0] <= m then s[0] else m
  }

  function Max(s: seq<int>): (m: int)
    requires |s| > 0
    ensures m in s && forall x | x in s :: x <= m
  {
    if |s| == 1 then s[0]
    else
      var m := Max(s[1..]);
      assert forall x | x in s :: x == s[0] || x in s[1..];
      if s[0] >= m then s[0] else m
  }

  /** The numbers from `lo` to `hi` that are not among `pages`, ascending
      (`sorted(set(range(lo, hi + 1)) - set(pages))`). */
  function MissingBetween(lo: int, hi: int, pages: seq<int>): (gaps: seq<int>)
    ensures forall x :: x in gaps <==> lo <= x <= hi && x !in pages
    ensures forall i, j | 0 <= i < j < |gaps| :: gaps[i] < gaps[j]
    decreases hi - lo
  {
    if lo > hi then []
    else
      var rest := MissingBetween(lo + 1, hi, pages);
      assert forall i | 0 <= i < |rest| :: lo < rest[i] by {
        forall i | 0 <= i < |rest| ensures lo < rest[i] { assert rest[i] in rest; }
      }
      if lo in pages then rest else [lo] + rest
  }

  /** One line of the report: a volume and its missing pages. */
  datatype Missing = Missing(volume: int, pages: seq<int>)

  function GapsOf(rows: seq<Subject>, v: int): seq<int>
  {
    var ps := PagesOf(rows, v);
    if |ps| == 0 then [] else MissingBetween(Min(ps), Max(ps), ps)
  }

  /** The report lines for the volumes `vs`, in order: the volumes that have gaps. */
  function ReportFor(rows: seq<Subject>, vs: seq<int>): seq<Missing>
  {
    if |vs| == 0 then []
    else
      var prev := ReportFor(rows, vs[..|vs| - 1]);
      var v := vs[|vs| - 1];
      var gaps := GapsOf(rows, v);
      if |gaps| > 0 then prev + [Missing(v, gaps)] else prev
  }

  /** The report as intended: for each volume, in first-seen order, the pages missing
      between its lowest and highest page. */
  function MissingSpec(rows: seq<Subject>): seq<Missing>
  {
    ReportFor(rows, Volumes(rows))
  }

  /** `dump_missing`, corrected so that a volume of one page (which has no gap) does not
      raise: the loop over the volumes appending to `messages`. */
  method DumpMissing(rows: seq<Subject>) returns (messages: seq<Missing>)
    ensures messages == MissingSpec(rows)
  {
    var vs := Volumes(rows);
    messages := [];
    var i := 0;
    while i < |vs|
      invariant 0 <= i <= |vs|
      invariant messages == ReportFor(rows, vs[..i])
    {
      assert vs[..i + 1][..i] == vs[..i];
      var v := vs[i];
      var ps := PagesOf(rows, v);
      VolumeHasPages(rows, v);
      var gaps := MissingBetween(Min(ps), Max(ps), ps);
      if |gaps| > 0 {
        messages := messages + [Missing(v, gaps)];
      }
      i := i + 1;
    }
    assert vs[..i] == vs;
  }

  /** A volume is reported exactly when some page between its lowest and highest is
      absent, and then with exactly those pages, ascending; each volume at most once, in
      first-seen order. */
  lemma {:induction false} ReportMeaning(rows: seq<Subject>, vs: seq<int>)
    ensures forall m | m in ReportFor(rows, vs) :: m.volume in vs && m.pages == GapsOf(rows, m.volume) && |m.pages| > 0
    ensures forall v | v in vs && |GapsOf(rows, v)| > 0 :: Missing(v, GapsOf(rows, v)) in ReportFor(rows, vs)
  {
    if |vs| > 0 {
      ReportMeaning(rows, vs[..|vs| - 1]);
      assert forall v | v in vs :: v in vs[..|vs| - 1] || v == vs[|vs| - 1];
    }
  }

  /** What a reported gap means: a page of the volume's range that no row has. */
  lemma GapMeaning(rows: seq<Subject>, v: int, x: int)
    requires exists i | 0 <= i < |rows| :: rows[i].volume == v
    ensures x in GapsOf(rows, v) <==>
      (exists i | 0 <= i < |rows| :: rows[i].volume == v && rows[i].page <= x)
      && (exists i | 0 <= i < |rows| :: rows[i].volume == v && x <= rows[i].page)
      && forall i | 0 <= i < |rows| && rows[i].volume == v :: rows[i].page != x
  {
    var ps := PagesOf(rows, v);
    var k :| 0 <= k < |rows| && rows[k].volume == v;
    assert rows[k].page in ps;
    var lo, hi := Min(ps), Max(ps);
    if x in GapsOf(rows, v) {
      assert lo in ps && hi in ps;
      var a :| 0 <= a < |rows| && rows[a].volume == v && rows[a].page == lo;
      var b :| 0 <= b < |rows| && rows[b].volume == v && rows[b].page == hi;
      forall i | 0 <= i < |rows| && rows[i].volume == v ensures rows[i].page != x {
        assert rows[i].page in ps;
      }
    }
    if (exists i | 0 <= i < |rows| :: rows[i].volume == v && rows[i].page <= x)
      && (exists i | 0 <= i < |rows| :: rows[i].volume == v && x <= rows[i].page)
      && forall i | 0 <= i < |rows| && rows[i].volume == v :: rows[i].page != x
    {
      var a :| 0 <= a < |rows| && rows[a].volume == v && rows[a].page <= x;
      var b :| 0 <= b < |rows| && rows[b].volume == v && x <= rows[b].page;
      assert rows[a].page in ps && rows[b].page in ps;
      assert x !in ps;
    }
  }

  /** `dump_missing` as written: `loc[v]` of a volume with a single row is a number, not a
      column, and `set()` of it raises a TypeError. */
  function DumpMissingAsWritten(rows: seq<Subject>): Result<seq<Missing>, Error>
  {
    SingleCheck(rows, Volumes(rows))
  }

  function SingleCheck(rows: seq<Subject>, vs: seq<int>): Result<seq<Missing>, Error>
  {
    if |vs| == 0 then Ok(MissingSpec(rows))
    else if |PagesOf(rows, vs[0])| == 1 then Err(SinglePageVolume(vs[0]))
    else SingleCheck(rows, vs[1..])
  }

  /** A volume with one subject has no missing page, yet as written the report raises. */
  lemma SinglePageRaises(s: Subject)
    ensures MissingSpec([s]) == []
    ensures DumpMissingAsWritten([s]) == Err(SinglePageVolume(s.volume))
  {
    var rows := [s];
    assert Volumes(rows) == [s.volume] by {
      var all := [s.volume];
      assert all[..0] == [];
    }
    assert rows[..0] == [];
    assert PagesOf(rows, s.volume) == [s.page];
    assert Min([s.page]) == s.page && Max([s.page]) == s.page;
    assert MissingBetween(s.page + 1, s.page, [s.page]) == [];
    assert MissingBetween(s.page, s.page, [s.page]) == [];
    assert GapsOf(rows, s.volume) == [];
    assert [s.volume][..0] == [];
    assert ReportFor(rows, [s.volume]) == [];
  }

  /** Where every volume has two or more rows, the code as written reports as intended. */
  lemma {:induction false} AsWrittenAgrees(rows: seq<Subject>, vs: seq<int>)
    requires forall v | v in vs :: |PagesOf(rows, v)| != 1
    ensures SingleCheck(rows, vs) == Ok(MissingSpec(rows))
  {
    if |vs| > 0 {
      AsWrittenAgrees(rows, vs[1..]);
    }
  }

  // ----- supplements (subjects.py:68-74) -----

  function SubjectIds(ss: seq<Subject>): (ids: seq<int>)
    ensures |ids| == |ss| && forall i | 0 <= i < |ss| :: ids[i] == ss[i].subjectId
  {
    seq(|ss|, i requires 0 <= i < |ss| => ss[i].subjectId)
  }

  /** The supplement at index `k` is the first whose id is among `ids`. */
  predicate FirstPresentAt(supplements: seq<Subject>, ids: seq<int>, k: nat)
    requires k < |supplements|
  {
    supplements[k].subjectId in ids && forall j | 0 <= j < k :: supplements[j].subjectId !in ids
  }

  /** The supplement merge: the loop raises at the first supplementary subject whose id is
      already a subject; otherwise the supplements are appended in their given order.
      (The supplements come from a dictionary, so their ids are distinct.) */
  method MergeSupplements(subjects: seq<Subject>, supplements: seq<Subject>) returns (r: Result<seq<Subject>, Error>)
    requires NoDups(SubjectIds(supplements))
    ensures r.Ok? <==> forall s | s in supplements :: s.subjectId !in SubjectIds(subjects)
    ensures r.Ok? ==> r.value == subjects + supplements
    ensures r.Ok? && NoDups(SubjectIds(subjects)) ==> NoDups(SubjectIds(r.value))
    ensures r.Err? ==> exists k | 0 <= k < |supplements| ::
      FirstPresentAt(supplements, SubjectIds(subjects), k)
      && r == Err(SupplementPresent(supplements[k].subjectId))
  {
    var i := 0;
    while i < |supplements|
      invariant 0 <= i <= |supplements|
      invariant forall j | 0 <= j < i :: supplements[j].subjectId !in SubjectIds(subjects)
    {
      if supplements[i].subjectId in SubjectIds(subjects) {
        assert FirstPresentAt(supplements, SubjectIds(subjects), i);
        return Err(SupplementPresent(supplements[i].subjectId));
      }
      i := i + 1;
    }
    var all := subjects + supplements;
    assert forall j | |subjects| <= j < |all| :: all[j] == supplements[j - |subjects|];
    return Ok(all);
  }

  // ----- numbers below 1 (subjects.py:79-82) -----

  datatype Column = VolumeCol | PageCol

  function ValueIn(s: Subject, c: Column): int
  {
    match c
    case VolumeCol => s.volume
    case PageCol => s.page
  }

  /** The rows printed with the warning for column `c` (no warning when there are none);
      the rows stay in the table. */
  function BelowOne(subjects: seq<Subject>, c: Column): (warned: seq<Subject>)
    ensures forall s :: s in warned <==> s in subjects && ValueIn(s, c) < 1
    ensures |warned| <= |subjects|
    ensures warned == Filter(subjects, Low(c))
  {
    Filter(subjects, Low(c))
  }

  function Low(c: Column): Subject -> bool
  {
    (s: Subject) => ValueIn(s, c) < 1
  }

  // ----- duplicate pages (subjects.py:84-88) -----

  /** The index of the table set by `set_index(['volume', 'page'])`. */
  function PageKey(s: Subject): Key
  {
    (s.volume, s.page)
  }

  /** The rows claiming the page `k`. */
  function OnPage(k: Key): Subject -> bool
  {
    (s: Subject) => PageKey(s) == k
  }

  function Claims(ss: seq<Subject>, k: Key): nat
  {
    Count(ss, OnPage(k))
  }

  /** `index.duplicated(keep = False)`: the rows whose page another row claims too. */
  function Shared(ss: seq<Subject>): Subject -> bool
  {
    (s: Subject) => Claims(ss, PageKey(s)) > 1
  }

  /** The table sorted by (volume, page), keeping the rows whose (volume, page) is also
      another row's. */
  function Duplicates(subjects: seq<Subject>): seq<Subject>
  {
    var sorted := SortBy(subjects, PageKey);
    Filter(sorted, Shared(sorted))
  }

  /** A subject is listed as a duplicate exactly when another row of the table claims the
      same volume and page; the list is in page order. */
  lemma DuplicatesMeaning(subjects: seq<Subject>)
    ensures SortedBy(Duplicates(subjects), PageKey)
    ensures forall s :: s in Duplicates(subjects) <==> s in subjects && Claims(subjects, PageKey(s)) > 1
  {
    var sorted := SortBy(subjects, PageKey);
    forall k ensures Claims(sorted, k) == Claims(subjects, k) {
      CountPerm(sorted, subjects, OnPage(k));
    }
    forall s ensures s in sorted <==> s in subjects {
      assert s in sorted <==> s in multiset(sorted);
    }
    FilterSorted(sorted, Shared(sorted), PageKey);
  }

  // ----- the whole function (subjects.py:56-100) -----

  /** What `create_subjects_df` gives back, with the reports it prints. */
  datatype Created = Created(
    subjects: seq<Subject>, supplements: seq<Subject>, duplicates: seq<Subject>,
    missingBefore: seq<Missing>, missingAfter: seq<Missing>,
    lowVolumes: seq<Subject>, lowPages: seq<Subject>)

  /** The index of the final table, `subject_id`. */
  function IdKey(s: Subject): Key
  {
    (s.subjectId, 0)
  }

  /** `create_subjects_df` with its return corrected: an empty duplicates table when no page
      is claimed twice. */
  function CreateSubjects(raw: seq<RawSubject>, supplements: seq<Subject>): Result<Created, Error>
    requires NoDups(SubjectIds(supplements))
  {
    var subjects :- ReadSubjects(raw);
    var before := MissingSpec(subjects);
    if exists s | s in supplements :: s.subjectId in SubjectIds(subjects) then
      Err(SupplementPresent(FirstPresent(supplements, SubjectIds(subjects))))
    else
      var all := subjects + supplements;
      Ok(Created(SortBy(all, IdKey), supplements, Duplicates(all), before, MissingSpec(all),
                 BelowOne(all, VolumeCol), BelowOne(all, PageCol)))
  }

  function FirstPresent(supplements: seq<Subject>, ids: seq<int>): (id: int)
    requires exists s | s in supplements :: s.subjectId in ids
    ensures exists k | 0 <= k < |supplements| ::
      FirstPresentAt(supplements, ids, k) && id == supplements[k].subjectId
  {
    if supplements[0].subjectId in ids then
      assert FirstPresentAt(supplements, ids, 0);
      supplements[0].subjectId
    else
      assert forall s | s in supplements[1..] :: s in supplements;
      assert exists s | s in supplements[1..] :: s.subjectId in ids;
      var id := FirstPresent(supplements[1..], ids);
      var k :| 0 <= k < |supplements| - 1 && FirstPresentAt(supplements[1..], ids, k)
               && id == supplements[1..][k].subjectId;
      assert FirstPresentAt(supplements, ids, k + 1);
      id
  }

  /** `create_subjects_df` as written: both reports of missing pages (before and after the
      supplements) raise on a volume of one row, and `dups` is bound only when some page
      is claimed twice, so otherwise the return raises an UnboundLocalError. */
  function CreateSubjectsAsWritten(raw: seq<RawSubject>, supplements: seq<Subject>): Result<Created, Error>
    requires NoDups(SubjectIds(supplements))
  {
    var subjects :- ReadSubjects(raw);
    var _ :- DumpMissingAsWritten(subjects);
    var c :- CreateSubjects(raw, supplements);
    var _ :- DumpMissingAsWritten(subjects + supplements);
    if |c.duplicates| == 0 then Err(UnboundDups) else Ok(c)
  }

  /** Where every volume has two or more rows, before and after the supplements, the code
      as written returns what the corrected code does when some page is claimed twice,
      and raises at the return when none is. */
  lemma AsWrittenUnbound(raw: seq<RawSubject>, supplements: seq<Subject>)
    requires NoDups(SubjectIds(supplements)) && CreateSubjects(raw, supplements).Ok?
    requires var subjects := ReadSubjects(raw).value;
      forall v | v in Volumes(subjects) :: |PagesOf(subjects, v)| != 1
    requires var all := ReadSubjects(raw).value + supplements;
      forall v | v in Volumes(all) :: |PagesOf(all, v)| != 1
    ensures var c := CreateSubjects(raw, supplements);
      CreateSubjectsAsWritten(raw, supplements) == if |c.value.duplicates| == 0 then Err(UnboundDups) else c
  {
    var subjects := ReadSubjects(raw).value;
    AsWrittenAgrees(subjects, Volumes(subjects));
    AsWrittenAgrees(subjects + supplements, Volumes(subjects + supplements));
  }

  /** The corrected function succeeds exactly where the export reads and no supplement
      clashes; it returns every subject and supplement, each id once, sorted by id. */
  lemma CreateMeaning(raw: seq<RawSubject>, supplements: seq<Subject>)
    requires NoDups(SubjectIds(supplements))
    ensures CreateSubjects(raw, supplements).Ok? <==>
      ReadSubjects(raw).Ok? && forall s | s in supplements :: s.subjectId !in SubjectIds(ReadSubjects(raw).value)
    ensures CreateSubjects(raw, supplements).Ok? ==>
      var c := CreateSubjects(raw, supplements).value;
      var all := ReadSubjects(raw).value + supplements;
      multiset(c.subjects) == multiset(all) && SortedBy(c.subjects, IdKey) && NoDups(SubjectIds(all))
  {
    if CreateSubjects(raw, supplements).Ok? {
      var subjects := ReadSubjects(raw).value;
      AppendDistinct(subjects, supplements, Ids(Dedup(raw)));
    }
  }

  lemma AppendDistinct(subjects: seq<Subject>, supplements: seq<Subject>, ids: seq<int>)
    requires ids == SubjectIds(subjects) && NoDups(ids) && NoDups(SubjectIds(supplements))
    requires forall s | s in supplements :: s.subjectId !in ids
    ensures NoDups(SubjectIds(subjects + supplements))
  {
    var all := subjects + supplements;
    var n := |subjects|;
    forall i, j | 0 <= i < j < |all| ensures all[i].subjectId != all[j].subjectId {
      if j >= n && i < n {
        assert all[j] == supplements[j - n];
        assert all[i].subjectId == ids[i];
      } else if i >= n {
        assert SubjectIds(supplements)[i - n] == all[i].subjectId;
        assert SubjectIds(supplements)[j - n] == all[j].subjectId;
      } else {
        assert ids[i] == all[i].subjectId && ids[j] == all[j].subjectId;
      }
    }
  }

  /** Two subjects on consecutive pages of volume 1: no page is missing and none is
      claimed twice, so as written the call raises at the return, and corrected it returns
      an empty duplicates table. */
  lemma UnboundDupsRaises(r1: RawSubject, r2: RawSubject, s1: Subject, s2: Subject)
    requires r1 == RawSubject(1, Some("HMS_1-30.jpg"), [("0", JText("https://x"))])
    requires r2 == RawSubject(2, Some("HMS_1-31.jpg"), [("0", JText("https://y"))])
    requires s1 == Subject(1, 1, 9, "https://x") && s2 == Subject(2, 1, 10, "https://y")
    ensures CreateSubjects([r1, r2], []) == Ok(Created([s1, s2], [], [], [], [], [], []))
    ensures CreateSubjectsAsWritten([r1, r2], []) == Err(UnboundDups)
  {
    ExampleName();
    ExampleNameNext();
    assert TranslateMetadata(r1) == Ok((1, 9)) && TranslateMetadata(r2) == Ok((1, 10));
    TwoOnConsecutivePages(r1, r2, s1, s2);
  }

  /** Two rows that read as two subjects, in id order, on consecutive pages of one volume
      numbered from 1: corrected, the call returns the two subjects with no report and an
      empty duplicates table; as written it raises at the return. */
  lemma TwoOnConsecutivePages(r1: RawSubject, r2: RawSubject, s1: Subject, s2: Subject)
    requires TranslateMetadata(r1) == Ok((s1.volume, s1.page)) && TranslateLocation(r1) == Ok(s1.location)
    requires TranslateMetadata(r2) == Ok((s2.volume, s2.page)) && TranslateLocation(r2) == Ok(s2.location)
    requires r1.subjectId == s1.subjectId < s2.subjectId == r2.subjectId
    requires s1.volume == s2.volume && s2.page == s1.page + 1 && s1.volume >= 1 && s1.page >= 1
    ensures CreateSubjects([r1, r2], []) == Ok(Created([s1, s2], [], [], [], [], [], []))
    ensures CreateSubjectsAsWritten([r1, r2], []) == Err(UnboundDups)
  {
    TwoCorrected(r1, r2, s1, s2);
    ReadTwo(r1, r2, s1, s2);
    TwoPages(s1, s2);
    assert [s1, s2] + [] == [s1, s2];
    AsWrittenUnbound([r1, r2], []);
  }

  lemma TwoCorrected(r1: RawSubject, r2: RawSubject, s1: Subject, s2: Subject)
    requires TranslateMetadata(r1) == Ok((s1.volume, s1.page)) && TranslateLocation(r1) == Ok(s1.location)
    requires TranslateMetadata(r2) == Ok((s2.volume, s2.page)) && TranslateLocation(r2) == Ok(s2.location)
    requires r1.subjectId == s1.subjectId < s2.subjectId == r2.subjectId
    requires s1.volume == s2.volume && s2.page == s1.page + 1 && s1.volume >= 1 && s1.page >= 1
    ensures CreateSubjects([r1, r2], []) == Ok(Created([s1, s2], [], [], [], [], [], []))
  {
    ReadTwo(r1, r2, s1, s2);
    ConsecutivePages(s1, s2);
    PositiveInOrder(s1, s2);
    WithoutSupplements([r1, r2], [s1, s2]);
  }

  /** Without supplements, the corrected function works on the subjects read alone. */
  lemma WithoutSupplements(raw: seq<RawSubject>, rows: seq<Subject>)
    requires ReadSubjects(raw) == Ok(rows)
    ensures CreateSubjects(raw, []) == Ok(Created(SortBy(rows, IdKey), [], Duplicates(rows), MissingSpec(rows),
      MissingSpec(rows), BelowOne(rows, VolumeCol), BelowOne(rows, PageCol)))
  {
    var none: seq<Subject> := [];
    assert rows + none == rows;
    assert !exists s | s in none :: s.subjectId in SubjectIds(rows);
  }

  /** Two rows of different subjects that both translate read as their two subjects. */
  lemma ReadTwo(r1: RawSubject, r2: RawSubject, s1: Subject, s2: Subject)
    requires TranslateMetadata(r1) == Ok((s1.volume, s1.page)) && TranslateLocation(r1) == Ok(s1.location)
    requires TranslateMetadata(r2) == Ok((s2.volume, s2.page)) && TranslateLocation(r2) == Ok(s2.location)
    requires r1.subjectId == s1.subjectId && r2.subjectId == s2.subjectId && s1.subjectId != s2.subjectId
    ensures ReadSubjects([r1, r2]) == Ok([s1, s2])
  {
    DedupTwo(r1, r2);
    ReadTwoOk(r1, r2);
    var v := ReadSubjects([r1, r2]).value;
    assert v == [s1, s2];
  }

  lemma ReadTwoOk(r1: RawSubject, r2: RawSubject)
    requires TranslateMetadata(r1).Ok? && TranslateLocation(r1).Ok?
    requires TranslateMetadata(r2).Ok? && TranslateLocation(r2).Ok?
    requires r1.subjectId != r2.subjectId
    ensures ReadSubjects([r1, r2]).Ok?
  {
    DedupTwo(r1, r2);
    IdsTwo(r1, r2);
  }

  lemma DedupTwo(r1: RawSubject, r2: RawSubject)
    requires r1.subjectId != r2.subjectId
    ensures Dedup([r1, r2]) == [r1, r2]
  {
    DedupNoDups([r1, r2]);
  }

  lemma IdsTwo(r1: RawSubject, r2: RawSubject)
    requires r1.subjectId != r2.subjectId
    ensures NoDups(Ids([r1, r2]))
  {
    assert Ids([r1, r2])[0] != Ids([r1, r2])[1];
  }

  /** Two subjects on consecutive pages of one volume: no page is missing and none is
      claimed twice, whether or not the code runs as written. */
  lemma ConsecutivePages(s1: Subject, s2: Subject)
    requires s1.volume == s2.volume && s2.page == s1.page + 1
    ensures var rows := [s1, s2];
      && DumpMissingAsWritten(rows) == Ok([])
      && MissingSpec(rows) == [] && Duplicates(rows) == []
  {
    var rows := [s1, s2];
    TwoPages(s1, s2);
    TwoNoGap(s1.volume, s1.page, rows);
    TwoNoShared(s1, s2);
    AsWrittenAgrees(rows, Volumes(rows));
  }

  /** Two subjects in id order with volumes and pages from 1 on: no warning, and the
      table is already sorted. */
  lemma PositiveInOrder(s1: Subject, s2: Subject)
    requires s1.subjectId < s2.subjectId
    requires s1.volume >= 1 && s1.page >= 1 && s2.volume >= 1 && s2.page >= 1
    ensures var rows := [s1, s2];
      && BelowOne(rows, VolumeCol) == [] && BelowOne(rows, PageCol) == []
      && SortBy(rows, IdKey) == rows
  {
    SortSortedIdentity([s1, s2], IdKey);
    NoneLow([s1, s2], VolumeCol);
    NoneLow([s1, s2], PageCol);
  }

  lemma NoneLow(rows: seq<Subject>, c: Column)
    requires forall s | s in rows :: ValueIn(s, c) >= 1
    ensures BelowOne(rows, c) == []
  {
    FilterNone(rows, Low(c));
  }

  lemma TwoPages(s1: Subject, s2: Subject)
    requires s1.volume == s2.volume
    ensures Volumes([s1, s2]) == [s1.volume] && PagesOf([s1, s2], s1.volume) == [s1.page, s2.page]
  {
    var rows := [s1, s2];
    var v := s1.volume;
    assert VolumeColumn(rows) == [v, v];
    assert [v, v][..1] == [v] && [v][..0] == [];
    assert rows[..1] == [s1] && [s1][..0] == [];
    assert PagesOf([s1], v) == [s1.page];
  }

  lemma TwoNoGap(v: int, p: int, rows: seq<Subject>)
    requires Volumes(rows) == [v] && PagesOf(rows, v) == [p, p + 1]
    ensures MissingSpec(rows) == []
  {
    var ps := [p, p + 1];
    assert ps[1..] == [p + 1];
    assert Min(ps) == p && Max(ps) == p + 1;
    assert MissingBetween(p + 2, p + 1, ps) == [];
    assert MissingBetween(p + 1, p + 1, ps) == [];
    assert MissingBetween(p, p + 1, ps) == [];
    assert GapsOf(rows, v) == [];
    assert [v][..0] == [];
    assert ReportFor(rows, [v]) == [];
  }

  lemma TwoNoShared(s1: Subject, s2: Subject)
    requires s1.volume == s2.volume && s2.page == s1.page + 1
    ensures Duplicates([s1, s2]) == []
  {
    var rows := [s1, s2];
    SortSortedIdentity(rows, PageKey);
    assert rows[1..] == [s2] && [s2][1..] == [];
    assert Count([s2][1..], OnPage(PageKey(s1))) == 0 && Count([s2][1..], OnPage(PageKey(s2))) == 0;
    assert Count([s2], OnPage(PageKey(s1))) == 0 && Count([s2], OnPage(PageKey(s2))) == 1;
    assert Claims(rows, PageKey(s1)) == 1 && Claims(rows, PageKey(s2)) == 1;
    assert forall x | x in rows :: x == s1 || x == s2;
    FilterNone(rows, Shared(rows));
  }

  lemma ExampleName()
    ensures TranslateName("HMS_1-30.jpg") == Ok((1, 9))
  {
    var f := "HMS_1-30.jpg";
    assert f == "HMS" + "_" + "1" + "-" + "30" + "" + ".jpg";
    assert DigitsValue("30") == 30 by {
      assert "30"[..1] == "3";
    }
    assert DigitsValue("1") == 1;
    ParseComplete(f, "HMS", "1", "30", "");
    TranslateParsed(f, 1, 30);
  }

  lemma ExampleNameNext()
    ensures TranslateName("HMS_1-31.jpg") == Ok((1, 10))
  {
    var f := "HMS_1-31.jpg";
    assert f == "HMS" + "_" + "1" + "-" + "31" + "" + ".jpg";
    assert DigitsValue("31") == 31 by {
      assert "31"[..1] == "3";
    }
    assert DigitsValue("1") == 1;
    ParseComplete(f, "HMS", "1", "31", "");
    TranslateParsed(f, 1, 31);
  }

  /** A single well-formed row reads as its own subject. */
  lemma ReadOne(r: RawSubject)
    requires TranslateMetadata(r).Ok? && TranslateLocation(r).Ok?
    ensures ReadSubjects([r]) == Ok([Subject(r.subjectId, TranslateMetadata(r).value.0,
      TranslateMetadata(r).value.1, TranslateLocation(r).value)])
  {
    assert [r][..0] == [];
    assert Dedup([r]) == [r];
    assert [r][0] == r && [r][1..] == [];
    assert ApplyAll([], TranslateMetadata) == Ok([]) && ApplyAll([], TranslateLocation) == Ok([]);
    assert [TranslateMetadata(r).value] + [] == [TranslateMetadata(r).value];
    assert [TranslateLocation(r).value] + [] == [TranslateLocation(r).value];
    assert ApplyAll([r], TranslateMetadata) == Ok([TranslateMetadata(r).value]);
    assert ApplyAll([r], TranslateLocation) == Ok([TranslateLocation(r).value]);
    assert NoDups(Ids([r]));
    var t := Subject(r.subjectId, TranslateMetadata(r).value.0, TranslateMetadata(r).value.1,
      TranslateLocation(r).value);
    assert ReadSubjects([r]).Ok?;
    assert ReadSubjects([r]).value == [t];
  }
}
