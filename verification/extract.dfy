/** extract.py: the decisions the extraction driver takes between its external steps
    (the aggregation tool, git, the file system and the worker processes are not part of
    this model): reading workflow version numbers, choosing the versions to process,
    reporting the phases to run, the fix-up of one task-label file, the check that the
    configuration files of all versions of a workflow agree, and the check that no
    register page was classified under two subjects. */
module Extract {
  import opened Wrappers
  import opened Strs
  import opened Seqs

  /** A workflow version as (major, minor). */
  type Version = (nat, nat)

  datatype Error =
    | BadVersion(v: string)
    | VersionNotText
    | MissingFile(kind: ConfigKind, version: Version)
    | LabelNotMapping(key: string)
    | EmptyLabel(key: string)
    | NoWorkflowVersion
    | NotDropdown
    | NoVersions
    | ConfigsDiffer(bad: seq<BadComparison>)

  // ----- get_version (extract.py:63-68) -----

  /** `v` is two runs of decimal digits around a full stop. */
  predicate VersionShape(v: string, major: string, minor: string)
  {
    IsDigits(major) && IsDigits(minor) && v == major + "." + minor
  }

  /** `get_version`: the two numbers of a `major.minor` text, read as integers (so the
      minor part of "19.60" is 60); anything else raises. */
  function GetVersion(v: string): (r: Result<Version, Error>)
    ensures r.Err? ==> r == Err(BadVersion(v))
  {
    var k := FindChar(v, '.');
    if k < |v| && IsDigits(v[..k]) && IsDigits(v[k + 1..]) then
      Ok((DigitsValue(v[..k]), DigitsValue(v[k + 1..])))
    else Err(BadVersion(v))
  }

  /** Every accepted text has the `major.minor` shape, and the result is its two numbers. */
  lemma GetVersionSound(v: string)
    requires GetVersion(v).Ok?
    ensures exists major, minor ::
      VersionShape(v, major, minor) && GetVersion(v).value == (DigitsValue(major), DigitsValue(minor))
  {
    var k := FindChar(v, '.');
    assert v == v[..k] + "." + v[k + 1..];
    assert VersionShape(v, v[..k], v[k + 1..]);
  }

  /** Every text of the `major.minor` shape is accepted: with GetVersionSound, the
      version is read exactly when `re.fullmatch(r'(\d+)\.(\d+)', v)` matches. */
  lemma GetVersionComplete(v: string, major: string, minor: string)
    requires VersionShape(v, major, minor)
    ensures GetVersion(v) == Ok((DigitsValue(major), DigitsValue(minor)))
  {
    forall j | 0 <= j < |major| ensures major[j] != '.' {
      assert IsDigit(major[j]);
    }
    FindCharSplit(major, '.', minor);
    Pieces(major, '.', minor);
  }

  /** Writing a version out and reading it back gives the same version. */
  lemma VersionRoundTrip(major: nat, minor: nat)
    ensures GetVersion(NatToString(major) + "." + NatToString(minor)) == Ok((major, minor))
  {
    NatToStringValue(major);
    NatToStringValue(minor);
    GetVersionComplete(NatToString(major) + "." + NatToString(minor), NatToString(major), NatToString(minor));
  }

  /** A version written out in digits reads back as itself. */
  lemma VersionOfText(major: nat, minor: nat, a: string, b: string, s: string)
    requires a == NatToString(major) && b == NatToString(minor) && s == a + "." + b
    ensures GetVersion(s) == Ok((major, minor))
  {
    VersionRoundTrip(major, minor);
  }

  /** "19.60" and "19.6" are different versions: the minor part is not a fraction. */
  lemma MinorIsNotAFraction()
    ensures GetVersion("19.60") == Ok((19, 60))
    ensures GetVersion("19.6") == Ok((19, 6))
  {
    assert NatToString(19) == "19" by { assert NatToString(1) == "1"; }
    assert NatToString(60) == "60" by { assert NatToString(6) == "6"; }
    assert NatToString(6) == "6";
    JoinVersionText();
    VersionOfText(19, 60, "19", "60", "19.60");
    VersionOfText(19, 6, "19", "6", "19.6");
  }

  /** The two version texts, put together from their parts. */
  lemma JoinVersionText()
    ensures "19" + "." + "60" == "19.60" && "19" + "." + "6" == "19.6"
  {
  }

  // ----- version selection (extract.py:255-266) -----

  /** A version entry as the YAML loader returns it: text, or another scalar (an unquoted
      `3.1` is read as a number, which `re.fullmatch` refuses with a TypeError). */
  datatype YamlScalar = YamlText(s: string) | YamlOther

  /** The `version` entry of a workflow definition: absent, one value, or a list. */
  datatype VersionField = Absent | One(v: YamlScalar) | Listed(vs: seq<YamlScalar>)

  function ParseVersion(y: YamlScalar): Result<Version, Error>
  {
    match y
    case YamlText(s) => GetVersion(s)
    case YamlOther => Err(VersionNotText)
  }

  /** `list(map(get_version, vs))`: element-wise, and the first failure raises. */
  function ParseAll(ys: seq<YamlScalar>): (r: Result<seq<Version>, Error>)
    ensures r.Ok? <==> forall i | 0 <= i < |ys| :: ParseVersion(ys[i]).Ok?
    ensures r.Ok? ==> |r.value| == |ys| && forall i | 0 <= i < |ys| :: Ok(r.value[i]) == ParseVersion(ys[i])
  {
    if |ys| == 0 then Ok([])
    else
      var front := ys[..|ys| - 1];
      var prev :- ParseAll(front);
      var v :- ParseVersion(ys[|ys| - 1]);
      assert forall i | 0 <= i < |front| :: front[i] == ys[i];
      Ok(prev + [v])
  }

  function Texts(ss: seq<string>): (ys: seq<YamlScalar>)
    ensures |ys| == |ss| && forall i | 0 <= i < |ss| :: ys[i] == YamlText(ss[i])
  {
    seq(|ss|, i requires 0 <= i < |ss| => YamlText(ss[i]))
  }

  /** The versions `panoptes` works on: a list maps element-wise, a single value becomes
      a one-element list, and without a `version` entry the distinct `workflow_version`
      values of the export's rows are used in the order in which they first appear. */
  function SelectVersions(field: VersionField, exported: seq<string>): Result<seq<Version>, Error>
  {
    match field
    case Listed(vs) => ParseAll(vs)
    case One(v) => ParseAll([v])
    case Absent => ParseAll(Texts(Dedup(exported)))
  }

  lemma SelectOne(v: YamlScalar, exported: seq<string>)
    ensures ParseVersion(v).Ok? ==> SelectVersions(One(v), exported) == Ok([ParseVersion(v).value])
    ensures ParseVersion(v).Err? ==> SelectVersions(One(v), exported) == Err(ParseVersion(v).error)
  {
    assert [v][..0] == [];
    if ParseVersion(v).Ok? {
      assert [] + [ParseVersion(v).value] == [ParseVersion(v).value];
    }
  }

  /** Without a `version` entry: every version string of the export is read, each once,
      in first-seen order, and one unreadable string stops the run. */
  lemma SelectDetected(exported: seq<string>)
    ensures var r := SelectVersions(Absent, exported);
      (r.Ok? <==> forall s | s in exported :: GetVersion(s).Ok?)
      && (r.Ok? ==>
        var d := Dedup(exported);
        |r.value| == |d|
        && (forall i | 0 <= i < |d| :: Ok(r.value[i]) == GetVersion(d[i]))
        && (forall s | s in exported :: GetVersion(s).value in r.value)
        && (forall i, j | 0 <= i < j < |d| :: IndexOf(exported, d[i]) < IndexOf(exported, d[j])))
  {
    var d := Dedup(exported);
    var r := SelectVersions(Absent, exported);
    DedupOrder(exported);
    assert forall i | 0 <= i < |d| :: ParseVersion(Texts(d)[i]) == GetVersion(d[i]);
    if r.Ok? {
      forall s | s in exported ensures GetVersion(s).Ok? && GetVersion(s).value in r.value {
        var i := IndexOf(d, s);
        assert Ok(r.value[i]) == GetVersion(s);
      }
    }
    if forall s | s in exported :: GetVersion(s).Ok? {
      forall i | 0 <= i < |d| ensures ParseVersion(Texts(d)[i]).Ok? {
        assert d[i] in exported;
      }
    }
  }

  // ----- phase ordering (extract.py:24-33, 315, 321) -----

  datatype Phase =
    | SubjectsPhase | ConfigPhase | ExtractPhase | StripPhase | PickPhase | CleanPhase
    | PostExtractPhase | ReducePhase

  /** The phases in their canonical order (`DEFAULT_PHASES`). */
  const AllPhases: seq<Phase> :=
    [SubjectsPhase, ConfigPhase, ExtractPhase, StripPhase, PickPhase, CleanPhase, PostExtractPhase, ReducePhase]

  /** The value by which a phase is named on the command line. */
  function PhaseName(p: Phase): string
  {
    match p
    case SubjectsPhase => "subjects"
    case ConfigPhase => "config"
    case ExtractPhase => "extract"
    case StripPhase => "strip"
    case PickPhase => "pick"
    case CleanPhase => "clean"
    case PostExtractPhase => "post_extract"
    case ReducePhase => "reduce"
  }

  lemma AllPhasesListed()
    ensures NoDups(AllPhases)
    ensures forall p: Phase :: p in AllPhases
  {
    forall p: Phase ensures p in AllPhases {
      PhaseListed(p);
    }
  }

  lemma PhaseListed(p: Phase)
    ensures p in AllPhases
  {
    match p
    case SubjectsPhase => assert AllPhases[0] == p;
    case ConfigPhase => assert AllPhases[1] == p;
    case ExtractPhase => assert AllPhases[2] == p;
    case StripPhase => assert AllPhases[3] == p;
    case PickPhase => assert AllPhases[4] == p;
    case CleanPhase => assert AllPhases[5] == p;
    case PostExtractPhase => assert AllPhases[6] == p;
    case ReducePhase => assert AllPhases[7] == p;
  }

  /** `set(args.phase) == set(DEFAULT_PHASES)`. */
  predicate IsFull(requested: seq<Phase>)
  {
    PhaseSet(requested) == PhaseSet(AllPhases)
  }

  function PhaseSet(s: seq<Phase>): set<Phase>
  {
    set p | p in s
  }

  /** A run is full exactly when every phase is requested. */
  lemma IsFullMeaning(requested: seq<Phase>)
    ensures IsFull(requested) <==> forall p: Phase :: p in requested
  {
    AllPhasesListed();
    if forall p: Phase :: p in requested {
      assert PhaseSet(requested) == PhaseSet(AllPhases);
    }
    if IsFull(requested) {
      forall p: Phase ensures p in requested {
        PhaseListed(p);
        assert p in PhaseSet(AllPhases);
      }
    }
  }

  /** The membership test of the filter in `main`. */
  function Wanted(requested: seq<Phase>): Phase -> bool
  {
    (p: Phase) => p in requested
  }

  /** The phases named in the "Running phases" line: the requested ones, each once, in
      canonical order whatever the command-line order. */
  function ReportedPhases(requested: seq<Phase>): seq<Phase>
  {
    Filter(AllPhases, Wanted(requested))
  }

  lemma ReportedFacts(requested: seq<Phase>)
    ensures var r := ReportedPhases(requested);
      (forall p :: p in r <==> p in requested) && NoDups(r)
      && forall i, j | 0 <= i < j < |r| :: IndexOf(AllPhases, r[i]) < IndexOf(AllPhases, r[j])
  {
    var r := ReportedPhases(requested);
    AllPhasesListed();
    FilterKeepsOrder(AllPhases, Wanted(requested));
    forall p ensures p in r <==> p in requested {
      PhaseListed(p);
      assert Wanted(requested)(p) == (p in requested);
    }
  }

  /** Two requests naming the same phases, in any order and with any repetition, are
      reported alike. */
  lemma ReportIgnoresOrder(a: seq<Phase>, b: seq<Phase>)
    requires forall p :: p in a <==> p in b
    ensures ReportedPhases(a) == ReportedPhases(b)
  {
    FilterSame(AllPhases, Wanted(a), Wanted(b));
  }

  /** What `main` does first: a full run creates the output directory; any other run
      reports the phases it will run, which leave at least one phase out. */
  datatype Start = MakeOutputDir | ReportPhases(phases: seq<Phase>)

  function StartRun(requested: seq<Phase>): (s: Start)
    ensures s.MakeOutputDir? <==> forall p: Phase :: p in requested
    ensures s.ReportPhases? ==> s.phases == ReportedPhases(requested)
    ensures s.ReportPhases? ==> exists p: Phase :: p !in s.phases
  {
    IsFullMeaning(requested);
    if IsFull(requested) then MakeOutputDir
    else
      var r := ReportedPhases(requested);
      ReportedFacts(requested);
      var missing: Phase :| missing !in requested;
      assert missing !in r;
      ReportPhases(r)
  }

  // ----- config_fixups (extract.py:131-138) -----

  const FixupWorkflow := 18624
  const FixupVersion: Version := (3, 1)
  const Uncorrected := "To a Ship Cured"
  const Corrected := "To a/his Ship Cured"

  /** `re.sub(pat, rep, s)` for a pattern without special characters: every occurrence,
      found left to right without overlap, is replaced. */
  function ReplaceAll(s: string, pat: string, rep: string): string
    requires |pat| > 0
    decreases |s|
  {
    if |s| < |pat| then s
    else if s[..|pat|] == pat then rep + ReplaceAll(s[|pat|..], pat, rep)
    else [s[0]] + ReplaceAll(s[1..], pat, rep)
  }

  predicate OccursAt(s: string, pat: string, i: nat)
  {
    i + |pat| <= |s| && s[i..i + |pat|] == pat
  }

  ghost predicate NotFound(s: string, pat: string)
  {
    forall i: nat :: !OccursAt(s, pat, i)
  }

  /** A text without the pattern is left as it is. */
  lemma {:induction false} ReplaceAbsent(s: string, pat: string, rep: string)
    requires |pat| > 0 && NotFound(s, pat)
    ensures ReplaceAll(s, pat, rep) == s
    decreases |s|
  {
    if |s| >= |pat| {
      assert !OccursAt(s, pat, 0);
      assert NotFound(s[1..], pat) by {
        forall i: nat ensures !OccursAt(s[1..], pat, i) {
          assert !OccursAt(s, pat, i + 1);
          if i + |pat| <= |s[1..]| {
            assert s[1..][i..i + |pat|] == s[i + 1..i + 1 + |pat|];
          }
        }
      }
      ReplaceAbsent(s[1..], pat, rep);
    }
  }

  /** The first occurrence of the pattern is replaced and the scan goes on after it: the
      text before it is kept as it is. */
  lemma {:induction false} ReplaceFirst(a: string, pat: string, b: string, rep: string)
    requires |pat| > 0
    requires forall i | 0 <= i < |a| :: !OccursAt(a + pat + b, pat, i)
    ensures ReplaceAll(a + pat + b, pat, rep) == a + rep + ReplaceAll(b, pat, rep)
    decreases |a|
  {
    var s := a + pat + b;
    if |a| == 0 {
      assert s[..|pat|] == pat && s[|pat|..] == b;
    } else {
      assert !OccursAt(s, pat, 0);
      var t := a[1..] + pat + b;
      assert s[1..] == t;
      NoOccurrenceAfterFirst(a, pat, b);
      ReplaceFirst(a[1..], pat, b, rep);
      var rest := ReplaceAll(b, pat, rep);
      assert ReplaceAll(s, pat, rep) == [s[0]] + ReplaceAll(t, pat, rep);
      assert [a[0]] + (a[1..] + rep + rest) == a + rep + rest by {
        assert a == [a[0]] + a[1..];
      }
    }
  }

  lemma NoOccurrenceAfterFirst(a: string, pat: string, b: string)
    requires |a| > 0
    requires forall i | 0 <= i < |a| :: !OccursAt(a + pat + b, pat, i)
    ensures forall i | 0 <= i < |a| - 1 :: !OccursAt(a[1..] + pat + b, pat, i)
  {
    var s, t := a + pat + b, a[1..] + pat + b;
    forall i | 0 <= i < |a| - 1 ensures !OccursAt(t, pat, i) {
      assert !OccursAt(s, pat, i + 1);
      if i + |pat| <= |t| {
        assert t[i..i + |pat|] == s[i + 1..i + 1 + |pat|];
      }
    }
  }

  /** A line holding the pattern once, and nowhere else, has exactly that occurrence
      replaced. */
  lemma ReplaceOne(a: string, pat: string, b: string, rep: string)
    requires |pat| > 0 && NotFound(b, pat)
    requires forall i | 0 <= i < |a| :: !OccursAt(a + pat + b, pat, i)
    ensures ReplaceAll(a + pat + b, pat, rep) == a + rep + b
  {
    ReplaceFirst(a, pat, b, rep);
    ReplaceAbsent(b, pat, rep);
  }

  /** A text that is the pattern, with nothing around it, is the replacement. */
  lemma ReplaceWhole(pat: string, rep: string)
    requires |pat| > 0
    ensures ReplaceAll(pat, pat, rep) == rep
  {
    assert pat[|pat|..] == "";
  }

  type Lines = seq<string>

  function FixLines(lines: Lines): (r: Lines)
    ensures |r| == |lines|
    ensures forall i | 0 <= i < |lines| :: r[i] == ReplaceAll(lines[i], Uncorrected, Corrected)
  {
    seq(|lines|, i requires 0 <= i < |lines| => ReplaceAll(lines[i], Uncorrected, Corrected))
  }

  /** `config_fixups`: for each selected version, only the task-label file of workflow
      18624 at version 3.1 has "To a Ship Cured" rewritten, line by line; `labels` holds
      the task-label files by version (a missing file is the FileNotFoundError). */
  function ConfigFixups(wId: int, versions: seq<Version>, labels: map<Version, Lines>): (r: Result<map<Version, Lines>, Error>)
    ensures r.Ok? ==> r.value.Keys == labels.Keys
    ensures r.Ok? ==> forall v | v in labels && v != FixupVersion :: r.value[v] == labels[v]
    ensures r.Ok? ==> forall v | v in labels :: |r.value[v]| == |labels[v]|
    ensures wId != FixupWorkflow || FixupVersion !in versions ==> r == Ok(labels)
    ensures wId == FixupWorkflow && FixupVersion in versions ==> (r.Err? <==> FixupVersion !in labels)
  {
    if |versions| == 0 then Ok(labels)
    else
      var front := versions[..|versions| - 1];
      var v := versions[|versions| - 1];
      assert forall x | x in versions :: x in front || x == v;
      var done :- ConfigFixups(wId, front, labels);
      if wId == FixupWorkflow && v == FixupVersion then
        if v !in done then Err(MissingFile(TaskLabel, v))
        else Ok(done[v := FixLines(done[v])])
      else Ok(done)
  }

  /** When version 3.1 of workflow 18624 is selected once and its file exists, that file
      comes back with every line rewritten. */
  lemma {:induction false} FixupOnce(versions: seq<Version>, labels: map<Version, Lines>)
    requires FixupVersion in labels
    requires Count(versions, (v: Version) => v == FixupVersion) == 1
    ensures ConfigFixups(FixupWorkflow, versions, labels) == Ok(labels[FixupVersion := FixLines(labels[FixupVersion])])
  {
    var n := |versions|;
    var front := versions[..n - 1];
    var v := versions[n - 1];
    var p := (x: Version) => x == FixupVersion;
    CountSnoc(versions, p);
    if v == FixupVersion {
      CountZero(front, p);
      assert ConfigFixups(FixupWorkflow, front, labels) == Ok(labels);
    } else {
      FixupOnce(front, labels);
    }
  }

  lemma CountSnoc<T>(xs: seq<T>, p: T -> bool)
    requires |xs| > 0
    ensures Count(xs, p) == Count(xs[..|xs| - 1], p) + (if p(xs[|xs| - 1]) then 1 else 0)
  {
    CountAppend(xs[..|xs| - 1], [xs[|xs| - 1]], p);
    assert xs[..|xs| - 1] + [xs[|xs| - 1]] == xs;
  }

  lemma {:induction false} CountAppend<T>(xs: seq<T>, ys: seq<T>, p: T -> bool)
    ensures Count(xs + ys, p) == Count(xs, p) + Count(ys, p)
  {
    if |xs| > 0 {
      assert (xs + ys)[1..] == xs[1..] + ys;
      CountAppend(xs[1..], ys, p);
    } else {
      assert xs + ys == ys;
    }
  }

  lemma {:induction false} CountZero<T>(xs: seq<T>, p: T -> bool)
    requires Count(xs, p) == 0
    ensures forall x | x in xs :: !p(x)
  {
    if |xs| > 0 {
      CountZero(xs[1..], p);
      assert forall x | x in xs :: x == xs[0] || x in xs[1..];
    }
  }

  // ----- the task-label transformer (extract.py:147-158) -----

  /** A value of a parsed configuration file: a scalar, or a mapping (label entries map
      a hexadecimal key to the label text). */
  datatype Entry = Scalar(s: string) | Mapping(pairs: seq<(string, string)>)

  /** A parsed configuration file: its entries in file order (keys are distinct). */
  type Config = seq<(string, Entry)>

  /** The diagnostics written to standard error (they do not stop the run). */
  datatype Warning = NotOneLabel(key: string) | NotHexKey(key: string, subKey: string)

  predicate IsHexDigit(c: char) { '0' <= c <= '9' || 'a' <= c <= 'f' }

  /** `re.fullmatch('[a-f0-9]+', k)`. */
  predicate IsHex(k: string)
  {
    |k| > 0 && forall i | 0 <= i < |k| :: IsHexDigit(k[i])
  }

  predicate IsLabelKey(key: string)
  {
    EndsWith(key, ".label")
  }

  /** One `.label` entry: its first inner value replaces it; a mapping with other than one
      entry and a first key that is not hexadecimal are reported; a scalar (no `keys()`)
      or an empty mapping (nothing to iterate) raises. */
  function FlattenLabel(key: string, e: Entry): (r: Result<(Entry, seq<Warning>), Error>)
    ensures r.Ok? <==> e.Mapping? && |e.pairs| > 0
    ensures r.Ok? ==> r.value.0 == Scalar(e.pairs[0].1)
    ensures r.Ok? ==> (NotOneLabel(key) in r.value.1 <==> |e.pairs| != 1)
    ensures r.Ok? ==> (NotHexKey(key, e.pairs[0].0) in r.value.1 <==> !IsHex(e.pairs[0].0))
  {
    match e
    case Scalar(_) => Err(LabelNotMapping(key))
    case Mapping(pairs) =>
      if |pairs| == 0 then Err(EmptyLabel(key))
      else
        var w1 := if |pairs| != 1 then [NotOneLabel(key)] else [];
        var w2 := if !IsHex(pairs[0].0) then [NotHexKey(key, pairs[0].0)] else [];
        Ok((Scalar(pairs[0].1), w1 + w2))
  }

  /** The configuration after the loop of `dropdown_label_transformer` has visited its
      first `|c|` keys, with the warnings written so far. */
  function TransformSpec(c: Config): Result<(Config, seq<Warning>), Error>
  {
    if |c| == 0 then Ok(([], []))
    else
      var prev :- TransformSpec(c[..|c| - 1]);
      var t :- TransformEntry(c[|c| - 1].0, c[|c| - 1].1);
      Ok((prev.0 + [(c[|c| - 1].0, t.0)], prev.1 + t.1))
  }

  /** One visit of the loop: `.label` entries are flattened, the others kept. */
  function TransformEntry(k: string, e: Entry): Result<(Entry, seq<Warning>), Error>
  {
    if IsLabelKey(k) then FlattenLabel(k, e) else Ok((e, []))
  }

  /** `dropdown_label_transformer`: the loop that replaces, in place, every `.label` entry
      of the parsed file by its single inner value. */
  method DropdownLabelTransformer(c: Config) returns (r: Result<(Config, seq<Warning>), Error>)
    ensures r == TransformSpec(c)
  {
    var cfg := c;
    var warnings: seq<Warning> := [];
    var i := 0;
    while i < |c|
      invariant 0 <= i <= |c| && |cfg| == |c|
      invariant TransformSpec(c[..i]) == Ok((cfg[..i], warnings))
      invariant cfg[i..] == c[i..]
    {
      assert cfg[i] == cfg[i..][0] == c[i];
      var k := cfg[i].0;
      var e := cfg[i].1;
      ghost var before := cfg;
      TransformStep(c, i);
      if IsLabelKey(k) {
        var f := FlattenLabel(k, e);
        if f.Err? {
          TransformPrefixErr(c, i + 1);
          return Err(f.error);
        }
        cfg := cfg[i := (k, f.value.0)];
        warnings := warnings + f.value.1;
      } else {
        assert warnings + [] == warnings;
      }
      assert cfg[..i + 1] == before[..i] + [cfg[i]];
      assert cfg[i + 1..] == before[i + 1..];
      i := i + 1;
    }
    assert c[..i] == c;
    assert cfg[..i] == cfg;
    return Ok((cfg, warnings));
  }

  /** One more visit of the loop, in terms of the visits before it. */
  lemma TransformStep(c: Config, i: nat)
    requires i < |c| && TransformSpec(c[..i]).Ok?
    ensures var t := TransformEntry(c[i].0, c[i].1);
      TransformSpec(c[..i + 1])
      == if t.Err? then Err(t.error)
         else Ok((TransformSpec(c[..i]).value.0 + [(c[i].0, t.value.0)], TransformSpec(c[..i]).value.1 + t.value.1))
  {
    assert c[..i + 1][..i] == c[..i];
    assert c[..i + 1][i] == c[i];
  }

  lemma {:induction false} TransformPrefixErr(c: Config, n: nat)
    requires n <= |c| && TransformSpec(c[..n]).Err?
    ensures TransformSpec(c) == TransformSpec(c[..n])
    decreases |c| - n
  {
    if n < |c| {
      assert c[..n + 1][..n] == c[..n];
      TransformPrefixErr(c, n + 1);
    } else {
      assert c[..n] == c;
    }
  }

  /** The transformer keeps every key in its place, replaces each `.label` entry by the
      value of its single inner entry and leaves every other entry untouched; it fails
      exactly when some `.label` entry is not a non-empty mapping. */
  lemma {:induction false} TransformMeaning(c: Config)
    ensures TransformSpec(c).Ok? <==>
      forall i | 0 <= i < |c| :: IsLabelKey(c[i].0) ==> c[i].1.Mapping? && |c[i].1.pairs| > 0
    ensures TransformSpec(c).Ok? ==>
      var t := TransformSpec(c).value.0;
      |t| == |c| && Firsts(t) == Firsts(c)
      && forall i | 0 <= i < |c| ::
        t[i].1 == (if IsLabelKey(c[i].0) then Scalar(c[i].1.pairs[0].1) else c[i].1)
  {
    if |c| > 0 {
      var n := |c| - 1;
      var p := c[..n];
      TransformMeaning(p);
      assert c[..n] == p;
      assert forall i | 0 <= i < n :: p[i] == c[i];
      if TransformSpec(p).Ok? {
        TransformStep(c, n);
        if TransformSpec(c).Ok? {
          TransformLast(c);
        }
      } else {
        var j :| 0 <= j < n && IsLabelKey(p[j].0) && !(p[j].1.Mapping? && |p[j].1.pairs| > 0);
        assert c[j] == p[j];
      }
    }
  }

  /** The last key of a successful visit, given the visits before it. */
  lemma TransformLast(c: Config)
    requires |c| > 0 && TransformSpec(c).Ok?
    requires forall i | 0 <= i < |c| :: IsLabelKey(c[i].0) ==> c[i].1.Mapping? && |c[i].1.pairs| > 0
    requires var p := TransformSpec(c[..|c| - 1]);
      p.Ok? && |p.value.0| == |c| - 1 && Firsts(p.value.0) == Firsts(c[..|c| - 1])
      && forall i | 0 <= i < |c| - 1 ::
        p.value.0[i].1 == (if IsLabelKey(c[i].0) then Scalar(c[i].1.pairs[0].1) else c[i].1)
    ensures var t := TransformSpec(c).value.0;
      |t| == |c| && Firsts(t) == Firsts(c)
      && forall i | 0 <= i < |c| ::
        t[i].1 == (if IsLabelKey(c[i].0) then Scalar(c[i].1.pairs[0].1) else c[i].1)
  {
    var n := |c| - 1;
    var tp := TransformSpec(c[..n]).value.0;
    var e := TransformEntry(c[n].0, c[n].1).value.0;
    var t := TransformSpec(c).value.0;
    assert t == tp + [(c[n].0, e)];
    assert e == (if IsLabelKey(c[n].0) then Scalar(c[n].1.pairs[0].1) else c[n].1);
    forall i | 0 <= i < |c|
      ensures t[i].0 == c[i].0
      ensures t[i].1 == (if IsLabelKey(c[i].0) then Scalar(c[i].1.pairs[0].1) else c[i].1)
    {
      if i < n {
        assert t[i] == tp[i] && Firsts(tp)[i] == Firsts(c[..n])[i];
      }
    }
    assert Firsts(t) == Firsts(c);
  }

  /** What `yaml.dump` writes is fixed by the entries, whatever their order in the file,
      since keys are sorted on output. */
  datatype Dumped = DScalar(s: string) | DMapping(m: map<string, string>)

  function PairsMap(pairs: seq<(string, string)>): map<string, string>
  {
    if |pairs| == 0 then map[]
    else PairsMap(pairs[..|pairs| - 1])[pairs[|pairs| - 1].0 := pairs[|pairs| - 1].1]
  }

  function DumpEntry(e: Entry): Dumped
  {
    match e
    case Scalar(s) => DScalar(s)
    case Mapping(pairs) => DMapping(PairsMap(pairs))
  }

  function Dump(c: Config): map<string, Dumped>
  {
    if |c| == 0 then map[] else Dump(c[..|c| - 1])[c[|c| - 1].0 := DumpEntry(c[|c| - 1].1)]
  }

  /** Two task-label files of a dropdown workflow that differ only in the hexadecimal keys
      of their labels compare equal after the transformation. */
  lemma {:induction false} HexKeysIgnored(a: Config, b: Config)
    requires |a| == |b| && Firsts(a) == Firsts(b)
    requires forall i | 0 <= i < |a| :: !IsLabelKey(a[i].0) ==> a[i].1 == b[i].1
    requires forall i | 0 <= i < |a| :: IsLabelKey(a[i].0) ==>
      a[i].1.Mapping? && b[i].1.Mapping? && |a[i].1.pairs| > 0 && |b[i].1.pairs| > 0
      && a[i].1.pairs[0].1 == b[i].1.pairs[0].1
    ensures TransformSpec(a).Ok? && TransformSpec(b).Ok?
    ensures Dump(TransformSpec(a).value.0) == Dump(TransformSpec(b).value.0)
  {
    TransformMeaning(a);
    TransformMeaning(b);
    var ta, tb := TransformSpec(a).value.0, TransformSpec(b).value.0;
    forall i | 0 <= i < |ta| ensures ta[i] == tb[i] {
      assert ta[i].0 == Firsts(ta)[i] == Firsts(a)[i] == Firsts(b)[i] == tb[i].0;
    }
    assert ta == tb;
  }

  /** `extraction_transformer`: the file without its `workflow_version` entry (a
      KeyError when it has none). */
  function ExtractionTransform(c: Config): (r: Result<map<string, Dumped>, Error>)
    ensures r.Ok? <==> "workflow_version" in Dump(c)
    ensures r.Err? ==> r.error == NoWorkflowVersion
    ensures r.Ok? ==> forall k :: k in r.value <==> k in Dump(c) && k != "workflow_version"
    ensures r.Ok? ==> forall k | k in r.value :: r.value[k] == Dump(c)[k]
  {
    if "workflow_version" in Dump(c) then Ok(Dump(c) - {"workflow_version"})
    else Err(NoWorkflowVersion)
  }

  /** Two extraction files that differ only in their `workflow_version` entry compare
      equal after the transformation: a version bump alone is not a difference. */
  lemma VersionBumpIgnored(a: Config, b: Config)
    requires ("workflow_version" in Dump(a)) == ("workflow_version" in Dump(b))
    requires forall k | k != "workflow_version" :: k in Dump(a) <==> k in Dump(b)
    requires forall k | k != "workflow_version" && k in Dump(a) :: Dump(a)[k] == Dump(b)[k]
    ensures ExtractionTransform(a) == ExtractionTransform(b)
  {
    if "workflow_version" in Dump(a) {
      var ta, tb := ExtractionTransform(a).value, ExtractionTransform(b).value;
      assert ta.Keys == tb.Keys;
      assert ta == tb;
    }
  }

  // ----- config_check_identity (extract.py:145-197) -----

  datatype ConfigKind = Reduction | TaskLabel | Extraction

  /** The kind of a workflow's field, from the workflow definitions. */
  datatype FieldType = TextField | DropdownField | OtherField

  /** A configuration file: its bytes (for `filecmp`) and its parsed entries. */
  datatype ConfigFile = ConfigFile(bytes: string, entries: Config)

  /** The files written by the aggregation tool, by kind and version. */
  type Files = map<(ConfigKind, Version), ConfigFile>

  datatype BadComparison = BadComparison(kind: ConfigKind, workflow: int, config: Version, base: Version)

  /** Reduction files, and task-label files of text workflows, are compared byte by byte. */
  predicate RawCompare(kind: ConfigKind, ft: FieldType)
  {
    kind == Reduction || (kind == TaskLabel && ft == TextField)
  }

  /** What is compared of one file. */
  datatype Form = Raw(bytes: string) | Parsed(m: map<string, Dumped>)

  function Comparable(kind: ConfigKind, ft: FieldType, files: Files, v: Version): Result<Form, Error>
  {
    if (kind, v) !in files then Err(MissingFile(kind, v))
    else
      var f := files[(kind, v)];
      if RawCompare(kind, ft) then Ok(Raw(f.bytes))
      else if kind == TaskLabel then
        if ft != DropdownField then Err(NotDropdown)
        else
          var t :- TransformSpec(f.entries);
          Ok(Parsed(Dump(t.0)))
      else
        var m :- ExtractionTransform(f.entries);
        Ok(Parsed(m))
  }

  /** The comparisons of `others` against the base file, in order: one bad comparison
      for each file that differs; the first unreadable file raises. */
  function CompareEach(kind: ConfigKind, ft: FieldType, wId: int, others: seq<Version>, base: Version,
                       b: Form, files: Files): (r: Result<seq<BadComparison>, Error>)
    ensures r.Ok? <==> forall i | 0 <= i < |others| :: Comparable(kind, ft, files, others[i]).Ok?
    ensures r.Ok? ==> forall x :: x in r.value <==>
      exists i | 0 <= i < |others| :: x == BadComparison(kind, wId, others[i], base)
        && Comparable(kind, ft, files, others[i]).value != b
  {
    if |others| == 0 then Ok([])
    else
      var front := others[..|others| - 1];
      var v := others[|others| - 1];
      var prev :- CompareEach(kind, ft, wId, front, base, b, files);
      var c :- Comparable(kind, ft, files, v);
      assert forall i | 0 <= i < |front| :: front[i] == others[i];
      Ok(prev + (if c != b then [BadComparison(kind, wId, v, base)] else []))
  }

  /** One kind of configuration file: skipped when there is one version; otherwise every
      version's file is compared against the last version's (an empty version list
      raises on `pop`, and a task-label file of a workflow that is neither text nor
      dropdown fails the assertion). */
  function KindCheck(kind: ConfigKind, ft: FieldType, wId: int, versions: seq<Version>, files: Files): Result<seq<BadComparison>, Error>
  {
    var n := |versions|;
    if n == 1 then Ok([])
    else if n == 0 then Err(NoVersions)
    else if kind == TaskLabel && ft == OtherField then Err(NotDropdown)
    else
      var base := versions[n - 1];
      var b :- Comparable(kind, ft, files, base);
      CompareEach(kind, ft, wId, versions[..n - 1], base, b, files)
  }

  const Kinds: seq<ConfigKind> := [Reduction, TaskLabel, Extraction]

  /** The bad comparisons of the given kinds, in order. */
  function ChecksOf(kinds: seq<ConfigKind>, ft: FieldType, wId: int, versions: seq<Version>, files: Files): Result<seq<BadComparison>, Error>
  {
    if |kinds| == 0 then Ok([])
    else
      var prev :- ChecksOf(kinds[..|kinds| - 1], ft, wId, versions, files);
      var more :- KindCheck(kinds[|kinds| - 1], ft, wId, versions, files);
      Ok(prev + more)
  }

  function IdentitySpec(ft: FieldType, wId: int, versions: seq<Version>, files: Files): Result<(), Error>
  {
    var bad :- ChecksOf(Kinds, ft, wId, versions, files);
    if |bad| == 0 then Ok(()) else Err(ConfigsDiffer(bad))
  }

  /** `config_check_identity`: the loop over the three kinds of file, appending every
      failed comparison to `bad_comparisons`, and raising at the end if there is one. */
  method ConfigCheckIdentity(ft: FieldType, wId: int, versions: seq<Version>, files: Files) returns (r: Result<(), Error>)
    ensures r == IdentitySpec(ft, wId, versions, files)
  {
    var bad: seq<BadComparison> := [];
    var k := 0;
    while k < |Kinds|
      invariant 0 <= k <= |Kinds|
      invariant ChecksOf(Kinds[..k], ft, wId, versions, files) == Ok(bad)
    {
      var more := CheckKind(Kinds[k], ft, wId, versions, files);
      ChecksStep(Kinds, ft, wId, versions, files, k);
      if more.Err? {
        ChecksPrefixErr(Kinds, ft, wId, versions, files, k + 1);
        return Err(more.error);
      }
      bad := bad + more.value;
      k := k + 1;
    }
    assert Kinds[..k] == Kinds;
    if |bad| == 0 {
      return Ok(());
    }
    return Err(ConfigsDiffer(bad));
  }

  /** The body of the loop over kinds, for one kind. */
  method CheckKind(kind: ConfigKind, ft: FieldType, wId: int, versions: seq<Version>, files: Files)
    returns (r: Result<seq<BadComparison>, Error>)
    ensures r == KindCheck(kind, ft, wId, versions, files)
  {
    var n := |versions|;
    if n == 1 {
      return Ok([]);
    }
    if n == 0 {
      return Err(NoVersions);
    }
    if kind == TaskLabel && ft == OtherField {
      return Err(NotDropdown);
    }
    var base := versions[n - 1];
    var b := Comparable(kind, ft, files, base);
    if b.Err? {
      return Err(b.error);
    }
    r := CompareAgainstBase(kind, ft, wId, versions[..n - 1], base, b.value, files);
  }

  /** The inner loop: every other version's file against the base file. */
  method CompareAgainstBase(kind: ConfigKind, ft: FieldType, wId: int, others: seq<Version>, base: Version,
                            b: Form, files: Files) returns (r: Result<seq<BadComparison>, Error>)
    ensures r == CompareEach(kind, ft, wId, others, base, b, files)
  {
    var bad: seq<BadComparison> := [];
    var i := 0;
    while i < |others|
      invariant 0 <= i <= |others|
      invariant CompareEach(kind, ft, wId, others[..i], base, b, files) == Ok(bad)
    {
      var c := Comparable(kind, ft, files, others[i]);
      CompareStep(kind, ft, wId, others, base, b, files, i, bad, c);
      if c.Err? {
        return Err(c.error);
      }
      bad := bad + if c.value != b then [BadComparison(kind, wId, others[i], base)] else [];
      i := i + 1;
    }
    assert others[..i] == others;
    return Ok(bad);
  }

  /** One more comparison of the inner loop, in terms of the ones before it: an unreadable
      file ends the whole comparison with its error, a readable one appends at most one bad
      comparison, for that version. */
  lemma CompareStep(kind: ConfigKind, ft: FieldType, wId: int, others: seq<Version>, base: Version,
                    b: Form, files: Files, i: nat, bad: seq<BadComparison>, c: Result<Form, Error>)
    requires i < |others| && CompareEach(kind, ft, wId, others[..i], base, b, files) == Ok(bad)
    requires c == Comparable(kind, ft, files, others[i])
    ensures c.Err? ==> CompareEach(kind, ft, wId, others, base, b, files) == Err(c.error)
    ensures c.Ok? ==>
      (CompareEach(kind, ft, wId, others[..i + 1], base, b, files)
       == Ok(bad + if c.value != b then [BadComparison(kind, wId, others[i], base)] else []))
  {
    assert others[..i + 1][..i] == others[..i];
    assert others[..i + 1][i] == others[i];
    if c.Err? {
      ComparePrefixErr(kind, ft, wId, others, base, b, files, i + 1);
    }
  }

  lemma {:induction false} ComparePrefixErr(kind: ConfigKind, ft: FieldType, wId: int, others: seq<Version>,
                                            base: Version, b: Form, files: Files, n: nat)
    requires n <= |others| && CompareEach(kind, ft, wId, others[..n], base, b, files).Err?
    ensures CompareEach(kind, ft, wId, others, base, b, files) == CompareEach(kind, ft, wId, others[..n], base, b, files)
    decreases |others| - n
  {
    if n < |others| {
      assert others[..n + 1][..n] == others[..n];
      ComparePrefixErr(kind, ft, wId, others, base, b, files, n + 1);
    } else {
      assert others[..n] == others;
    }
  }

  /** One more kind: its comparisons follow those of the kinds before it. */
  lemma ChecksStep(kinds: seq<ConfigKind>, ft: FieldType, wId: int, versions: seq<Version>,
                   files: Files, k: nat)
    requires k < |kinds|
    ensures ChecksOf(kinds[..k + 1], ft, wId, versions, files) ==
      (var prev := ChecksOf(kinds[..k], ft, wId, versions, files);
       var more := KindCheck(kinds[k], ft, wId, versions, files);
       if prev.Err? then prev else if more.Err? then Err(more.error) else Ok(prev.value + more.value))
  {
    assert kinds[..k + 1][..k] == kinds[..k];
  }

  lemma {:induction false} ChecksPrefixErr(kinds: seq<ConfigKind>, ft: FieldType, wId: int, versions: seq<Version>,
                                           files: Files, n: nat)
    requires n <= |kinds| && ChecksOf(kinds[..n], ft, wId, versions, files).Err?
    ensures ChecksOf(kinds, ft, wId, versions, files) == ChecksOf(kinds[..n], ft, wId, versions, files)
    decreases |kinds| - n
  {
    if n < |kinds| {
      assert kinds[..n + 1][..n] == kinds[..n];
      ChecksPrefixErr(kinds, ft, wId, versions, files, n + 1);
    } else {
      assert kinds[..n] == kinds;
    }
  }

  /** A workflow with a single version has nothing to compare: no file is read. */
  lemma SingleVersionSkipped(ft: FieldType, wId: int, v: Version, files: Files)
    ensures IdentitySpec(ft, wId, [v], files) == Ok(())
  {
    ChecksOfEmpty(Kinds, ft, wId, [v], files);
  }

  /** With two or more versions, the check passes exactly when, for each kind of file,
      every version's file can be read and agrees with the last version's. */
  lemma IdentityDecision(ft: FieldType, wId: int, versions: seq<Version>, files: Files)
    requires |versions| >= 2
    ensures IdentitySpec(ft, wId, versions, files).Ok? <==>
      forall kind, i | kind in Kinds && 0 <= i < |versions| ::
        Comparable(kind, ft, files, versions[i]).Ok?
        && Comparable(kind, ft, files, versions[i]) == Comparable(kind, ft, files, versions[|versions| - 1])
  {
    ChecksOfEmpty(Kinds, ft, wId, versions, files);
    forall kind | kind in Kinds {
      KindCheckEmpty(kind, ft, wId, versions, files);
    }
  }

  /** A task-label file is compared only for text and dropdown workflows: for any other,
      a workflow with several versions fails the check. */
  lemma OtherFieldRefused(wId: int, versions: seq<Version>, files: Files)
    requires |versions| >= 2
    ensures IdentitySpec(OtherField, wId, versions, files).Err?
  {
    IdentityDecision(OtherField, wId, versions, files);
    assert TaskLabel in Kinds;
    assert Comparable(TaskLabel, OtherField, files, versions[0]).Err?;
  }

  /** The kinds pass together exactly when each passes with no bad comparison. */
  lemma {:induction false} ChecksOfEmpty(kinds: seq<ConfigKind>, ft: FieldType, wId: int, versions: seq<Version>, files: Files)
    ensures ChecksOf(kinds, ft, wId, versions, files) == Ok([]) <==>
      forall kind | kind in kinds :: KindCheck(kind, ft, wId, versions, files) == Ok([])
  {
    if |kinds| > 0 {
      var p := kinds[..|kinds| - 1];
      var last := kinds[|kinds| - 1];
      ChecksOfEmpty(p, ft, wId, versions, files);
      assert forall kind | kind in kinds :: kind in p || kind == last;
      var prev := ChecksOf(p, ft, wId, versions, files);
      var more := KindCheck(last, ft, wId, versions, files);
      if prev.Ok? && more.Ok? {
        assert ChecksOf(kinds, ft, wId, versions, files) == Ok(prev.value + more.value);
        assert |prev.value + more.value| == |prev.value| + |more.value|;
      }
    }
  }

  /** Comparing files against a base finds nothing exactly when each reads as the base. */
  lemma {:induction false} CompareEachEmpty(kind: ConfigKind, ft: FieldType, wId: int, others: seq<Version>,
                                            base: Version, b: Form, files: Files)
    ensures CompareEach(kind, ft, wId, others, base, b, files) == Ok([]) <==>
      forall i | 0 <= i < |others| :: Comparable(kind, ft, files, others[i]) == Ok(b)
  {
    if |others| > 0 {
      var front := others[..|others| - 1];
      var v := others[|others| - 1];
      CompareEachEmpty(kind, ft, wId, front, base, b, files);
      assert forall i | 0 <= i < |front| :: front[i] == others[i];
      var prev := CompareEach(kind, ft, wId, front, base, b, files);
      var c := Comparable(kind, ft, files, v);
      if prev.Ok? && c.Ok? {
        var more := if c.value != b then [BadComparison(kind, wId, v, base)] else [];
        assert CompareEach(kind, ft, wId, others, base, b, files) == Ok(prev.value + more);
        assert |prev.value + more| == |prev.value| + |more|;
      }
      assert (forall i | 0 <= i < |others| :: Comparable(kind, ft, files, others[i]) == Ok(b)) <==>
        (forall i | 0 <= i < |front| :: Comparable(kind, ft, files, front[i]) == Ok(b)) && c == Ok(b);
    }
  }

  lemma KindCheckEmpty(kind: ConfigKind, ft: FieldType, wId: int, versions: seq<Version>, files: Files)
    requires |versions| >= 2
    ensures KindCheck(kind, ft, wId, versions, files) == Ok([]) <==>
      forall i | 0 <= i < |versions| :: Comparable(kind, ft, files, versions[i]).Ok?
        && Comparable(kind, ft, files, versions[i]) == Comparable(kind, ft, files, versions[|versions| - 1])
  {
    var n := |versions|;
    var last := versions[n - 1];
    var b := Comparable(kind, ft, files, last);
    if kind == TaskLabel && ft == OtherField {
      assert Comparable(kind, ft, files, versions[0]).Err?;
    } else if b.Ok? {
      CompareEachEmpty(kind, ft, wId, versions[..n - 1], last, b.value, files);
      assert forall i | 0 <= i < n - 1 :: versions[..n - 1][i] == versions[i];
    } else {
      assert !Comparable(kind, ft, files, versions[n - 1]).Ok?;
    }
  }

  // ----- concatenation of the per-version extractions (extract.py:211-216) -----

  /** Every line of a file but its header (`readline` of an empty file reads nothing). */
  function Body(f: Lines): (b: Lines)
    ensures |f| > 0 ==> |b| == |f| - 1 && f == [f[0]] + b
    ensures |f| == 0 ==> b == []
  {
    if |f| == 0 then [] else f[1..]
  }

  /** The concatenation as specified: the first output whole, then the others without
      their header lines, in version order. */
  function ConcatSpec(outputs: seq<Lines>): Result<Lines, Error>
  {
    if |outputs| == 0 then Err(NoVersions)
    else Ok(outputs[0] + Bodies(outputs[1..]))
  }

  function Bodies(fs: seq<Lines>): Lines
  {
    if |fs| == 0 then [] else Bodies(fs[..|fs| - 1]) + Body(fs[|fs| - 1])
  }

  function TotalLines(fs: seq<Lines>): nat
  {
    if |fs| == 0 then 0 else TotalLines(fs[..|fs| - 1]) + |fs[|fs| - 1]|
  }

  /** The end of `panoptes_extract`: the first output is copied to the `.full.csv` file and
      the body of every later one appended to it (no output at all raises on `pop`). */
  method ConcatenateExtractions(outputs: seq<Lines>) returns (r: Result<Lines, Error>)
    ensures r == ConcatSpec(outputs)
  {
    if |outputs| == 0 {
      return Err(NoVersions);
    }
    var full := outputs[0];
    var rest := outputs[1..];
    var i := 0;
    while i < |rest|
      invariant 0 <= i <= |rest|
      invariant full == outputs[0] + Bodies(rest[..i])
    {
      BodiesStep(outputs[0], rest, i, full);
      full := full + Body(rest[i]);
      i := i + 1;
    }
    assert rest[..i] == rest;
    return Ok(full);
  }

  /** One more output appended: its lines but the header go on the end. */
  lemma BodiesStep(first: Lines, fs: seq<Lines>, i: nat, full: Lines)
    requires i < |fs| && full == first + Bodies(fs[..i])
    ensures full + Body(fs[i]) == first + Bodies(fs[..i + 1])
  {
    assert fs[..i + 1][..i] == fs[..i];
    assert Bodies(fs[..i + 1]) == Bodies(fs[..i]) + Body(fs[i]);
  }

  /** When every output has at least its header line, the concatenation starts with the
      first output and holds one header line: all lines but the later headers. */
  lemma ConcatMeaning(outputs: seq<Lines>)
    requires |outputs| > 0 && forall i | 0 <= i < |outputs| :: |outputs[i]| > 0
    ensures ConcatSpec(outputs).Ok?
    ensures ConcatSpec(outputs).value[..|outputs[0]|] == outputs[0]
    ensures |ConcatSpec(outputs).value| == TotalLines(outputs) - (|outputs| - 1)
  {
    var rest := outputs[1..];
    BodiesLength(rest);
    TotalLinesFirst(outputs);
  }

  lemma {:induction false} BodiesLength(fs: seq<Lines>)
    requires forall i | 0 <= i < |fs| :: |fs[i]| > 0
    ensures |Bodies(fs)| == TotalLines(fs) - |fs|
  {
    if |fs| > 0 {
      BodiesLength(fs[..|fs| - 1]);
    }
  }

  lemma {:induction false} TotalLinesFirst(fs: seq<Lines>)
    requires |fs| > 0
    ensures TotalLines(fs) == |fs[0]| + TotalLines(fs[1..])
  {
    if |fs| > 1 {
      var p := fs[..|fs| - 1];
      TotalLinesFirst(p);
      assert p[1..] == fs[1..][..|fs[1..]| - 1];
    } else {
      assert fs[..0] == [] && fs[1..] == [];
    }
  }

  // ----- the supplements report (extract.py:367-371) -----

  /** For each supplementary subject, in table order, whether it has at least one
      classification. */
  function SupplementReport(supplements: seq<int>, used: set<int>): (r: seq<(int, bool)>)
    ensures |r| == |supplements|
    ensures forall i | 0 <= i < |r| :: r[i].0 == supplements[i] && (r[i].1 <==> supplements[i] in used)
  {
    seq(|supplements|, i requires 0 <= i < |supplements| => (supplements[i], supplements[i] in used))
  }

  // ----- the duplicate-subject check (extract.py:349-365) -----

  type PageKey = (int, int)

  /** The rows of the duplicates table: the (volume, page) claimed and the subject id. */
  type DupRows = seq<(PageKey, int)>

  /** The subject ids claiming `entry` that appear in some extraction, in table order. */
  function FoundIn(dups: DupRows, entry: PageKey, used: set<int>): (found: seq<int>)
    ensures forall s :: s in found <==> s in used && (entry, s) in dups
  {
    if |dups| == 0 then []
    else
      var prev := FoundIn(dups[..|dups| - 1], entry, used);
      var (e, s) := dups[|dups| - 1];
      assert forall x | x in dups :: x in dups[..|dups| - 1] || x == dups[|dups| - 1];
      if e == entry && s in used then prev + [s] else prev
  }

  /** One "classified under multiple subject ids" error line. */
  datatype DupReport = DupReport(entry: PageKey, found: seq<int>)

  /** How the check ends: it passes, exits with status 1 after its error lines, or stops
      with an uncaught exception while formatting the line for `entry`. */
  datatype DupOutcome = Passed | Exit1(reports: seq<DupReport>) | TypeErrorAt(entry: PageKey)

  /** The error lines for the first `|groups|` groups. */
  function ReportsOf(groups: seq<PageKey>, dups: DupRows, used: set<int>): seq<DupReport>
  {
    if |groups| == 0 then []
    else
      var prev := ReportsOf(groups[..|groups| - 1], dups, used);
      var g := groups[|groups| - 1];
      var found := FoundIn(dups, g, used);
      if |found| > 1 then prev + [DupReport(g, found)] else prev
  }

  /** The check as intended: an error line for every (volume, page) for which more than
      one of its subject ids has classifications, then exit status 1 if there was one. */
  function DuplicateSpec(dups: DupRows, used: set<int>): DupOutcome
  {
    var r := ReportsOf(Dedup(Firsts(dups)), dups, used);
    if |r| == 0 then Passed else Exit1(r)
  }

  /** The loop of the check, corrected so that the subject ids are written as text. */
  method CheckDuplicates(dups: DupRows, used: set<int>) returns (o: DupOutcome)
    ensures o == DuplicateSpec(dups, used)
  {
    var groups := Dedup(Firsts(dups));
    var reports: seq<DupReport> := [];
    var g := 0;
    while g < |groups|
      invariant 0 <= g <= |groups|
      invariant reports == ReportsOf(groups[..g], dups, used)
    {
      assert groups[..g + 1][..g] == groups[..g];
      var entry := groups[g];
      var found: seq<int> := [];
      var j := 0;
      while j < |dups|
        invariant 0 <= j <= |dups|
        invariant found == FoundIn(dups[..j], entry, used)
      {
        assert dups[..j + 1][..j] == dups[..j];
        if dups[j].0 == entry && dups[j].1 in used {
          found := found + [dups[j].1];
        }
        j := j + 1;
      }
      assert dups[..j] == dups;
      if |found| > 1 {
        reports := reports + [DupReport(entry, found)];
      }
      g := g + 1;
    }
    assert groups[..g] == groups;
    if |reports| == 0 {
      return Passed;
    }
    return Exit1(reports);
  }

  /** The reported groups are exactly the (volume, page) pairs claimed by two or more
      subject ids that have classifications, each with those subject ids. */
  lemma {:induction false} ReportsMeaning(groups: seq<PageKey>, dups: DupRows, used: set<int>)
    ensures forall r | r in ReportsOf(groups, dups, used) ::
      r.entry in groups && r.found == FoundIn(dups, r.entry, used) && |r.found| > 1
    ensures forall g | g in groups && |FoundIn(dups, g, used)| > 1 ::
      DupReport(g, FoundIn(dups, g, used)) in ReportsOf(groups, dups, used)
  {
    if |groups| > 0 {
      var p := groups[..|groups| - 1];
      ReportsMeaning(p, dups, used);
      assert forall g | g in groups :: g in p || g == groups[|groups| - 1];
    }
  }

  /** The run fails exactly when some (volume, page) has two or more subject ids with
      classifications. */
  lemma DuplicateDecision(dups: DupRows, used: set<int>)
    ensures DuplicateSpec(dups, used) != Passed <==>
      exists i | 0 <= i < |dups| :: |FoundIn(dups, dups[i].0, used)| > 1
  {
    var groups := Dedup(Firsts(dups));
    ReportsMeaning(groups, dups, used);
    var r := ReportsOf(groups, dups, used);
    if |r| > 0 {
      assert r[0] in r;
      var i :| 0 <= i < |dups| && Firsts(dups)[i] == r[0].entry;
      assert dups[i].0 == r[0].entry;
    }
    if exists i | 0 <= i < |dups| :: |FoundIn(dups, dups[i].0, used)| > 1 {
      var i :| 0 <= i < |dups| && |FoundIn(dups, dups[i].0, used)| > 1;
      assert Firsts(dups)[i] == dups[i].0;
      assert dups[i].0 in groups;
      assert DupReport(dups[i].0, FoundIn(dups, dups[i].0, used)) in r;
    }
  }

  /** The check as written: the error line joins the subject ids, which are integers, with
      `", ".join`, which raises a TypeError; so the first offending group stops the run
      before any line is written. */
  function DuplicateAsWritten(dups: DupRows, used: set<int>): DupOutcome
  {
    FirstOffender(Dedup(Firsts(dups)), dups, used)
  }

  function FirstOffender(groups: seq<PageKey>, dups: DupRows, used: set<int>): DupOutcome
  {
    if |groups| == 0 then Passed
    else if |FoundIn(dups, groups[0], used)| > 1 then TypeErrorAt(groups[0])
    else FirstOffender(groups[1..], dups, used)
  }

  /** As written, the check still fails on the same inputs, but without its report. */
  lemma {:induction false} AsWrittenSameVerdict(groups: seq<PageKey>, dups: DupRows, used: set<int>)
    ensures FirstOffender(groups, dups, used) == Passed <==> ReportsOf(groups, dups, used) == []
    ensures FirstOffender(groups, dups, used) != Passed ==> FirstOffender(groups, dups, used).TypeErrorAt?
  {
    ReportsMeaning(groups, dups, used);
    if |groups| > 0 {
      AsWrittenSameVerdict(groups[1..], dups, used);
      ReportsMeaning(groups[1..], dups, used);
      var r := ReportsOf(groups, dups, used);
      if r != [] {
        assert r[0] in r;
        if |FoundIn(dups, groups[0], used)| <= 1 {
          assert r[0].entry in groups[1..];
          assert r[0] in ReportsOf(groups[1..], dups, used);
        }
      }
      if |FoundIn(dups, groups[0], used)| <= 1 && ReportsOf(groups[1..], dups, used) != [] {
        var x := ReportsOf(groups[1..], dups, used)[0];
        assert x in ReportsOf(groups[1..], dups, used);
        assert x.entry in groups;
      }
    }
  }

  /** A page claimed by subjects 100 and 101, both classified: the intended check reports
      the page with both ids; as written it stops with a TypeError and reports nothing. */
  lemma DuplicateReportLost()
    ensures DuplicateAsWritten([((1, 5), 100), ((1, 5), 101)], {100, 101}) == TypeErrorAt((1, 5))
    ensures DuplicateSpec([((1, 5), 100), ((1, 5), 101)], {100, 101}) == Exit1([DupReport((1, 5), [100, 101])])
  {
    var dups: DupRows := [((1, 5), 100), ((1, 5), 101)];
    var used: set<int> := {100, 101};
    ExampleGroups(dups);
    ExampleFound(dups, used);
    assert [(1, 5)][..0] == [];
    assert [(1, 5)][1..] == [];
  }

  lemma ExampleGroups(dups: DupRows)
    requires dups == [((1, 5), 100), ((1, 5), 101)]
    ensures Dedup(Firsts(dups)) == [(1, 5)]
  {
    var es := Firsts(dups);
    assert es == [(1, 5), (1, 5)];
    assert es[..1] == [(1, 5)];
    assert es[..1][..0] == [];
    assert Dedup(es[..1]) == [(1, 5)];
  }

  lemma ExampleFound(dups: DupRows, used: set<int>)
    requires dups == [((1, 5), 100), ((1, 5), 101)] && used == {100, 101}
    ensures FoundIn(dups, (1, 5), used) == [100, 101]
  {
    assert dups[..1] == [((1, 5), 100)];
    assert dups[..1][..0] == [];
    assert FoundIn(dups[..1], (1, 5), used) == [100];
  }
}
