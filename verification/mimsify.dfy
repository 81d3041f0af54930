/** mimsify.py: turns the joined table into the "mimsy" text format, one line per register
    page. Each field value is normalised first: it is stripped; an unresolved value (a
    best guess, a line of ten dashes and the candidate readings) is either flattened or
    stops the run; dates are rewritten as DD-MM-YYYY; semicolons become colons. */
module Mimsify {
  import opened Wrappers
  import opened Strs
  import opened Seqs

  // ----- the field list (mimsify.py:9-23, 119-124) -----

  const Fields: seq<string> := [
    "admission number",
    "date of entry",
    "name",
    "quality",
    "age",
    "place of birth",
    "port sailed out of",
    "years at sea",
    "last services",
    "under what circumstances admitted (or nature of complaint)",
    "date of discharge",
    "how disposed of",
    "number of days victualled"
  ]

  const Autoresolved := "Autoresolved"

  /** The fields written for each row: the `standard` fields (the list above) minus the
      skipped ones, in their standard order, then `Autoresolved` when asked for (even if
      it was also skipped, since the skip filter runs first). */
  function ActiveFields(standard: seq<string>, skip: seq<string>, autoresolved: bool): (r: seq<string>)
    requires NoDups(standard) && Autoresolved !in standard
    ensures forall f :: f in r <==> (f in standard && f !in skip) || (autoresolved && f == Autoresolved)
    ensures autoresolved ==> |r| > 0 && r[|r| - 1] == Autoresolved
    ensures NoDups(r)
    ensures var n := if autoresolved then |r| - 1 else |r|;
      0 <= n && forall i, j | 0 <= i < j < n :: IndexOf(standard, r[i]) < IndexOf(standard, r[j])
  {
    var kept := Filter(standard, (f: string) => f !in skip);
    FilterKeepsOrder(standard, (f: string) => f !in skip);
    if autoresolved then kept + [Autoresolved] else kept
  }

  function Head(s: string): char
  {
    if |s| == 0 then ' ' else s[0]
  }

  /** The standard fields are distinct and do not include `Autoresolved`. */
  lemma FieldsDistinct()
    ensures NoDups(Fields) && Autoresolved !in Fields
  {
    forall i, j | 0 <= i < j < |Fields| ensures Fields[i] != Fields[j] {
      assert |Fields[i]| != |Fields[j]| || Head(Fields[i]) != Head(Fields[j]);
    }
    assert Autoresolved !in Fields;
  }

  // ----- unresolved values (mimsify.py:41-49) -----

  /** End of the run of line breaks (`[\n\r]+`) that starts at `i`. */
  function BreakEnd(s: string, i: nat): (e: nat)
    requires i <= |s|
    ensures i <= e <= |s|
    ensures forall j | i <= j < e :: IsNewline(s[j])
    ensures e < |s| ==> !IsNewline(s[e])
    decreases |s| - i
  {
    if i < |s| && IsNewline(s[i]) then BreakEnd(s, i + 1) else i
  }

  /** Index of the first line break in `s`, or `|s|`. */
  function FirstBreak(s: string): (k: nat)
    ensures k <= |s|
    ensures forall i | 0 <= i < k :: !IsNewline(s[i])
    ensures k < |s| ==> IsNewline(s[k])
  {
    if |s| == 0 || IsNewline(s[0]) then 0 else 1 + FirstBreak(s[1..])
  }

  const Dashes := "----------"

  /** `-{10}` matches at `q`. */
  predicate DashesAt(s: string, q: nat)
  {
    q + 10 <= |s| && forall j | q <= j < q + 10 :: s[j] == '-'
  }

  /** End of `-{10}[\n\r]+` matched at `q`, if it matches there. */
  function DashLineEnd(s: string, q: nat): (r: Option<nat>)
    requires q <= |s|
    ensures r.Some? ==> q + 10 < r.value <= |s|
  {
    if q + 10 < |s| && DashesAt(s, q) && IsNewline(s[q + 10]) then
      Some(BreakEnd(s, q + 10))
    else None
  }

  /** End of `[\n\r]+-{10}[\n\r]+` matched at `k`, if it matches there (the first run of
      breaks is greedy, and must be, as a dash follows it). */
  function SeparatorEnd(s: string, k: nat): (r: Option<nat>)
    requires k <= |s|
    ensures r.Some? ==> k < r.value <= |s|
  {
    if k < |s| && IsNewline(s[k]) then DashLineEnd(s, BreakEnd(s, k)) else None
  }

  /** `re.match(r'[^\n\r]*[\n\r]+-{10}[\n\r]+', v)`: the first line is followed by a
      separator line of exactly ten dashes. */
  predicate IsUnresolved(v: string)
  {
    SeparatorEnd(v, FirstBreak(v)).Some?
  }

  /** The greedy `.*` of `.*[\n\r]+-{10}[\n\r]+` at `p`: the separator that starts latest,
      trying `k` and then every earlier position down to `p`. */
  function HeaderMatch(s: string, p: nat, k: nat): (r: Option<nat>)
    requires p <= k <= |s|
    ensures r.Some? ==> p < r.value <= |s|
    decreases k
  {
    match SeparatorEnd(s, k)
    case Some(q) => Some(q)
    case None => if k == p then None else HeaderMatch(s, p, k - 1)
  }

  /** Where `.*` that starts at `i` stops: the first `\n` at or after `i`, or the end. */
  function DotEnd(s: string, i: nat): (e: nat)
    requires i <= |s|
    ensures i <= e <= |s|
    ensures forall j | i <= j < e :: s[j] != '\n'
    ensures e < |s| ==> s[e] == '\n'
    decreases |s| - i
  {
    if i == |s| || s[i] == '\n' then i else DotEnd(s, i + 1)
  }

  /** End of a match of `.*[\n\r]+-{10}[\n\r]+` at `p`, if any; `.` stops at `\n` only. */
  function HeaderAt(s: string, p: nat): (r: Option<nat>)
    requires p <= |s|
    ensures r.Some? ==> p < r.value <= |s|
  {
    HeaderMatch(s, p, DotEnd(s, p))
  }

  /** `re.sub(r'.*[\n\r]+-{10}[\n\r]+', '', s)` from position `p`: leftmost matches are
      deleted and scanning resumes at the end of each. */
  function DropHeaders(s: string, p: nat): string
    requires p <= |s|
    decreases |s| - p
  {
    if p == |s| then []
    else
      match HeaderAt(s, p)
      case Some(q) => DropHeaders(s, q)
      case None => [s[p]] + DropHeaders(s, p + 1)
  }

  /** End of the run of ASCII digits (`\d*`) that starts at `i`. */
  function DigitsEnd(s: string, i: nat): (e: nat)
    requires i <= |s|
    ensures i <= e <= |s|
    ensures forall j | i <= j < e :: IsDigit(s[j])
    ensures e < |s| ==> !IsDigit(s[e])
    decreases |s| - i
  {
    if i < |s| && IsDigit(s[i]) then DigitsEnd(s, i + 1) else i
  }

  /** End of a match of ` @\d+$` (multi-line `$`: the end, or just before a `\n`) at `p`. */
  function CountAt(s: string, p: nat): (r: Option<nat>)
    requires p <= |s|
    ensures r.Some? ==> p + 2 < r.value <= |s|
  {
    if p + 2 < |s| && s[p] == ' ' && s[p + 1] == '@' then
      var q := DigitsEnd(s, p + 2);
      if q > p + 2 && (q == |s| || s[q] == '\n') then Some(q) else None
    else None
  }

  /** `re.sub(r' @\d+$', '', s, flags = re.MULTILINE)` from position `p`. */
  function DropCounts(s: string, p: nat): string
    requires p <= |s|
    decreases |s| - p
  {
    if p == |s| then []
    else
      match CountAt(s, p)
      case Some(q) => DropCounts(s, q)
      case None => [s[p]] + DropCounts(s, p + 1)
  }

  /** `re.sub(r'[\n\r]+', ' OR ', s)`: every run of line breaks becomes ` OR `. */
  function JoinLines(s: string): string
  {
    if |s| == 0 then ""
    else if IsNewline(s[0]) then " OR " + JoinLines(s[BreakEnd(s, 0)..])
    else [s[0]] + JoinLines(s[1..])
  }

  predicate NoBreaks(s: string)
  {
    forall i | 0 <= i < |s| :: !IsNewline(s[i])
  }

  /** The ` OR ` join leaves no line break behind. */
  lemma {:induction false} JoinLinesNoBreaks(s: string)
    ensures NoBreaks(JoinLines(s))
  {
    if |s| > 0 {
      if IsNewline(s[0]) {
        JoinLinesNoBreaks(s[BreakEnd(s, 0)..]);
      } else {
        JoinLinesNoBreaks(s[1..]);
      }
    }
  }

  /** A value on one line is not touched by the ` OR ` join. */
  lemma {:induction false} JoinLinesOneLine(s: string)
    requires NoBreaks(s)
    ensures JoinLines(s) == s
  {
    if |s| > 0 {
      JoinLinesOneLine(s[1..]);
    }
  }

  /** The flattening of an unresolved value, with `--unresolved`. */
  function Flatten(v: string): (r: string)
    ensures NoBreaks(r)
  {
    JoinLinesNoBreaks(DropCounts(DropHeaders(v, 0), 0));
    JoinLines(DropCounts(DropHeaders(v, 0), 0))
  }

  // ----- what the flattening removes (mimsify.py:46-48) -----

  /** The scanners stop where their run ends. */
  lemma {:induction false} DigitsEndAt(s: string, i: nat, e: nat)
    requires i <= e <= |s|
    requires forall j | i <= j < e :: IsDigit(s[j])
    requires e < |s| ==> !IsDigit(s[e])
    ensures DigitsEnd(s, i) == e
    decreases e - i
  {
    if i < e {
      DigitsEndAt(s, i + 1, e);
    }
  }

  lemma {:induction false} BreakEndAt(s: string, i: nat, e: nat)
    requires i <= e <= |s|
    requires forall j | i <= j < e :: IsNewline(s[j])
    requires e < |s| ==> !IsNewline(s[e])
    ensures BreakEnd(s, i) == e
    decreases e - i
  {
    if i < e {
      BreakEndAt(s, i + 1, e);
    }
  }

  lemma {:induction false} DotEndAt(s: string, i: nat, e: nat)
    requires i <= e <= |s|
    requires forall j | i <= j < e :: s[j] != '\n'
    requires e < |s| ==> s[e] == '\n'
    ensures DotEnd(s, i) == e
    decreases e - i
  {
    if i < e {
      DotEndAt(s, i + 1, e);
    }
  }

  /** The count scanner looks only forward from its position. */
  lemma CountAtShift(a: string, b: string, p: nat)
    requires p <= |b|
    ensures CountAt(a + b, |a| + p) == if CountAt(b, p).Some? then Some(|a| + CountAt(b, p).value) else None
  {
    if p + 2 < |b| {
      var e := DigitsEnd(b, p + 2);
      DigitsEndAt(a + b, |a| + p + 2, |a| + e);
    }
  }

  lemma SkipCount(s: string, p: nat, q: nat)
    requires p < |s| && CountAt(s, p) == Some(q)
    ensures DropCounts(s, p) == DropCounts(s, q)
  {
  }

  lemma KeepOne(s: string, p: nat)
    requires p < |s| && CountAt(s, p).None?
    ensures DropCounts(s, p) == [s[p]] + DropCounts(s, p + 1)
  {
  }

  lemma NothingLeft(s: string)
    ensures DropCounts(s, |s|) == []
  {
  }

  lemma {:induction false} DropCountsShift(a: string, b: string, p: nat)
    requires p <= |b|
    ensures DropCounts(a + b, |a| + p) == DropCounts(b, p)
    decreases |b| - p
  {
    if p < |b| {
      CountAtShift(a, b, p);
      match CountAt(b, p)
      case Some(q) =>
        SkipCount(a + b, |a| + p, |a| + q);
        SkipCount(b, p, q);
        DropCountsShift(a, b, q);
      case None =>
        KeepOne(a + b, |a| + p);
        KeepOne(b, p);
        assert (a + b)[|a| + p] == b[p];
        DropCountsShift(a, b, p + 1);
    } else {
      NothingLeft(a + b);
      NothingLeft(b);
    }
  }

  /** Where no count starts between `p` and `e`, that part of the text is kept. */
  lemma {:induction false} DropCountsKeeps(s: string, p: nat, e: nat)
    requires p <= e <= |s|
    requires forall i | p <= i < e :: CountAt(s, i).None?
    ensures DropCounts(s, p) == s[p..e] + DropCounts(s, e)
    decreases e - p
  {
    if p < e {
      KeepOne(s, p);
      DropCountsKeeps(s, p + 1, e);
      SliceFront(s, p, e);
      ConsAssoc(s[p], s[p + 1..e], DropCounts(s, e));
    }
  }

  /** No count starts inside a line that ends with a count: its digits would have to run
      on to the end of the line. */
  lemma NoCountBefore(l: string, d: string, rest: string, i: nat)
    requires forall j | 0 <= j < |l| :: l[j] != '\n'
    requires i < |l|
    ensures CountAt(l + " @" + d + rest, i).None?
  {
    var s := l + " @" + d + rest;
    assert s[|l|] == ' ';
    if i + 2 < |s| && s[i] == ' ' && s[i + 1] == '@' {
      var q := DigitsEnd(s, i + 2);
      assert q <= |l|;
      assert s[q] != '\n';
    }
  }

  lemma CountAtLineEnd(l: string, d: string, rest: string)
    requires IsDigits(d) && (|rest| == 0 || rest[0] == '\n')
    ensures CountAt(l + " @" + d + rest, |l|) == Some(|l| + 2 + |d|)
  {
    var s := l + " @" + d + rest;
    DigitsEndAt(s, |l| + 2, |l| + 2 + |d|);
  }

  /** A line ending in ` @` and digits loses exactly that count; the text after the line
      is scanned on its own. */
  lemma CountLineDropped(l: string, d: string, rest: string)
    requires forall j | 0 <= j < |l| :: l[j] != '\n'
    requires IsDigits(d) && (|rest| == 0 || rest[0] == '\n')
    ensures DropCounts(l + " @" + d + rest, 0) == l + DropCounts(rest, 0)
  {
    var a := l + " @" + d;
    var s := a + rest;
    forall i | 0 <= i < |l| ensures CountAt(s, i).None? {
      NoCountBefore(l, d, rest, i);
    }
    DropCountsKeeps(s, 0, |l|);
    assert s[0..|l|] == l;
    CountAtLineEnd(l, d, rest);
    SkipCount(s, |l|, |a|);
    DropCountsShift(a, rest, 0);
  }

  /** A text in which no ` @` occurs is not touched by the count removal. */
  lemma DropCountsNoAt(s: string)
    requires forall i | 0 <= i < |s| - 1 :: s[i] == ' ' ==> s[i + 1] != '@'
    ensures DropCounts(s, 0) == s
  {
    DropCountsKeeps(s, 0, |s|);
    NothingLeft(s);
    assert s[0..|s|] == s;
  }

  lemma {:induction false} JoinLinesPrefix(x: string, y: string)
    requires NoBreaks(x)
    ensures JoinLines(x + y) == x + JoinLines(y)
  {
    if |x| > 0 {
      assert (x + y)[1..] == x[1..] + y;
      JoinLinesPrefix(x[1..], y);
    } else {
      assert x + y == y;
    }
  }

  /** Two lines become one, with ` OR ` between them. */
  lemma JoinTwoLines(a: string, b: string)
    requires NoBreaks(a) && NoBreaks(b)
    ensures JoinLines(a + "\n" + b) == a + " OR " + b
  {
    var t := "\n" + b;
    JoinLinesPrefix(a, t);
    assert a + "\n" + b == a + t;
    BreakEndAt(t, 0, 1);
    assert t[1..] == b;
    JoinLinesOneLine(b);
  }

  lemma SeparatorNeedsDash(s: string, k: nat)
    requires k <= |s| && forall i | k <= i < |s| :: s[i] != '-'
    ensures SeparatorEnd(s, k).None?
  {
    if k < |s| && IsNewline(s[k]) {
      var q := BreakEnd(s, k);
      if q + 10 < |s| {
        assert !DashesAt(s, q);
      }
    }
  }

  lemma {:induction false} HeaderMatchNeedsDash(s: string, p: nat, k: nat)
    requires p <= k <= |s| && forall i | p <= i < |s| :: s[i] != '-'
    ensures HeaderMatch(s, p, k).None?
    decreases k
  {
    SeparatorNeedsDash(s, k);
    if k > p {
      HeaderMatchNeedsDash(s, p, k - 1);
    }
  }

  lemma HeaderAtNeedsDash(s: string, p: nat)
    requires p <= |s| && forall i | p <= i < |s| :: s[i] != '-'
    ensures HeaderAt(s, p).None?
  {
    HeaderMatchNeedsDash(s, p, DotEnd(s, p));
  }

  lemma KeepLine(s: string, p: nat)
    requires p < |s| && HeaderAt(s, p).None?
    ensures DropHeaders(s, p) == [s[p]] + DropHeaders(s, p + 1)
  {
  }

  /** A text without a dash has no header to remove. */
  lemma {:induction false} DropHeadersNoDash(s: string, p: nat)
    requires p <= |s| && forall i | p <= i < |s| :: s[i] != '-'
    ensures DropHeaders(s, p) == s[p..]
    decreases |s| - p
  {
    if p < |s| {
      HeaderAtNeedsDash(s, p);
      KeepLine(s, p);
      DropHeadersNoDash(s, p + 1);
      SliceRest(s, p);
    }
  }

  /** The header: a first line, a line break, ten dashes and a line break, in front of a
      body that does not start with a line break, is matched as a whole. */
  lemma HeaderFirst(h: string, body: string)
    requires NoBreaks(h) && (|body| == 0 || !IsNewline(body[0]))
    ensures HeaderAt(h + "\n" + Dashes + "\n" + body, 0) == Some(|h| + 12)
  {
    var v := h + "\n" + Dashes + "\n" + body;
    var k := |h|;
    DotEndAt(v, 0, k);
    BreakEndAt(v, k, k + 1);
    assert DashesAt(v, k + 1);
    BreakEndAt(v, k + 11, k + 12);
    assert SeparatorEnd(v, k) == Some(k + 12);
  }

  /** The header and the dash line go; the body after them stays. */
  lemma HeaderGone(h: string, body: string)
    requires NoBreaks(h) && (|body| == 0 || !IsNewline(body[0]))
    requires forall i | 0 <= i < |body| :: body[i] != '-'
    ensures DropHeaders(h + "\n" + Dashes + "\n" + body, 0) == body
  {
    var v := h + "\n" + Dashes + "\n" + body;
    HeaderFirst(h, body);
    assert DropHeaders(v, 0) == DropHeaders(v, |h| + 12);
    assert v[|h| + 12..] == body;
    DropHeadersNoDash(v, |h| + 12);
  }

  /** Both readings lose their vote counts; the line break between them stays. */
  lemma TwoCountsDropped(a: string, m: string, b: string, n: string)
    requires NoBreaks(a) && NoBreaks(b) && IsDigits(m) && IsDigits(n)
    ensures DropCounts(a + " @" + m + "\n" + b + " @" + n, 0) == a + "\n" + b
  {
    var second := b + " @" + n;
    var rest := "\n" + second;
    assert a + " @" + m + "\n" + b + " @" + n == a + " @" + m + rest;
    CountLineDropped(a, m, rest);
    KeepOne(rest, 0);
    DropCountsShift("\n", second, 0);
    assert second == b + " @" + n + "";
    CountLineDropped(b, n, "");
    NothingLeft("");
  }

  /** The flattening of an unresolved value with two candidate readings: the header line
      with the most likely reading and the dashes go, each reading loses its ` @N` vote
      count, and the readings are joined by ` OR `. */
  lemma FlattenAlternatives(h: string, a: string, m: string, b: string, n: string)
    requires NoBreaks(h) && NoBreaks(a) && NoBreaks(b)
    requires forall i | 0 <= i < |a| :: a[i] != '-'
    requires forall i | 0 <= i < |b| :: b[i] != '-'
    requires IsDigits(m) && IsDigits(n)
    ensures Flatten(h + "\n" + Dashes + "\n" + a + " @" + m + "\n" + b + " @" + n) == a + " OR " + b
  {
    var body := a + " @" + m + "\n" + b + " @" + n;
    assert h + "\n" + Dashes + "\n" + a + " @" + m + "\n" + b + " @" + n
      == h + "\n" + Dashes + "\n" + body;
    assert forall i | 0 <= i < |body| :: body[i] != '-' by {
      assert forall i | 0 <= i < |m| :: IsDigit(m[i]);
      assert forall i | 0 <= i < |n| :: IsDigit(n[i]);
    }
    assert |body| == 0 || !IsNewline(body[0]);
    HeaderGone(h, body);
    TwoCountsDropped(a, m, b, n);
    JoinTwoLines(a, b);
  }

  /** The header removal always deletes the first line of an unresolved value with its
      separator: the first match starts at the beginning and ends after the first line. */
  lemma UnresolvedHeaderRemoved(v: string)
    requires IsUnresolved(v)
    ensures HeaderAt(v, 0).Some?
    ensures HeaderAt(v, 0).value > FirstBreak(v)
    ensures |v| > 0 && DropHeaders(v, 0) == DropHeaders(v, HeaderAt(v, 0).value)
  {
    var k0 := FirstBreak(v);
    var e := DotEnd(v, 0);
    if e < k0 {
      assert IsNewline(v[e]);
    }
    HeaderMatchFinds(v, 0, k0, e);
  }

  lemma {:induction false} HeaderMatchFinds(s: string, p: nat, k0: nat, k: nat)
    requires p <= k0 <= k <= |s| && SeparatorEnd(s, k0).Some?
    ensures HeaderMatch(s, p, k).Some? && HeaderMatch(s, p, k).value > k0
    decreases k
  {
    if SeparatorEnd(s, k).None? {
      assert k != k0;
      HeaderMatchFinds(s, p, k0, k - 1);
    }
  }

  // ----- dates (mimsify.py:54-63) -----

  datatype Date = Date(day: nat, month: nat, year: nat)

  /** The English month abbreviations that `%b` accepts, in lower case. */
  const MonthAbbrs: seq<string> :=
    ["jan", "feb", "mar", "apr", "may", "jun", "jul", "aug", "sep", "oct", "nov", "dec"]

  /** The month (1 to 12) that a three-letter text names, in any ASCII case; 0 for none. */
  function MonthOf(s: string): (m: nat)
    ensures m <= 12
    ensures 1 <= m ==> LowerString(s) == MonthAbbrs[m - 1]
    ensures m == 0 ==> LowerString(s) !in MonthAbbrs
  {
    var l := LowerString(s);
    if |l| != 3 then 0
    else
      var m := MonthCode(l[0], l[1], l[2]);
      assert l == [l[0], l[1], l[2]];
      m
  }

  /** The month whose lower-case abbreviation is the three letters `a`, `b`, `c`. */
  function MonthCode(a: char, b: char, c: char): (m: nat)
    ensures m <= 12
    ensures 1 <= m ==> [a, b, c] == MonthAbbrs[m - 1]
    ensures m == 0 ==> [a, b, c] !in MonthAbbrs
  {
    if a == 'j' && b == 'a' && c == 'n' then 1
    else if a == 'f' && b == 'e' && c == 'b' then 2
    else if a == 'm' && b == 'a' && c == 'r' then 3
    else if a == 'a' && b == 'p' && c == 'r' then 4
    else if a == 'm' && b == 'a' && c == 'y' then 5
    else if a == 'j' && b == 'u' && c == 'n' then 6
    else if a == 'j' && b == 'u' && c == 'l' then 7
    else if a == 'a' && b == 'u' && c == 'g' then 8
    else if a == 's' && b == 'e' && c == 'p' then 9
    else if a == 'o' && b == 'c' && c == 't' then 10
    else if a == 'n' && b == 'o' && c == 'v' then 11
    else if a == 'd' && b == 'e' && c == 'c' then 12
    else 0
  }

  predicate IsLeap(y: nat)
  {
    y % 4 == 0 && (y % 100 != 0 || y % 400 == 0)
  }

  function DaysIn(month: nat, year: nat): nat
    requires 1 <= month <= 12
  {
    if month == 2 then (if IsLeap(year) then 29 else 28)
    else if month == 4 || month == 6 || month == 9 || month == 11 then 30
    else 31
  }

  /** What `datetime` accepts: a real day of a real month of the years 1 to 9999. */
  predicate ValidDate(d: Date)
  {
    1 <= d.month <= 12 && 1 <= d.day <= DaysIn(d.month, d.year) && 1 <= d.year <= 9999
  }

  /** `\s+(\d\d\d\d)` at `t`: the year and the end of the match. */
  function YearAt(s: string, t: nat): (r: Option<(nat, nat)>)
    requires t <= |s|
    ensures r.Some? ==> r.value.0 <= 9999 && t < r.value.1 <= |s|
  {
    var u := t + LeadingSpace(s[t..]);
    if u > t && u + 4 <= |s| && AllDigits(s[u..u + 4]) then
      DigitsBound(s[u..u + 4]);
      assert Pow10(4) == 10000;
      Some((DigitsValue(s[u..u + 4]), u + 4))
    else None
  }

  lemma {:induction false} DigitsBound(s: string)
    requires AllDigits(s)
    ensures DigitsValue(s) < Pow10(|s|)
  {
    if |s| > 0 {
      DigitsBound(s[..|s| - 1]);
    }
  }

  function Pow10(n: nat): nat
  {
    if n == 0 then 1 else 10 * Pow10(n - 1)
  }

  /** `%d\s+%Y` at `j`, where `%d` is `3[01]|[12]\d|0[1-9]|[1-9]| [1-9]` tried in that
      order: the day, the year and the end of the match. Position `j` follows a greedy
      `\s+`, so the last alternative never applies, and backtracking into the `\s+` only
      offers it the chances that `[1-9]` already had. */
  function DayYearAt(s: string, j: nat): (r: Option<(nat, nat, nat)>)
    requires j <= |s|
    ensures r.Some? ==> 1 <= r.value.0 <= 31 && r.value.1 <= 9999 && j < r.value.2 <= |s|
  {
    var two := j + 2 <= |s| && IsDigit(s[j]) && IsDigit(s[j + 1]);
    if two && s[j] == '3' && (s[j + 1] == '0' || s[j + 1] == '1') && YearAt(s, j + 2).Some? then
      var (y, e) := YearAt(s, j + 2).value;
      Some((30 + DigitValue(s[j + 1]), y, e))
    else if two && (s[j] == '1' || s[j] == '2') && YearAt(s, j + 2).Some? then
      var (y, e) := YearAt(s, j + 2).value;
      Some((10 * DigitValue(s[j]) + DigitValue(s[j + 1]), y, e))
    else if two && s[j] == '0' && s[j + 1] != '0' && YearAt(s, j + 2).Some? then
      var (y, e) := YearAt(s, j + 2).value;
      Some((DigitValue(s[j + 1]), y, e))
    else if j < |s| && IsDigit(s[j]) && s[j] != '0' && YearAt(s, j + 1).Some? then
      var (y, e) := YearAt(s, j + 1).value;
      Some((DigitValue(s[j]), y, e))
    else None
  }

  /** `datetime.strptime(s, '%b %d %Y')`: the whole text must be consumed and the date
      must exist; None stands for the ValueError. */
  function ParseDate(s: string): (r: Option<Date>)
    ensures r.Some? ==> ValidDate(r.value)
  {
    if |s| < 3 then None
    else
      var m := MonthOf(s[..3]);
      var n := LeadingSpace(s[3..]);
      if m == 0 || n == 0 then None
      else
        match DayYearAt(s, 3 + n)
        case None => None
        case Some((d, y, e)) =>
          if e == |s| && ValidDate(Date(d, m, y)) then Some(Date(d, m, y)) else None
  }

  /** `strftime('%d-%m-%Y')`: day and month in two digits, then the year (the C library's
      `%Y` does not pad years below 1000). */
  function FormatDate(d: Date): (r: string)
    requires ValidDate(d)
    ensures |r| == 6 + |NatToString(d.year)|
    ensures r[2] == '-' && r[5] == '-'
    ensures AllDigits(r[..2]) && DigitsValue(r[..2]) == d.day
    ensures AllDigits(r[3..5]) && DigitsValue(r[3..5]) == d.month
    ensures IsDigits(r[6..]) && DigitsValue(r[6..]) == d.year
  {
    var r := Pad2(d.day) + "-" + Pad2(d.month) + "-" + NatToString(d.year);
    assert r[..2] == Pad2(d.day);
    assert r[3..5] == Pad2(d.month);
    assert r[6..] == NatToString(d.year);
    NatToStringValue(d.year);
    r
  }

  const MonthNames: seq<string> :=
    ["Jan", "Feb", "Mar", "Apr", "May", "Jun", "Jul", "Aug", "Sep", "Oct", "Nov", "Dec"]

  /** The form the transcriptions use, such as "Apr 01 1800". */
  function Written(d: Date): string
    requires ValidDate(d)
  {
    MonthNames[d.month - 1] + " " + Pad2(d.day) + " " + NatToString(d.year)
  }

  lemma MonthNamesRead(m: nat)
    requires 1 <= m <= 12
    ensures |MonthNames[m - 1]| == 3 && MonthOf(MonthNames[m - 1]) == m
  {
    var n := MonthNames[m - 1];
    MonthOfLetters(n);
    var a, b, c := ToLower(n[0]), ToLower(n[1]), ToLower(n[2]);
    assert MonthCode(a, b, c) == m;
  }

  lemma MonthOfLetters(s: string)
    requires |s| == 3
    ensures MonthOf(s) == MonthCode(ToLower(s[0]), ToLower(s[1]), ToLower(s[2]))
  {
  }

  lemma {:induction false} FourDigitYear(y: nat)
    requires 1000 <= y <= 9999
    ensures |NatToString(y)| == 4
  {
    var a := y / 10;
    var b := a / 10;
    var c := b / 10;
    assert 100 <= a <= 999 && 10 <= b <= 99 && 1 <= c <= 9;
    assert |NatToString(b)| == |NatToString(c)| + 1;
    assert |NatToString(a)| == |NatToString(b)| + 1;
    assert |NatToString(y)| == |NatToString(a)| + 1;
  }

  /** Every date written in the transcribers' form, with a four-digit year, is read back
      as itself. */
  lemma ParseWritten(d: Date)
    requires ValidDate(d) && 1000 <= d.year
    ensures ParseDate(Written(d)) == Some(d)
  {
    var s := Written(d);
    MonthNamesRead(d.month);
    WrittenYear(d);
    WrittenDay(d);
    assert MonthOf(s[..3]) == d.month;
  }

  lemma WrittenYear(d: Date)
    requires ValidDate(d) && 1000 <= d.year
    ensures var s := Written(d);
      |s| == 11 && s[..3] == MonthNames[d.month - 1] && LeadingSpace(s[3..]) == 1
      && YearAt(s, 6) == Some((d.year, 11))
  {
    var s := Written(d);
    WrittenShape(d);
    OneSpace(s[3..]);
    OneSpace(s[6..]);
    NatToStringValue(d.year);
    assert s[7..11] == s[7..];
  }

  /** Where the parts of a written date with a four-digit year lie. */
  lemma WrittenShape(d: Date)
    requires ValidDate(d) && 1000 <= d.year
    ensures var s := Written(d);
      && |s| == 11 && s[..3] == MonthNames[d.month - 1]
      && s[3] == ' ' && s[4..6] == Pad2(d.day) && IsDigit(s[4])
      && s[6] == ' ' && s[7..] == NatToString(d.year) && IsDigit(s[7])
  {
    MonthNamesRead(d.month);
    FourDigitYear(d.year);
    var yy := NatToString(d.year);
    assert IsDigit(yy[0]);
  }

  /** The leading run of spaces stops at or before any character that is not a space. */
  lemma {:induction false} LeadingSpaceBound(t: string, j: nat)
    requires j < |t| && !IsSpace(t[j])
    ensures LeadingSpace(t) <= j
  {
    if IsSpace(t[0]) {
      LeadingSpaceBound(t[1..], j - 1);
    }
  }

  lemma OneSpace(t: string)
    requires |t| >= 2 && t[0] == ' ' && IsDigit(t[1])
    ensures LeadingSpace(t) == 1
  {
    LeadingSpaceBound(t, 1);
  }

  lemma WrittenDay(d: Date)
    requires ValidDate(d) && 1000 <= d.year
    ensures DayYearAt(Written(d), 4) == Some((d.day, d.year, 11))
  {
    var s := Written(d);
    WrittenYear(d);
    WrittenShape(d);
    var hi, lo := DigitChar(d.day / 10), DigitChar(d.day % 10);
    assert s[4] == hi && s[5] == lo;
    assert hi == "0123"[d.day / 10];
  }

  // ----- normalising one field (mimsify.py:25-75) -----

  /** The command-line switches that affect the output: `--unresolved`,
      `--no-blanks-warnings` and `--pages` (None when not given). */
  datatype Options = Options(unresolved: bool, noBlanksWarnings: bool, pages: Option<int>)

  /** The warnings written to standard error, in the order of writing. */
  datatype Warning =
    | NonBlankPort(value: string)
    | Blank(field: string)
    | BadDate(value: string)
    | Semicolons(field: string, value: string)

  /** Why a run stops with a failure: no data row, a field missing from the header (a
      KeyError), or an unresolved value without `--unresolved` (exit status 1). */
  datatype Failure = NoRows | MissingField(field: string) | UnresolvedField(field: string)

  predicate IsDateField(field: string)
  {
    field == "date of entry" || field == "date of discharge"
  }

  /** Where a blank is expected: "port sailed out of" in volume 1, and `Autoresolved`. */
  predicate BlankExempt(field: string, volume: string)
  {
    (volume == "1" && field == "port sailed out of") || field == Autoresolved
  }

  datatype FieldResult = FieldResult(value: Option<string>, warnings: seq<Warning>)

  /** The value of a stripped field before its semicolons are replaced, with the bad-date
      warning; None when the value is unresolved and that is not permitted. */
  function Converted(field: string, v: string, opts: Options): FieldResult
  {
    if IsUnresolved(v) then
      if opts.unresolved then FieldResult(Some(Flatten(v)), []) else FieldResult(None, [])
    else if IsDateField(field) && v != "" then
      match ParseDate(v)
      case Some(d) => FieldResult(Some(FormatDate(d)), [])
      case None => FieldResult(Some(v), [BadDate(v)])
    else FieldResult(Some(v), [])
  }

  /** One pass of the loop in `normalize`: the normalised value of `field` (None when the
      run exits) and the warnings written for it. */
  function NormalizeField(field: string, raw: string, volume: string, opts: Options): (r: FieldResult)
    ensures r.value.None? <==> IsUnresolved(Strip(raw)) && !opts.unresolved
    ensures r.value.Some? ==> ';' !in r.value.value
  {
    var v := Strip(raw);
    var checks := FieldChecks(field, v, volume, opts);
    var c := Converted(field, v, opts);
    if c.value.None? then FieldResult(None, checks)
    else
      var x := c.value.value;
      FieldResult(Some(ReplaceChar(x, ';', ':')), checks + (c.warnings + SemicolonCheck(field, v, x)))
  }

  /** The warnings written before the conversion: a non-blank port in volume 1, then an
      unexpected blank. */
  function FieldChecks(field: string, v: string, volume: string, opts: Options): seq<Warning>
  {
    (if field == "port sailed out of" && volume == "1" && v != "" then [NonBlankPort(v)] else [])
    + (if !opts.noBlanksWarnings && v == "" && !BlankExempt(field, volume) then [Blank(field)] else [])
  }

  /** The warning about semicolons replaced where none are expected. */
  function SemicolonCheck(field: string, v: string, x: string): seq<Warning>
  {
    if ';' in x && field != "years at sea" && field != Autoresolved then [Semicolons(field, v)] else []
  }

  /** The warnings about blanks: a blank is reported unless warnings are off or the
      field is one where a blank is expected; a non-blank "port sailed out of" in
      volume 1 is reported. */
  lemma NormalizeFieldWarnings(field: string, raw: string, volume: string, opts: Options)
    ensures var r := NormalizeField(field, raw, volume, opts);
      (Blank(field) in r.warnings <==>
        !opts.noBlanksWarnings && Strip(raw) == "" && !BlankExempt(field, volume))
      && (NonBlankPort(Strip(raw)) in r.warnings <==>
        field == "port sailed out of" && volume == "1" && Strip(raw) != "")
  {
    BlankWarning(field, raw, volume, opts);
    PortWarning(field, raw, volume, opts);
  }

  lemma BlankWarning(field: string, raw: string, volume: string, opts: Options)
    ensures Blank(field) in NormalizeField(field, raw, volume, opts).warnings <==>
      !opts.noBlanksWarnings && Strip(raw) == "" && !BlankExempt(field, volume)
  {
    var v := Strip(raw);
    var checks := FieldChecks(field, v, volume, opts);
    assert Blank(field) in checks <==> !opts.noBlanksWarnings && v == "" && !BlankExempt(field, volume);
    LaterWarnings(field, raw, volume, opts);
  }

  lemma PortWarning(field: string, raw: string, volume: string, opts: Options)
    ensures NonBlankPort(Strip(raw)) in NormalizeField(field, raw, volume, opts).warnings <==>
      field == "port sailed out of" && volume == "1" && Strip(raw) != ""
  {
    var v := Strip(raw);
    var checks := FieldChecks(field, v, volume, opts);
    assert NonBlankPort(v) in checks <==> field == "port sailed out of" && volume == "1" && v != "";
    LaterWarnings(field, raw, volume, opts);
  }

  /** After the checks come only bad-date and semicolon warnings. */
  lemma LaterWarnings(field: string, raw: string, volume: string, opts: Options)
    ensures var v := Strip(raw);
      var ws := NormalizeField(field, raw, volume, opts).warnings;
      var checks := FieldChecks(field, v, volume, opts);
      |checks| <= |ws| && ws[..|checks|] == checks
      && forall w | w in ws[|checks|..] :: w.BadDate? || w.Semicolons?
  {
    var v := Strip(raw);
    ConvertedWarnings(field, v, opts);
  }

  /** The only warning a conversion writes is about a bad date. */
  lemma ConvertedWarnings(field: string, v: string, opts: Options)
    ensures Converted(field, v, opts).warnings == [] || Converted(field, v, opts).warnings == [BadDate(v)]
  {
  }

  /** The value of a field that is not unresolved: dates in DD-MM-YYYY form when they
      parse, kept as they are otherwise, blank dates blank, and any other field the
      stripped text; in every case with `;` turned into `:`. */
  lemma NormalizeFieldValue(field: string, raw: string, volume: string, opts: Options)
    requires !IsUnresolved(Strip(raw))
    ensures var r := NormalizeField(field, raw, volume, opts);
      var v := Strip(raw);
      r.value.Some?
      && (!IsDateField(field) || v == "" ==> r.value.value == ReplaceChar(v, ';', ':'))
      && (IsDateField(field) && ParseDate(v).Some? ==> r.value.value == FormatDate(ParseDate(v).value))
      && (IsDateField(field) && v != "" && ParseDate(v).None? ==>
            r.value.value == ReplaceChar(v, ';', ':') && BadDate(v) in r.warnings)
  {
    var v := Strip(raw);
    if IsDateField(field) && ParseDate(v).Some? {
      assert v != "";
      FormatDateText(ParseDate(v).value);
    }
  }

  /** An unresolved value, where permitted, is flattened onto one line. */
  lemma NormalizeFieldFlattened(field: string, raw: string, volume: string, opts: Options)
    requires IsUnresolved(Strip(raw)) && opts.unresolved
    ensures var r := NormalizeField(field, raw, volume, opts);
      r.value == Some(ReplaceChar(Flatten(Strip(raw)), ';', ':')) && NoBreaks(r.value.value)
  {
    var v := Strip(raw);
    assert Converted(field, v, opts) == FieldResult(Some(Flatten(v)), []);
    ReplaceNoBreaks(Flatten(v));
  }

  /** Turning `;` into `:` adds no line break. */
  lemma ReplaceNoBreaks(x: string)
    requires NoBreaks(x)
    ensures NoBreaks(ReplaceChar(x, ';', ':'))
  {
    var y := ReplaceChar(x, ';', ':');
    assert forall i | 0 <= i < |y| :: y[i] == x[i] || y[i] == ':';
  }

  /** A formatted date is digits and dashes only. */
  lemma FormatDateText(d: Date)
    requires ValidDate(d)
    ensures forall i | 0 <= i < |FormatDate(d)| :: FormatDate(d)[i] == '-' || IsDigit(FormatDate(d)[i])
  {
    var r := FormatDate(d);
    forall i | 0 <= i < |r| ensures r[i] == '-' || IsDigit(r[i]) {
      if i < 2 {
        assert r[i] == r[..2][i];
      } else if 2 < i < 5 {
        assert r[i] == r[3..5][i - 3];
      } else if 5 < i {
        assert r[i] == r[6..][i - 6];
      }
    }
  }

  // ----- one row (mimsify.py:25-27, 84-87) -----

  /** One data row of the joined table: its volume and page columns and the other cells
      by column name. */
  datatype Record = Record(volume: string, page: string, cells: map<string, string>)

  /** What `normalize` has produced after the given fields: the normalised values, the
      warnings, and the failure that ended it, if any. */
  datatype RowResult = RowResult(values: map<string, string>, warnings: seq<Warning>, failure: Option<Failure>)

  /** `normalize` over `fields`, field after field; the first failure ends it. */
  function NormalizeSpec(r: Record, fields: seq<string>, opts: Options): RowResult
  {
    if |fields| == 0 then RowResult(map[], [], None)
    else
      var prev := NormalizeSpec(r, fields[..|fields| - 1], opts);
      var f := fields[|fields| - 1];
      if prev.failure.Some? then prev
      else if f !in r.cells then RowResult(prev.values, prev.warnings, Some(MissingField(f)))
      else
        var fr := NormalizeField(f, r.cells[f], r.volume, opts);
        if fr.value.None? then RowResult(prev.values, prev.warnings + fr.warnings, Some(UnresolvedField(f)))
        else RowResult(prev.values[f := fr.value.value], prev.warnings + fr.warnings, None)
  }

  /** `normalize`: the loop over the fields that fills `normalized_row`. */
  method Normalize(r: Record, fields: seq<string>, opts: Options) returns (res: RowResult)
    ensures res == NormalizeSpec(r, fields, opts)
  {
    var values: map<string, string> := map[];
    var warnings: seq<Warning> := [];
    var i := 0;
    while i < |fields|
      invariant 0 <= i <= |fields|
      invariant NormalizeSpec(r, fields[..i], opts) == RowResult(values, warnings, None)
    {
      assert fields[..i + 1][..i] == fields[..i];
      var f := fields[i];
      if f !in r.cells {
        NormalizeSpecFailed(r, fields, opts, i + 1);
        return RowResult(values, warnings, Some(MissingField(f)));
      }
      var fr := NormalizeField(f, r.cells[f], r.volume, opts);
      warnings := warnings + fr.warnings;
      if fr.value.None? {
        NormalizeSpecFailed(r, fields, opts, i + 1);
        return RowResult(values, warnings, Some(UnresolvedField(f)));
      }
      values := values[f := fr.value.value];
      i := i + 1;
    }
    assert fields[..i] == fields;
    return RowResult(values, warnings, None);
  }

  lemma {:induction false} NormalizeSpecFailed(r: Record, fields: seq<string>, opts: Options, n: nat)
    requires n <= |fields| && NormalizeSpec(r, fields[..n], opts).failure.Some?
    ensures NormalizeSpec(r, fields, opts) == NormalizeSpec(r, fields[..n], opts)
    decreases |fields| - n
  {
    if n < |fields| {
      assert fields[..n + 1][..n] == fields[..n];
      NormalizeSpecFailed(r, fields, opts, n + 1);
    } else {
      assert fields[..n] == fields;
    }
  }

  /** A row normalises exactly when every field is a column and none is unresolved
      (or `--unresolved` is given); it then holds each field's normalised value. */
  lemma {:induction false} NormalizeSpecMeaning(r: Record, fields: seq<string>, opts: Options)
    ensures NormalizeSpec(r, fields, opts).failure.None? <==>
      forall f | f in fields :: f in r.cells && NormalizeField(f, r.cells[f], r.volume, opts).value.Some?
    ensures NormalizeSpec(r, fields, opts).failure.None? ==>
      var vs := NormalizeSpec(r, fields, opts).values;
      (forall f :: f in vs <==> f in fields)
      && forall f | f in fields :: vs[f] == NormalizeField(f, r.cells[f], r.volume, opts).value.value
  {
    if |fields| > 0 {
      var p := fields[..|fields| - 1];
      NormalizeSpecMeaning(r, p, opts);
      assert fields == p + [fields[|fields| - 1]];
    }
  }

  /** One `field, value` pair of the written row. */
  function Pair(fields: seq<string>, values: map<string, string>, i: nat): string
    requires i < |fields|
  {
    fields[i] + ", " + (if fields[i] in values then values[fields[i]] else "")
  }

  /** What `next_row` writes: the pairs in field order, joined by `; `, then `;`. */
  function RowText(fields: seq<string>, values: map<string, string>): string
  {
    Join("; ", seq(|fields|, i requires 0 <= i < |fields| => Pair(fields, values, i))) + ";"
  }

  /** The pieces of `s` between its semicolons (`s.split(';')`). */
  function SplitSemis(s: string): (r: seq<string>)
    ensures |r| > 0
    decreases |s|
  {
    var k := FindChar(s, ';');
    if k == |s| then [s] else [s[..k]] + SplitSemis(s[k + 1..])
  }

  /** A semicolon put between two texts separates their pieces. */
  lemma {:induction false} SplitSemisConcat(x: string, y: string)
    ensures SplitSemis(x + ";" + y) == SplitSemis(x) + SplitSemis(y)
    decreases |x|
  {
    if ';' !in x {
      SplitSemisFirst(x, y);
    } else {
      var k := FindChar(x, ';');
      var rest := x[k + 1..];
      SplitSemisLater(x, y, k);
      SplitSemisConcat(rest, y);
      ConcatAssoc([x[..k]], SplitSemis(rest), SplitSemis(y));
    }
  }

  lemma ConcatAssoc(a: seq<string>, b: seq<string>, c: seq<string>)
    ensures a + (b + c) == (a + b) + c
  {
  }

  lemma SplitSemisFirst(x: string, y: string)
    requires ';' !in x
    ensures SplitSemis(x + ";" + y) == SplitSemis(x) + SplitSemis(y)
  {
    var s := x + ";" + y;
    assert s[..|x|] == x;
    SplitSemisAt(s, |x|);
    assert s[|x| + 1..] == y;
  }

  lemma SplitSemisLater(x: string, y: string, k: nat)
    requires k < |x| && x[k] == ';' && ';' !in x[..k]
    ensures SplitSemis(x + ";" + y) == [x[..k]] + SplitSemis(x[k + 1..] + ";" + y)
    ensures SplitSemis(x) == [x[..k]] + SplitSemis(x[k + 1..])
  {
    var s := x + ";" + y;
    assert s[..k] == x[..k];
    SplitSemisAt(s, k);
    SplitSemisAt(x, k);
    assert s[k + 1..] == x[k + 1..] + ";" + y;
  }

  /** The first piece ends at the first semicolon. */
  lemma SplitSemisAt(s: string, k: nat)
    requires k < |s| && s[k] == ';' && ';' !in s[..k]
    ensures SplitSemis(s) == [s[..k]] + SplitSemis(s[k + 1..])
  {
    FindCharAt(s, ';', k);
  }

  lemma FindCharAt(s: string, c: char, k: nat)
    requires k < |s| && s[k] == c && c !in s[..k]
    ensures FindChar(s, c) == k
  {
  }

  lemma SplitSemisLeading(y: string)
    ensures SplitSemis(";" + y) == [""] + SplitSemis(y)
  {
    assert (";" + y)[1..] == y;
  }

  lemma SplitSemisPlain(y: string)
    requires ';' !in y
    ensures SplitSemis(y) == [y]
  {
  }

  function AfterFirst(pairs: seq<string>): (r: seq<string>)
    requires |pairs| > 0
    ensures |r| == |pairs| - 1 && forall i | 0 <= i < |r| :: r[i] == " " + pairs[i + 1]
  {
    seq(|pairs| - 1, i requires 0 <= i < |pairs| - 1 => " " + pairs[i + 1])
  }

  /** Reading a written row back: split at its semicolons it gives the pairs again (each
      after the first with the space of the `; ` separator) and an empty last piece, as
      neither field names nor normalised values contain a semicolon. */
  lemma RowTextSplits(fields: seq<string>, values: map<string, string>)
    requires |fields| > 0
    requires forall f | f in fields :: f in values && ';' !in f && ';' !in values[f]
    ensures var pairs := seq(|fields|, i requires 0 <= i < |fields| => Pair(fields, values, i));
      SplitSemis(RowText(fields, values)) == [pairs[0]] + AfterFirst(pairs) + [""]
  {
    var pairs := seq(|fields|, i requires 0 <= i < |fields| => Pair(fields, values, i));
    forall i | 0 <= i < |fields| ensures ';' !in pairs[i] {
      assert fields[i] in fields;
    }
    JoinSplits(pairs);
    SplitSemisConcat(Join("; ", pairs), "");
    assert RowText(fields, values) == Join("; ", pairs) + ";" + "";
  }

  lemma AfterFirstSnoc(pairs: seq<string>)
    requires |pairs| > 1
    ensures AfterFirst(pairs) == AfterFirst(pairs[..|pairs| - 1]) + [" " + pairs[|pairs| - 1]]
  {
    var p := pairs[..|pairs| - 1];
    var a, b := AfterFirst(pairs), AfterFirst(p) + [" " + pairs[|pairs| - 1]];
    assert forall i | 0 <= i < |a| :: a[i] == b[i];
  }

  lemma SemicolonSpace(a: string, b: string)
    ensures a + "; " + b == a + ";" + (" " + b)
  {
    assert "; " == ";" + " ";
  }

  lemma {:induction false} JoinSplits(pairs: seq<string>)
    requires |pairs| > 0 && forall i | 0 <= i < |pairs| :: ';' !in pairs[i]
    ensures SplitSemis(Join("; ", pairs)) == [pairs[0]] + AfterFirst(pairs)
  {
    if |pairs| == 1 {
      SplitSemisPlain(pairs[0]);
    } else {
      var p := pairs[..|pairs| - 1];
      var last := pairs[|pairs| - 1];
      JoinSplits(p);
      assert Join("; ", pairs) == Join("; ", p) + "; " + last;
      SemicolonSpace(Join("; ", p), last);
      SplitSemisPlain(" " + last);
      SplitSemisConcat(Join("; ", p), " " + last);
      AfterFirstSnoc(pairs);
      ConcatAssoc([pairs[0]], AfterFirst(p), [" " + last]);
    }
  }

  // ----- pages and the run (mimsify.py:77-82, 126-150) -----

  /** What `next_page` writes at the start of a page line. */
  function Header(r: Record): string
  {
    "DSH/" + r.volume + "/" + r.page + ","
  }

  predicate SamePage(a: Record, b: Record)
  {
    a.volume == b.volume && a.page == b.page
  }

  /** Row `k` begins a page: it is the first row, or its volume or page differs from the
      row before (the input is taken to be grouped by page, as the joined table is). */
  predicate StartsPage(rows: seq<Record>, k: nat)
    requires k < |rows|
  {
    k == 0 || !SamePage(rows[k - 1], rows[k])
  }

  /** What is written before row `k`'s pairs: the header for the first row, a space on the
      same page, a line break and a header on a new page. */
  function Lead(rows: seq<Record>, k: nat): string
    requires k < |rows|
  {
    if k == 0 then Header(rows[0])
    else if SamePage(rows[k - 1], rows[k]) then " "
    else "\n" + Header(rows[k])
  }

  /** The indices below `n` of the rows that begin a page. */
  function Starts(rows: seq<Record>, n: nat): (st: seq<nat>)
    requires n <= |rows|
    ensures |st| <= n
  {
    if n == 0 then []
    else Starts(rows, n - 1) + (if StartsPage(rows, n - 1) then [n - 1] else [])
  }

  /** The run stops before row `k` under `--pages`: `k` begins a page and exactly
      `pages` pages lie before it. */
  predicate StopsAt(rows: seq<Record>, pages: Option<int>, k: nat)
    requires k < |rows|
  {
    pages.Some? && StartsPage(rows, k) && |Starts(rows, k)| == pages.value
  }

  /** The outcome of `normalize` for every row. */
  function Results(rows: seq<Record>, fields: seq<string>, opts: Options): (rs: seq<RowResult>)
    ensures |rs| == |rows|
    ensures forall j | 0 <= j < |rows| :: rs[j] == NormalizeSpec(rows[j], fields, opts)
  {
    seq(|rows|, j requires 0 <= j < |rows| => NormalizeSpec(rows[j], fields, opts))
  }

  /** The row, from `k` on, at which the run ends: the first that stops it under
      `--pages` or fails to normalise, or `|rows|`. */
  function EndRow(rows: seq<Record>, rs: seq<RowResult>, pages: Option<int>, k: nat): (e: nat)
    requires |rs| == |rows| && k <= |rows|
    ensures k <= e <= |rows|
    ensures forall j | k <= j < e :: !StopsAt(rows, pages, j) && rs[j].failure.None?
    ensures e < |rows| ==> StopsAt(rows, pages, e) || rs[e].failure.Some?
    decreases |rows| - k
  {
    if k == |rows| || StopsAt(rows, pages, k) || rs[k].failure.Some? then k
    else EndRow(rows, rs, pages, k + 1)
  }

  /** No row before `k` stops the run or fails to normalise. */
  predicate Clear(rows: seq<Record>, rs: seq<RowResult>, pages: Option<int>, k: nat)
    requires |rs| == |rows| && k <= |rows|
  {
    k == 0 || (Clear(rows, rs, pages, k - 1) && !StopsAt(rows, pages, k - 1) && rs[k - 1].failure.None?)
  }

  /** The run ends at `e` when every row before `e` goes through and `e` does not. */
  lemma {:induction false} EndRowAt(rows: seq<Record>, rs: seq<RowResult>, pages: Option<int>, e: nat)
    requires |rs| == |rows| && e <= |rows|
    requires Clear(rows, rs, pages, e)
    requires e < |rows| ==> StopsAt(rows, pages, e) || rs[e].failure.Some?
    ensures EndRow(rows, rs, pages, 0) == e
  {
    ClearAll(rows, rs, pages, e);
    EndRowUp(rows, rs, pages, 0, e);
  }

  lemma {:induction false} ClearAll(rows: seq<Record>, rs: seq<RowResult>, pages: Option<int>, k: nat)
    requires |rs| == |rows| && k <= |rows|
    requires Clear(rows, rs, pages, k)
    ensures forall j | 0 <= j < k :: !StopsAt(rows, pages, j) && rs[j].failure.None?
  {
    if k > 0 {
      ClearAll(rows, rs, pages, k - 1);
    }
  }

  lemma {:induction false} EndRowUp(rows: seq<Record>, rs: seq<RowResult>, pages: Option<int>, k: nat, e: nat)
    requires |rs| == |rows| && k <= e <= |rows|
    requires forall j | k <= j < e :: !StopsAt(rows, pages, j) && rs[j].failure.None?
    requires e < |rows| ==> StopsAt(rows, pages, e) || rs[e].failure.Some?
    ensures EndRow(rows, rs, pages, k) == e
    decreases e - k
  {
    if k < e {
      EndRowUp(rows, rs, pages, k + 1, e);
    }
  }

  /** The warnings written while normalising the first `n` rows. */
  function WarningsOf(rs: seq<RowResult>, n: nat): seq<Warning>
    requires n <= |rs|
  {
    if n == 0 then [] else WarningsOf(rs, n - 1) + rs[n - 1].warnings
  }

  /** The text written for the first `n` rows: for each, what precedes its pairs and then
      its pairs. */
  function Output(rows: seq<Record>, fields: seq<string>, rs: seq<RowResult>, n: nat): string
    requires |rs| == |rows| && n <= |rows|
  {
    if n == 0 then ""
    else Output(rows, fields, rs, n - 1) + Lead(rows, n - 1) + RowText(fields, rs[n - 1].values)
  }

  datatype Status = Finished | Stopped | Failed(failure: Failure, row: nat)

  /** The output file's text, the warnings, and how the run ended. */
  datatype Outcome = Outcome(text: string, warnings: seq<Warning>, status: Status)

  /** What the run produces. A run that ends at row `e` has written the text for the rows
      before it; a finished run then adds a line break; a run stopped by `--pages` the
      line break that was written before the check (none before the first row); a failed
      run what precedes the failing row's pairs, with that row's warnings. */
  function RunSpec(rows: seq<Record>, fields: seq<string>, opts: Options): Outcome
  {
    if |rows| == 0 then Outcome("", [], Failed(NoRows, 0))
    else
      var rs := Results(rows, fields, opts);
      var e := EndRow(rows, rs, opts.pages, 0);
      var out := Output(rows, fields, rs, e);
      var ws := WarningsOf(rs, e);
      if e == |rows| then Outcome(out + "\n", ws, Finished)
      else if StopsAt(rows, opts.pages, e) then Outcome(out + (if e > 0 then "\n" else ""), ws, Stopped)
      else Outcome(out + Lead(rows, e), ws + rs[e].warnings, Failed(rs[e].failure.value, e))
  }

  /** How the run ends when every row before `e` has gone through. */
  lemma RunEndsAt(rows: seq<Record>, fields: seq<string>, opts: Options, e: nat)
    requires 0 < |rows| && e <= |rows|
    requires Clear(rows, Results(rows, fields, opts), opts.pages, e)
    requires e < |rows| ==> StopsAt(rows, opts.pages, e) || Results(rows, fields, opts)[e].failure.Some?
    ensures var rs := Results(rows, fields, opts);
      var out := Output(rows, fields, rs, e);
      RunSpec(rows, fields, opts) ==
        if e == |rows| then Outcome(out + "\n", WarningsOf(rs, e), Finished)
        else if StopsAt(rows, opts.pages, e) then Outcome(out + (if e > 0 then "\n" else ""), WarningsOf(rs, e), Stopped)
        else Outcome(out + Lead(rows, e), WarningsOf(rs, e) + rs[e].warnings, Failed(rs[e].failure.value, e))
  {
    EndRowAt(rows, Results(rows, fields, opts), opts.pages, e);
  }

  /** The state of the run after `i` rows have been written: the page count, the current
      volume and page (those of the row before), the text and the warnings so far. */
  predicate RunState(rows: seq<Record>, fields: seq<string>, rs: seq<RowResult>, pages: Option<int>, i: nat,
                     pageCount: int, volume: string, page: string, text: string, warnings: seq<Warning>)
    requires |rs| == |rows| && 0 < i <= |rows|
  {
    && Clear(rows, rs, pages, i)
    && pageCount == |Starts(rows, i)|
    && volume == rows[i - 1].volume && page == rows[i - 1].page
    && text == Output(rows, fields, rs, i)
    && warnings == WarningsOf(rs, i)
  }

  /** Writing row `i`, when it neither stops the run nor fails, moves the state on by one row. */
  lemma RunStateStep(rows: seq<Record>, fields: seq<string>, rs: seq<RowResult>, pages: Option<int>, i: nat,
                       pageCount: int, volume: string, page: string, text: string, warnings: seq<Warning>)
    requires |rs| == |rows| && 0 < i < |rows|
    requires RunState(rows, fields, rs, pages, i, pageCount, volume, page, text, warnings)
    requires !StopsAt(rows, pages, i) && rs[i].failure.None?
    ensures RunState(rows, fields, rs, pages, i + 1,
                     pageCount + (if StartsPage(rows, i) then 1 else 0), rows[i].volume, rows[i].page,
                     text + Lead(rows, i) + RowText(fields, rs[i].values), warnings + rs[i].warnings)
  {
    RunStep(rows, fields, rs, i);
  }

  /** The same step, with the new page count, position and lead given as the loop has them. */
  lemma RunStateNext(rows: seq<Record>, fields: seq<string>, rs: seq<RowResult>, pages: Option<int>, i: nat,
                     pageCount: int, volume: string, page: string, text: string, warnings: seq<Warning>,
                     pageCount': int, volume': string, page': string, lead: string)
    requires |rs| == |rows| && 0 < i < |rows|
    requires RunState(rows, fields, rs, pages, i, pageCount, volume, page, text, warnings)
    requires !StopsAt(rows, pages, i) && rs[i].failure.None?
    requires StartsPage(rows, i) ==> pageCount' == pageCount + 1 && lead == "\n" + Header(rows[i])
    requires !StartsPage(rows, i) ==> pageCount' == pageCount && lead == " "
    requires volume' == rows[i].volume && page' == rows[i].page
    ensures RunState(rows, fields, rs, pages, i + 1, pageCount', volume', page',
                     text + lead + RowText(fields, rs[i].values), warnings + rs[i].warnings)
  {
    RunStateStep(rows, fields, rs, pages, i, pageCount, volume, page, text, warnings);
  }

  /** The main loop: rows are written one after another, a new line with a header
      starting whenever the volume or the page changes; `--pages` stops the run (with exit
      status 0) before the first row past that many pages; a row that cannot be
      normalised ends it with a failure; a finished run ends the text with a line break. */
  method Run(rows: seq<Record>, fields: seq<string>, opts: Options) returns (o: Outcome)
    ensures o == RunSpec(rows, fields, opts)
  {
    if |rows| == 0 {
      return Outcome("", [], Failed(NoRows, 0));
    }
    ghost var rs := Results(rows, fields, opts);
    var target := "";
    var warnings: seq<Warning> := [];
    var pageCount := 1;
    assert Starts(rows, 0) == [];
    if opts.pages.Some? && pageCount - 1 == opts.pages.value {
      RunEndsAt(rows, fields, opts, 0);
      return Outcome(target, warnings, Stopped);
    }
    target := target + Header(rows[0]);
    var currentVolume, currentPage := rows[0].volume, rows[0].page;
    var res := Normalize(rows[0], fields, opts);
    assert res == rs[0];
    warnings := warnings + res.warnings;
    if res.failure.Some? {
      RunEndsAt(rows, fields, opts, 0);
      return Outcome(target, warnings, Failed(res.failure.value, 0));
    }
    target := target + RowText(fields, res.values);
    RunStep(rows, fields, rs, 0);
    assert !StopsAt(rows, opts.pages, 0);
    var i := 1;
    while i < |rows|
      invariant 1 <= i <= |rows|
      invariant RunState(rows, fields, rs, opts.pages, i, pageCount, currentVolume, currentPage, target, warnings)
    {
      var row := rows[i];
      ghost var state := (pageCount, currentVolume, currentPage);
      var lead: string;
      var newPage := row.page != currentPage || row.volume != currentVolume;
      assert newPage == StartsPage(rows, i);
      if newPage {
        pageCount := pageCount + 1;
        if opts.pages.Some? && pageCount - 1 == opts.pages.value {
          RunEndsAt(rows, fields, opts, i);
          return Outcome(target + "\n", warnings, Stopped);
        }
        lead := "\n" + Header(row);
        currentVolume, currentPage := row.volume, row.page;
      } else {
        lead := " ";
      }
      res := Normalize(row, fields, opts);
      assert res == rs[i];
      if res.failure.Some? {
        RunEndsAt(rows, fields, opts, i);
        return Outcome(target + lead, warnings + res.warnings, Failed(res.failure.value, i));
      }
      RunStateNext(rows, fields, rs, opts.pages, i, state.0, state.1, state.2, target, warnings,
                   pageCount, currentVolume, currentPage, lead);
      warnings := warnings + res.warnings;
      target := target + lead + RowText(fields, res.values);
      i := i + 1;
    }
    RunEndsAt(rows, fields, opts, i);
    return Outcome(target + "\n", warnings, Finished);
  }

  /** What one more row adds to the written text, the warnings and the page count. */
  lemma RunStep(rows: seq<Record>, fields: seq<string>, rs: seq<RowResult>, i: nat)
    requires |rs| == |rows| && i < |rows|
    ensures WarningsOf(rs, i + 1) == WarningsOf(rs, i) + rs[i].warnings
    ensures |Starts(rows, i + 1)| == |Starts(rows, i)| + (if StartsPage(rows, i) then 1 else 0)
  {
  }
}
