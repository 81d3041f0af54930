/** clean_extraction.py: `clean_18617`, which tidies a transcribed place name — strips it,
    title-cases short texts and fixes the case of known small words and abbreviations,
    capitalises the first letter, logs and removes a trailing admission number, and cuts
    the text at its first comma — and the set `adminrefs` of the numbers it logged.
    Character classes are ASCII: a letter is A-Z or a-z, a word character (`\w`) a letter,
    a digit or `_`, and a digit (`\d`) 0-9. */
module CleanExtraction {
  import opened Wrappers
  import opened Strs
  import opened Seqs

  predicate IsWordChar(c: char)
  {
    IsLetter(c) || IsDigit(c) || c == '_'
  }

  /** `a` and `b` differ at most in the case of their letters. */
  predicate SameLetters(a: string, b: string)
  {
    |a| == |b| && forall j | 0 <= j < |a| :: ToLower(a[j]) == ToLower(b[j])
  }

  lemma CaseFold(c: char)
    ensures ToLower(ToUpper(c)) == ToLower(c)
    ensures ToLower(ToLower(c)) == ToLower(c)
  {
  }

  lemma SameLettersTrans(a: string, b: string, c: string)
    requires SameLetters(a, b) && SameLetters(b, c)
    ensures SameLetters(a, c)
  {
  }

  lemma SameLettersConcat(a: string, b: string, c: string, d: string, x: string, y: string)
    requires SameLetters(a, b) && SameLetters(c, d) && x == a + c && y == b + d
    ensures SameLetters(x, y)
  {
    forall j | 0 <= j < |x| ensures ToLower(x[j]) == ToLower(y[j]) {
      if j >= |a| {
        assert x[j] == c[j - |a|] && y[j] == d[j - |a|];
      }
    }
  }

  lemma SliceSplit(s: string, i: nat, j: nat)
    requires i <= j <= |s|
    ensures s[i..] == s[i..j] + s[j..]
  {
  }

  // ----- len(result.split()) -----

  /** Number of whitespace-separated words, `len(s.split())`. */
  function WordCount(s: string): nat
  {
    if |s| == 0 then 0
    else
      var starts := !IsSpace(s[|s| - 1]) && (|s| == 1 || IsSpace(s[|s| - 2]));
      WordCount(s[..|s| - 1]) + (if starts then 1 else 0)
  }

  // ----- str.title() -----

  /** One character of `str.title()`: a letter after a letter is lowered, any other
      letter raised, anything else kept. */
  function TitleChar(c: char, prevCased: bool): (r: char)
    ensures ToLower(r) == ToLower(c)
  {
    CaseFold(c);
    if !IsLetter(c) then c else if prevCased then ToLower(c) else ToUpper(c)
  }

  /** `str.title()` from a point where the previous character was, or was not, cased. */
  function TitleFrom(s: string, prevCased: bool): (r: string)
    ensures |r| == |s|
    ensures forall j | 0 <= j < |s| :: r[j] == TitleChar(s[j], if j == 0 then prevCased else IsLetter(s[j - 1]))
  {
    if |s| == 0 then []
    else
      var rest := TitleFrom(s[1..], IsLetter(s[0]));
      assert forall j | 1 <= j < |s| :: s[1..][j - 1] == s[j];
      [TitleChar(s[0], prevCased)] + rest
  }

  function Title(s: string): (r: string)
    ensures SameLetters(r, s)
    ensures forall j | 0 <= j < |s| :: r[j] == TitleChar(s[j], j > 0 && IsLetter(s[j - 1]))
  {
    var r := TitleFrom(s, false);
    forall j | 0 <= j < |s|
      ensures r[j] == TitleChar(s[j], j > 0 && IsLetter(s[j - 1]))
      ensures ToLower(r[j]) == ToLower(s[j])
    {
      assert (if j == 0 then false else IsLetter(s[j - 1])) == (j > 0 && IsLetter(s[j - 1]));
    }
    r
  }

  // ----- the whole-word fix-ups, `re.sub(r'\bWord\b', ...)` -----

  /** Number of word characters at the start of `s`. */
  function WordRun(s: string): (k: nat)
    ensures 0 < |s| && IsWordChar(s[0]) ==> 0 < k
    ensures k <= |s| && (k == |s| || !IsWordChar(s[k]))
    ensures forall j | 0 <= j < k :: IsWordChar(s[j])
  {
    if |s| > 0 && IsWordChar(s[0]) then
      var k := 1 + WordRun(s[1..]);
      assert forall j | 1 <= j < k :: s[1..][j - 1] == s[j];
      k
    else 0
  }

  /** The small words lowered and the abbreviations raised, read letter by letter. */
  function Fixed(w: string): Option<string>
  {
    if |w| == 2 then FixedPair(w[0], w[1])
    else if |w| == 3 && w[0] == 'T' && w[1] == 'h' && w[2] == 'e' then Some("the")
    else if |w| == 3 && w[0] == 'U' && w[1] == 's' && w[2] == 'a' then Some("USA")
    else if |w| == 4 && w[0] == 'U' && w[1] == 'p' && w[2] == 'o' && w[3] == 'n' then Some("upon")
    else None
  }

  /** The two-letter words: `Of`, `On`, `De`, `At` lowered, `Us`, `Ss`, `Sb`, `Ns`, `Nb`,
      `Na`, `Ab`, `Nj` raised. */
  function FixedPair(a: char, b: char): Option<string>
  {
    if a == 'O' && b == 'f' then Some("of")
    else if a == 'O' && b == 'n' then Some("on")
    else if a == 'D' && b == 'e' then Some("de")
    else if a == 'A' && b == 't' then Some("at")
    else if a == 'U' && b == 's' then Some("US")
    else if a == 'S' && b == 's' then Some("SS")
    else if a == 'S' && b == 'b' then Some("SB")
    else if a == 'N' && b == 's' then Some("NS")
    else if a == 'N' && b == 'b' then Some("NB")
    else if a == 'N' && b == 'a' then Some("NA")
    else if a == 'A' && b == 'b' then Some("AB")
    else if a == 'N' && b == 'j' then Some("NJ")
    else None
  }

  /** The word `A` or `a`. */
  predicate IsArticle(w: string)
  {
    |w| == 1 && (w[0] == 'A' || w[0] == 'a')
  }

  /** The fifteen substitutions on one whole word (a maximal run of word characters):
      `A` becomes `a` unless a full stop follows, where `\ba\.` turns it back. */
  function FixRun(w: string, dotNext: bool): (r: string)
    ensures |r| == |w|
  {
    if IsArticle(w) then (if dotNext then "A" else "a")
    else if Fixed(w).Some? then Fixed(w).value
    else w
  }

  lemma FixRunSameLetters(w: string, dotNext: bool)
    ensures SameLetters(FixRun(w, dotNext), w)
  {
  }

  /** A whole word, as `\b...\b` delimits it: no word character on either side. */
  predicate WholeWord(s: string, i: nat, j: nat)
  {
    i < j <= |s| && (i == 0 || !IsWordChar(s[i - 1])) && (j == |s| || !IsWordChar(s[j]))
    && forall k | i <= k < j :: IsWordChar(s[k])
  }

  /** Does a whole word start at `i`? */
  predicate WordStart(s: string, i: nat)
    requires i < |s|
  {
    IsWordChar(s[i]) && (i == 0 || !IsWordChar(s[i - 1]))
  }

  /** The end of the word starting at `i`. */
  function WordEnd(s: string, i: nat): (j: nat)
    requires i < |s| && WordStart(s, i)
    ensures WholeWord(s, i, j)
  {
    var j := i + WordRun(s[i..]);
    forall k | i <= k < j ensures IsWordChar(s[k]) { assert s[i..][k - i] == s[k]; }
    j
  }

  /** Where the scan goes on after position `i`: past the word starting there, or to
      the next character. */
  function ScanNext(s: string, i: nat): (j: nat)
    requires i < |s|
    ensures i < j <= |s|
  {
    if WordStart(s, i) then WordEnd(s, i) else i + 1
  }

  /** What the scan writes at `i`: the word starting there, fixed up, or the character. */
  function Piece(s: string, i: nat): (r: string)
    requires i < |s|
    ensures |r| == ScanNext(s, i) - i
  {
    if WordStart(s, i) then FixRun(s[i..WordEnd(s, i)], WordEnd(s, i) < |s| && s[WordEnd(s, i)] == '.')
    else [s[i]]
  }

  /** The word fix-ups applied to `s` from position `i` on. */
  function FixFrom(s: string, i: nat): (r: string)
    requires i <= |s|
    ensures |r| == |s| - i
    decreases |s| - i
  {
    if i == |s| then [] else Piece(s, i) + FixFrom(s, ScanNext(s, i))
  }

  /** A fix-up changes only letters inside a whole word that is one of the listed ones. */
  predicate Listed(w: string)
  {
    IsArticle(w) || Fixed(w).Some?
  }

  ghost predicate ChangedInListedWord(s: string, p: nat)
  {
    exists a: nat, b: nat | a <= p < b :: WholeWord(s, a, b) && Listed(s[a..b])
  }

  lemma InListedWord(s: string, a: nat, b: nat, p: nat)
    requires WholeWord(s, a, b) && Listed(s[a..b]) && a <= p < b
    ensures ChangedInListedWord(s, p)
  {
  }

  /** Inside one word, a character changes only when the word is a listed one. */
  lemma WordChanges(s: string, i: nat, k: nat)
    requires i < |s| && WordStart(s, i)
    requires k < WordEnd(s, i) - i
    requires FixRun(s[i..WordEnd(s, i)], WordEnd(s, i) < |s| && s[WordEnd(s, i)] == '.')[k] != s[i + k]
    ensures ChangedInListedWord(s, i + k)
  {
    var j := WordEnd(s, i);
    assert Listed(s[i..j]);
    InListedWord(s, i, j, i + k);
  }

  /** Every character of `r`, read against `s` from `i` on, that differs lies in a listed
      whole word of `s`. */
  ghost predicate ChangesListed(s: string, i: nat, r: string)
  {
    forall k | 0 <= k < |r| && i + k < |s| && r[k] != s[i + k] :: ChangedInListedWord(s, i + k)
  }

  lemma ChangesConcat(s: string, i: nat, head: string, rest: string)
    requires ChangesListed(s, i, head) && ChangesListed(s, i + |head|, rest)
    ensures ChangesListed(s, i, head + rest)
  {
    var r := head + rest;
    forall k | 0 <= k < |r| && i + k < |s| && r[k] != s[i + k] ensures ChangedInListedWord(s, i + k) {
      if k >= |head| {
        assert r[k] == rest[k - |head|];
        assert i + k == (i + |head|) + (k - |head|);
      }
    }
  }

  lemma HeadWordChanges(s: string, i: nat)
    requires i < |s| && WordStart(s, i)
    ensures ChangesListed(s, i, FixRun(s[i..WordEnd(s, i)], WordEnd(s, i) < |s| && s[WordEnd(s, i)] == '.'))
  {
    var j := WordEnd(s, i);
    var head := FixRun(s[i..j], j < |s| && s[j] == '.');
    forall k | 0 <= k < |head| && i + k < |s| && head[k] != s[i + k] ensures ChangedInListedWord(s, i + k) {
      WordChanges(s, i, k);
    }
  }

  /** What the scan writes at one position changes only letters of a listed word. */
  lemma PieceChanges(s: string, i: nat)
    requires i < |s|
    ensures ChangesListed(s, i, Piece(s, i))
  {
    if WordStart(s, i) {
      HeadWordChanges(s, i);
    }
  }

  lemma FixFromStep(s: string, i: nat)
    requires i < |s|
    ensures FixFrom(s, i) == Piece(s, i) + FixFrom(s, ScanNext(s, i))
  {
  }

  lemma {:induction false} FixFromWholeWords(s: string, i: nat)
    requires i <= |s|
    ensures ChangesListed(s, i, FixFrom(s, i))
    decreases |s| - i
  {
    if i < |s| {
      var j := ScanNext(s, i);
      FixFromWholeWords(s, j);
      PieceChanges(s, i);
      FixFromStep(s, i);
      ChangesConcat(s, i, Piece(s, i), FixFrom(s, j));
    }
  }

  /** The scan changes no more than the case of letters. */
  lemma {:induction false} FixFromSameLetters(s: string, i: nat)
    requires i <= |s|
    ensures SameLetters(FixFrom(s, i), s[i..])
    decreases |s| - i
  {
    if i < |s| {
      var j := ScanNext(s, i);
      if WordStart(s, i) {
        FixRunSameLetters(s[i..j], j < |s| && s[j] == '.');
      }
      FixFromSameLetters(s, j);
      SliceSplit(s, i, j);
      FixFromStep(s, i);
      SameLettersConcat(Piece(s, i), s[i..j], FixFrom(s, j), s[j..], FixFrom(s, i), s[i..]);
    }
  }

  function FixWords(s: string): (r: string)
    ensures SameLetters(r, s)
  {
    assert s[0..] == s;
    FixFromSameLetters(s, 0);
    FixFrom(s, 0)
  }

  // ----- the case changes after punctuation -----

  /** The four punctuation rules of the title-case branch, each a left-to-right,
      non-overlapping `re.sub` whose replacement changes the case of the matched text. */
  datatype Rule =
    | Ellipsis   // `\.\.\.[A-Z]`: lowered
    | Bracket    // `[\[\]{}\'][A-Z]`: lowered
    | Elision    // `\b[Ll]\'[a-z]`: raised
    | Hyphen     // `-[a-z]`: raised

  function MatchLen(p: Rule): nat
  {
    match p
    case Ellipsis => 4
    case Bracket => 2
    case Elision => 3
    case Hyphen => 2
  }

  predicate MatchAt(p: Rule, s: string, i: nat)
  {
    i + MatchLen(p) <= |s| &&
    match p
    case Ellipsis => s[i] == '.' && s[i + 1] == '.' && s[i + 2] == '.' && IsUpper(s[i + 3])
    case Bracket => IsBracket(s[i]) && IsUpper(s[i + 1])
    case Elision => (i == 0 || !IsWordChar(s[i - 1])) && (s[i] == 'L' || s[i] == 'l')
                    && s[i + 1] == '\'' && IsLower(s[i + 2])
    case Hyphen => s[i] == '-' && IsLower(s[i + 1])
  }

  /** The class `[\[\]{}\']`: a bracket, a brace or an apostrophe. */
  predicate IsBracket(c: char)
  {
    c == '[' || c == ']' || c == '{' || c == '}' || c == '\''
  }

  /** `x[0].lower()` or `x[0].upper()` on the matched text. */
  function Recase(p: Rule, m: string): (r: string)
    ensures SameLetters(r, m)
  {
    var r := if p.Ellipsis? || p.Bracket? then LowerString(m)
             else seq(|m|, j requires 0 <= j < |m| => ToUpper(m[j]));
    forall j | 0 <= j < |m| ensures ToLower(r[j]) == ToLower(m[j]) { CaseFold(m[j]); }
    r
  }

  function SubFrom(p: Rule, s: string, i: nat): (r: string)
    requires i <= |s|
    ensures SameLetters(r, s[i..])
    decreases |s| - i
  {
    if i == |s| then []
    else if MatchAt(p, s, i) then
      var j := i + MatchLen(p);
      assert s[i..] == s[i..j] + s[j..];
      Recase(p, s[i..j]) + SubFrom(p, s, j)
    else
      assert s[i..] == [s[i]] + s[i + 1..];
      [s[i]] + SubFrom(p, s, i + 1)
  }

  function Sub(p: Rule, s: string): (r: string)
    ensures SameLetters(r, s)
  {
    assert s[0..] == s;
    SubFrom(p, s, 0)
  }

  /** The case change a rule makes to one matched character. */
  function RecaseChar(p: Rule, c: char): char
  {
    if p.Ellipsis? || p.Bracket? then ToLower(c) else ToUpper(c)
  }

  lemma RecaseAt(p: Rule, m: string, j: nat)
    requires j < |m|
    ensures Recase(p, m)[j] == RecaseChar(p, m[j])
  {
  }

  /** One step of the scan: a match is recased as a whole, anything else is kept. */
  lemma SubFromStep(p: Rule, s: string, i: nat)
    requires i < |s|
    ensures MatchAt(p, s, i) ==>
      SubFrom(p, s, i) == Recase(p, s[i..i + MatchLen(p)]) + SubFrom(p, s, i + MatchLen(p))
    ensures !MatchAt(p, s, i) ==> SubFrom(p, s, i) == [s[i]] + SubFrom(p, s, i + 1)
  {
  }

  /** One step of the scan: past the match at `i`, or past one character. */
  lemma SubFromSkip(p: Rule, s: string, i: nat) returns (j: nat)
    requires i < |s|
    ensures j == (if MatchAt(p, s, i) then i + MatchLen(p) else i + 1)
    ensures j <= |s| && SubFrom(p, s, i)[j - i..] == SubFrom(p, s, j)
  {
    SubFromStep(p, s, i);
    j := if MatchAt(p, s, i) then i + MatchLen(p) else i + 1;
    var head := if MatchAt(p, s, i) then Recase(p, s[i..j]) else [s[i]];
    assert |head| == j - i;
    assert SubFrom(p, s, i) == head + SubFrom(p, s, j);
  }

  /** The scan from `i` passes through `a` unless a match starting between them covers
      `a`. */
  lemma {:induction false} SubFromReaches(p: Rule, s: string, i: nat, a: nat)
    requires i <= a <= |s|
    requires forall m: nat | i <= m < a && a < m + MatchLen(p) :: !MatchAt(p, s, m)
    ensures SubFrom(p, s, i)[a - i..] == SubFrom(p, s, a)
    decreases a - i
  {
    if i < a {
      var j := SubFromSkip(p, s, i);
      SubFromReaches(p, s, j, a);
      DropThroughSuffix(SubFrom(p, s, i), SubFrom(p, s, j), SubFrom(p, s, a), j - i, a - j, a - i);
    } else {
      assert SubFrom(p, s, i)[0..] == SubFrom(p, s, a);
    }
  }

  /** A match that no earlier match overlaps is recased, character by character. */
  lemma SubCovered(p: Rule, s: string, m: nat, k: nat)
    requires MatchAt(p, s, m) && m <= k < m + MatchLen(p)
    requires forall q: nat | m - MatchLen(p) < q < m :: !MatchAt(p, s, q)
    ensures Sub(p, s)[k] == RecaseChar(p, s[k])
  {
    SubFromReaches(p, s, 0, m);
    SubFromStep(p, s, m);
    RecaseAt(p, s[m..m + MatchLen(p)], k - m);
  }

  /** A character that no match covers is kept. */
  lemma SubUncovered(p: Rule, s: string, k: nat)
    requires k < |s|
    requires forall q: nat | k - MatchLen(p) < q <= k :: !MatchAt(p, s, q)
    ensures Sub(p, s)[k] == s[k]
  {
    SubFromReaches(p, s, 0, k);
    SubFromStep(p, s, k);
  }

  /** Matches of the ellipsis, bracket and hyphen rules never overlap. */
  lemma MatchesApart(p: Rule, s: string, m: nat, a: nat)
    requires !p.Elision? && MatchAt(p, s, m) && MatchAt(p, s, a) && m < a
    ensures m + MatchLen(p) <= a
  {
  }

  /** For the ellipsis, bracket and hyphen rules every match is recased. */
  lemma SubInMatch(p: Rule, s: string, m: nat, k: nat)
    requires !p.Elision? && MatchAt(p, s, m) && m <= k < m + MatchLen(p)
    ensures Sub(p, s)[k] == RecaseChar(p, s[k])
  {
    forall q: nat | m - MatchLen(p) < q < m ensures !MatchAt(p, s, q) {
      if MatchAt(p, s, q) { MatchesApart(p, s, q, m); }
    }
    SubCovered(p, s, m, k);
  }

  /** A match whose recased last character falls inside the window at `k` leaves no
      match of the same rule at `k`: that character is no longer of the case the rule
      looks for, nor punctuation. */
  lemma RecasedEndInWindow(p: Rule, s: string, m: nat, k: nat)
    requires !p.Elision? && MatchAt(p, s, m)
    requires k <= m + MatchLen(p) - 1 < k + MatchLen(p)
    ensures !MatchAt(p, Sub(p, s), k)
  {
    SubInMatch(p, s, m, m + MatchLen(p) - 1);
    EndRecasedBlocks(p, s, Sub(p, s), m, k);
  }

  lemma EndRecasedBlocks(p: Rule, s: string, r: string, m: nat, k: nat)
    requires !p.Elision? && MatchAt(p, s, m) && |r| == |s|
    requires k <= m + MatchLen(p) - 1 < k + MatchLen(p)
    requires r[m + MatchLen(p) - 1] == RecaseChar(p, s[m + MatchLen(p) - 1])
    ensures !MatchAt(p, r, k)
  {
  }

  /** A match that starts inside the window at `k` recases the window's last character,
      which is punctuation, so it stays as it was. */
  lemma RecasedPunctuationInWindow(p: Rule, s: string, m: nat, k: nat)
    requires !p.Elision? && MatchAt(p, s, m)
    requires k < m <= k + MatchLen(p) - 1
    ensures !MatchAt(p, Sub(p, s), k)
  {
    SubInMatch(p, s, m, k + MatchLen(p) - 1);
    PunctuationKeptBlocks(p, s, Sub(p, s), m, k);
  }

  lemma PunctuationKeptBlocks(p: Rule, s: string, r: string, m: nat, k: nat)
    requires !p.Elision? && MatchAt(p, s, m) && |r| == |s|
    requires k < m <= k + MatchLen(p) - 1
    requires r[k + MatchLen(p) - 1] == RecaseChar(p, s[k + MatchLen(p) - 1])
    ensures !MatchAt(p, r, k)
  {
  }

  /** After the hyphen rule no hyphen is followed by a lower-case letter. */
  lemma HyphenNoneLeft(s: string)
    ensures forall k: nat :: !MatchAt(Hyphen, Sub(Hyphen, s), k)
  {
    forall k: nat ensures !MatchAt(Hyphen, Sub(Hyphen, s), k) { HyphenNotAt(s, k); }
  }

  lemma HyphenNotAt(s: string, k: nat)
    ensures !MatchAt(Hyphen, Sub(Hyphen, s), k)
  {
    if k + 2 > |s| {
    } else if k >= 1 && MatchAt(Hyphen, s, k - 1) {
      RecasedEndInWindow(Hyphen, s, k - 1, k);
    } else if MatchAt(Hyphen, s, k) {
      RecasedEndInWindow(Hyphen, s, k, k);
    } else if MatchAt(Hyphen, s, k + 1) {
      RecasedPunctuationInWindow(Hyphen, s, k + 1, k);
    } else {
      SubUncovered(Hyphen, s, k);
      SubUncovered(Hyphen, s, k + 1);
    }
  }

  /** After the bracket rule no bracket or quote is followed by an upper-case letter. */
  lemma BracketNoneLeft(s: string)
    ensures forall k: nat :: !MatchAt(Bracket, Sub(Bracket, s), k)
  {
    forall k: nat ensures !MatchAt(Bracket, Sub(Bracket, s), k) { BracketNotAt(s, k); }
  }

  lemma BracketNotAt(s: string, k: nat)
    ensures !MatchAt(Bracket, Sub(Bracket, s), k)
  {
    if k + 2 > |s| {
    } else if k >= 1 && MatchAt(Bracket, s, k - 1) {
      RecasedEndInWindow(Bracket, s, k - 1, k);
    } else if MatchAt(Bracket, s, k) {
      RecasedEndInWindow(Bracket, s, k, k);
    } else if MatchAt(Bracket, s, k + 1) {
      RecasedPunctuationInWindow(Bracket, s, k + 1, k);
    } else {
      SubUncovered(Bracket, s, k);
      SubUncovered(Bracket, s, k + 1);
    }
  }

  /** After the ellipsis rule no ellipsis is followed by an upper-case letter. */
  lemma EllipsisNoneLeft(s: string)
    ensures forall k: nat :: !MatchAt(Ellipsis, Sub(Ellipsis, s), k)
  {
    forall k: nat ensures !MatchAt(Ellipsis, Sub(Ellipsis, s), k) { EllipsisNotAt(s, k); }
  }

  lemma EllipsisNotAt(s: string, k: nat)
    ensures !MatchAt(Ellipsis, Sub(Ellipsis, s), k)
  {
    if k + 4 > |s| {
    } else if k >= 3 && MatchAt(Ellipsis, s, k - 3) {
      RecasedEndInWindow(Ellipsis, s, k - 3, k);
    } else if k >= 2 && MatchAt(Ellipsis, s, k - 2) {
      RecasedEndInWindow(Ellipsis, s, k - 2, k);
    } else if k >= 1 && MatchAt(Ellipsis, s, k - 1) {
      RecasedEndInWindow(Ellipsis, s, k - 1, k);
    } else if MatchAt(Ellipsis, s, k) {
      RecasedEndInWindow(Ellipsis, s, k, k);
    } else if MatchAt(Ellipsis, s, k + 1) {
      RecasedPunctuationInWindow(Ellipsis, s, k + 1, k);
    } else if MatchAt(Ellipsis, s, k + 2) {
      RecasedPunctuationInWindow(Ellipsis, s, k + 2, k);
    } else if MatchAt(Ellipsis, s, k + 3) {
      RecasedPunctuationInWindow(Ellipsis, s, k + 3, k);
    } else {
      EllipsisUncovered(s, k);
    }
  }

  lemma EllipsisUncovered(s: string, k: nat)
    requires k + 4 <= |s|
    requires forall q: nat | k - 3 <= q <= k + 3 :: !MatchAt(Ellipsis, s, q)
    ensures !MatchAt(Ellipsis, Sub(Ellipsis, s), k)
  {
    SubUncovered(Ellipsis, s, k);
    SubUncovered(Ellipsis, s, k + 1);
    SubUncovered(Ellipsis, s, k + 2);
    SubUncovered(Ellipsis, s, k + 3);
    assert !MatchAt(Ellipsis, s, k);
  }

  /** A match of the elision rule where the scan arrives is raised: the letter before
      the apostrophe becomes 'L' and the letter after it upper case. */
  lemma ElisionRaised(s: string, m: nat)
    requires MatchAt(Elision, s, m)
    requires forall q: nat | m - 3 < q < m :: !MatchAt(Elision, s, q)
    ensures Sub(Elision, s)[m] == 'L' && Sub(Elision, s)[m + 1] == '\''
    ensures IsUpper(Sub(Elision, s)[m + 2]) && ToLower(Sub(Elision, s)[m + 2]) == s[m + 2]
  {
    SubCovered(Elision, s, m, m);
    SubCovered(Elision, s, m, m + 1);
    SubCovered(Elision, s, m, m + 2);
  }

  /** The example of line 52: "L'orient" becomes "L'Orient". */
  lemma ElisionExample()
    ensures Sub(Elision, "L'orient") == "L'Orient"
  {
    var s, t := "L'orient", "L'Orient";
    var r := Sub(Elision, s);
    forall k | 0 <= k < |s| ensures r[k] == t[k] {
      if k < 3 {
        SubCovered(Elision, s, 0, k);
      } else {
        SubUncovered(Elision, s, k);
      }
    }
  }

  /** The example of line 53: "West-ham" becomes "West-Ham". */
  lemma HyphenExample()
    ensures Sub(Hyphen, "West-ham") == "West-Ham"
  {
    var s, t := "West-ham", "West-Ham";
    var r := Sub(Hyphen, s);
    forall k | 0 <= k < |s| ensures r[k] == t[k] {
      if k == 4 || k == 5 {
        SubInMatch(Hyphen, s, 4, k);
      } else {
        SubUncovered(Hyphen, s, k);
      }
    }
  }

  /** Lines 19-53: the case changes, made only for texts of fewer than five words. */
  function CaseWords(s: string): (r: string)
    ensures SameLetters(r, s)
    ensures WordCount(s) >= 5 ==> r == s
  {
    if WordCount(s) < 5 then
      var t := Title(s);
      var f := FixWords(t);
      var e := Sub(Ellipsis, f);
      var b := Sub(Bracket, e);
      var l := Sub(Elision, b);
      var h := Sub(Hyphen, l);
      SameLettersTrans(f, t, s);
      SameLettersTrans(e, f, s);
      SameLettersTrans(b, e, s);
      SameLettersTrans(l, b, s);
      SameLettersTrans(h, l, s);
      h
    else s
  }

  /** `re.sub(r'^\'?[a-z]', ...upper())`: a lower-case first letter, possibly after an
      opening quote, is raised. */
  function FirstUpper(s: string): (r: string)
    ensures SameLetters(r, s)
    ensures |s| > 0 && IsLower(s[0]) ==> IsUpper(r[0])
    ensures |s| > 1 && s[0] == '\'' && IsLower(s[1]) ==> IsUpper(r[1])
    ensures forall j | 0 <= j < |s| && r[j] != s[j] :: (j == 0 || (j == 1 && s[0] == '\'')) && IsLower(s[j])
  {
    if |s| > 0 && IsLower(s[0]) then [ToUpper(s[0])] + s[1..]
    else if |s| > 1 && s[0] == '\'' && IsLower(s[1]) then [s[0], ToUpper(s[1])] + s[2..]
    else s
  }

  // ----- the admission number (lines 60-64) -----

  /** Where `$` can match: the text without one final line feed, and that line feed. */
  function Body(s: string): string
  {
    if |s| > 0 && s[|s| - 1] == '\n' then s[..|s| - 1] else s
  }

  function Tail(s: string): string
  {
    if |s| > 0 && s[|s| - 1] == '\n' then "\n" else ""
  }

  lemma BodyTail(s: string)
    ensures s == Body(s) + Tail(s)
  {
  }

  /** Number of digits at the end of `s`. */
  function TrailingDigits(s: string): (k: nat)
    ensures k <= |s| && AllDigits(s[|s| - k..])
    ensures k == |s| || !IsDigit(s[|s| - k - 1])
  {
    if |s| > 0 && IsDigit(s[|s| - 1]) then
      var k := 1 + TrailingDigits(s[..|s| - 1]);
      assert s[|s| - k..] == s[..|s| - 1][|s| - k..] + [s[|s| - 1]];
      k
    else 0
  }

  /** `re.search(r'\d+$', s)`, read by `int()`: the number the text ends with. */
  function TrailingNumber(s: string): (n: Option<nat>)
    ensures n.Some? <==> |Body(s)| > 0 && IsDigit(Body(s)[|Body(s)| - 1])
  {
    var b := Body(s);
    var k := TrailingDigits(b);
    if k == 0 then None else Some(DigitsValue(b[|b| - k..]))
  }

  /** Number of digits at the start of `s`. */
  function LeadingDigits(s: string): (k: nat)
    ensures k <= |s| && (k == |s| || !IsDigit(s[k]))
    ensures forall j | 0 <= j < k :: IsDigit(s[j])
  {
    if |s| > 0 && IsDigit(s[0]) then
      var k := 1 + LeadingDigits(s[1..]);
      assert forall j | 1 <= j < k :: s[1..][j - 1] == s[j];
      k
    else 0
  }

  /** `re.sub(r'\s*\d+', '', s)` from position `i` on: every run of digits goes, with the
      whitespace just before it. */
  function RemoveNumbersFrom(s: string, i: nat): (r: string)
    requires i <= |s|
    ensures forall j | 0 <= j < |r| :: !IsDigit(r[j])
    ensures |r| <= |s| - i
    decreases |s| - i
  {
    if i == |s| then []
    else
      var w := LeadingSpace(s[i..]);
      if i + w < |s| && IsDigit(s[i + w]) then
        var d := LeadingDigits(s[i + w..]);
        assert d > 0;
        RemoveNumbersFrom(s, i + w + d)
      else
        assert !IsDigit(s[i]) by { assert s[i..][0] == s[i]; }
        [s[i]] + RemoveNumbersFrom(s, i + 1)
  }

  function RemoveNumbers(s: string): string
  {
    RemoveNumbersFrom(s, 0)
  }

  /** `re.sub(r'\s+[Nn]o\.?$', '', s)`: a final "No" or "no", with or without a full stop,
      goes with the whitespace before it. */
  function StripNo(s: string): (r: string)
    ensures r == s || exists k | 0 <= k < |Body(s)| :: r == s[..k] + Tail(s)
  {
    var b := Body(s);
    var core := if |b| > 0 && b[|b| - 1] == '.' then b[..|b| - 1] else b;
    var n := |core|;
    if n >= 3 && core[n - 1] == 'o' && (core[n - 2] == 'N' || core[n - 2] == 'n') && IsSpace(core[n - 3]) then
      var k := n - 2 - TrailingSpace(core[..n - 2]);
      assert k < n <= |b|;
      s[..k] + Tail(s)
    else s
  }

  // ----- the comma (line 67) -----

  /** Index just after the last line feed of `s`, 0 when there is none. */
  function LineStart(s: string): (k: nat)
    ensures k <= |s| && '\n' !in s[k..]
    ensures k > 0 ==> s[k - 1] == '\n'
  {
    if |s| == 0 || s[|s| - 1] == '\n' then |s|
    else
      var k := LineStart(s[..|s| - 1]);
      assert s[k..] == s[..|s| - 1][k..] + [s[|s| - 1]];
      k
  }

  /** `re.sub(r'\s*,.*$', '', s)`: from the first comma of the last line, with the
      whitespace before it, to the end of that line. */
  function CutComma(s: string): (r: string)
    ensures ',' !in Body(s)[LineStart(Body(s))..] ==> r == s
    ensures r == s || exists k | 0 <= k < |Body(s)| :: r == s[..k] + Tail(s)
  {
    var b := Body(s);
    var k := LineStart(b);
    var c := FindChar(b[k..], ',');
    if k + c == |b| then s
    else
      var start := k + c - TrailingSpace(b[..k + c]);
      assert b[..start] == s[..start];
      b[..start] + Tail(s)
  }

  // ----- clean_18617 -----

  /** The text after the case changes, which the number step reads. */
  function Cased(text: string): string
  {
    FirstUpper(CaseWords(Strip(text)))
  }

  /** The number `clean_18617` adds to `adminrefs`, if any. */
  function AdminRef(text: string): Option<nat>
  {
    TrailingNumber(Cased(text))
  }

  /** The text that the number and comma steps make of the cased text `s`. */
  function Finished(s: string): string
  {
    var t := if TrailingNumber(s).Some? then StripNo(RemoveNumbers(s)) else s;
    CutComma(t)
  }

  /** The cleaned text. */
  function CleanSpec(text: string): string
  {
    Finished(Cased(text))
  }

  function RefSet(n: Option<nat>): set<int>
  {
    if n.Some? then {n.value} else {}
  }

  /** The module state of the script: the numbers logged so far. */
  class Cleaner {
    var adminrefs: set<int>

    /** `adminrefs = set()`. */
    constructor()
      ensures adminrefs == {}
    {
      adminrefs := {};
    }

    /** `clean_18617`. */
    method Clean(text: string) returns (result: string)
      modifies this
      ensures result == CleanSpec(text)
      ensures adminrefs == old(adminrefs) + RefSet(AdminRef(text))
    {
      result := Cased(text);
      result := Finish(result);
    }

    /** The second half of `clean_18617`, from the number search on: a trailing number
        is logged and removed with a final "No", then the comma is cut. */
    method Finish(s: string) returns (result: string)
      modifies this
      ensures result == Finished(s)
      ensures adminrefs == old(adminrefs) + RefSet(TrailingNumber(s))
    {
      result := s;
      var number := TrailingNumber(result);
      if number.Some? {
        adminrefs := adminrefs + {number.value};
        result := RemoveNumbers(result);
        result := StripNo(result);
      }
      result := CutComma(result);
    }
  }

  // ----- properties -----

  /** The text is stripped first: surrounding whitespace changes nothing. */
  lemma CleanIgnoresSurroundingSpace(text: string)
    ensures CleanSpec(Strip(text)) == CleanSpec(text)
    ensures AdminRef(Strip(text)) == AdminRef(text)
  {
    StripIdempotent(text);
  }

  /** Texts of five words or more keep their case, apart from the first letter. */
  lemma LongTextKeepsCase(text: string)
    requires WordCount(Strip(text)) >= 5
    ensures Cased(text) == FirstUpper(Strip(text))
  {
  }

  /** The case phase changes nothing but the case of letters. */
  lemma CasedOnlyRecases(text: string)
    ensures SameLetters(Cased(text), Strip(text))
  {
    SameLettersTrans(Cased(text), CaseWords(Strip(text)), Strip(text));
  }

  /** A logged number leaves no digit behind in the cleaned text. */
  lemma NumberLeavesNoDigit(text: string)
    requires AdminRef(text).Some?
    ensures DigitFree(CleanSpec(text))
  {
    var r := RemoveNumbers(Cased(text));
    StripNoDigitFree(r);
    CutCommaDigitFree(StripNo(r));
  }

  predicate DigitFree(s: string)
  {
    forall j | 0 <= j < |s| :: !IsDigit(s[j])
  }

  lemma PrefixTailDigitFree(s: string, k: nat)
    requires DigitFree(s) && k <= |s|
    ensures DigitFree(s[..k] + Tail(s))
  {
    var r := s[..k] + Tail(s);
    forall j | 0 <= j < |r| ensures !IsDigit(r[j]) {
      if j >= k { assert r[j] == '\n'; }
    }
  }

  lemma StripNoDigitFree(s: string)
    requires DigitFree(s)
    ensures DigitFree(StripNo(s))
  {
    if StripNo(s) != s {
      var k :| 0 <= k < |Body(s)| && StripNo(s) == s[..k] + Tail(s);
      PrefixTailDigitFree(s, k);
    }
  }

  lemma CutCommaDigitFree(s: string)
    requires DigitFree(s)
    ensures DigitFree(CutComma(s))
  {
    if CutComma(s) != s {
      var k :| 0 <= k < |Body(s)| && CutComma(s) == s[..k] + Tail(s);
      PrefixTailDigitFree(s, k);
    }
  }

  /** The word fix-ups change a character only inside a whole word that is one of the
      listed ones, and never more than its case. */
  lemma FixWordsMeaning(s: string)
    ensures SameLetters(FixWords(s), s)
    ensures forall k | 0 <= k < |s| && FixWords(s)[k] != s[k] :: ChangedInListedWord(s, k)
  {
    FixFromWholeWords(s, 0);
    var r := FixWords(s);
    forall k | 0 <= k < |s| && r[k] != s[k] ensures ChangedInListedWord(s, k) {
      assert 0 + k == k;
    }
  }

  lemma WordEndUnique(s: string, a: nat, b: nat)
    requires WholeWord(s, a, b)
    ensures WordStart(s, a) && WordEnd(s, a) == b
  {
    var j := WordEnd(s, a);
    assert j < |s| ==> !IsWordChar(s[j]);
    assert b < |s| ==> !IsWordChar(s[b]);
  }

  lemma FixFromWordStep(s: string, i: nat)
    requires i < |s| && WordStart(s, i)
    ensures FixFrom(s, i) == FixRun(s[i..WordEnd(s, i)], WordEnd(s, i) < |s| && s[WordEnd(s, i)] == '.')
                             + FixFrom(s, WordEnd(s, i))
  {
  }

  /** A position the scan cannot step over: not strictly inside a run of word characters. */
  predicate ScanBoundary(s: string, a: nat)
    requires a <= |s|
  {
    a == 0 || a == |s| || !IsWordChar(s[a - 1]) || !IsWordChar(s[a])
  }

  lemma WordEndsAtBoundary(s: string, i: nat, a: nat)
    requires i < a <= |s| && ScanBoundary(s, a) && WordStart(s, i)
    ensures WordEnd(s, i) <= a
  {
    var j := WordEnd(s, i);
    assert a < |s| ==> IsWordChar(s[a - 1]) ==> !IsWordChar(s[a]);
  }

  lemma FixFromSkips(s: string, i: nat)
    requires i < |s|
    ensures FixFrom(s, i)[ScanNext(s, i) - i..] == FixFrom(s, ScanNext(s, i))
  {
    FixFromStep(s, i);
  }

  lemma NextBeforeBoundary(s: string, i: nat, a: nat)
    requires i < a <= |s| && ScanBoundary(s, a)
    ensures ScanNext(s, i) <= a
  {
    if WordStart(s, i) {
      WordEndsAtBoundary(s, i, a);
    }
  }

  /** The scan from `i` passes through every boundary at or after `i`: from there on it
      writes what the scan started at that boundary writes. */
  lemma {:induction false} FixFromReaches(s: string, i: nat, a: nat)
    requires i <= a <= |s| && ScanBoundary(s, a)
    ensures FixFrom(s, i)[a - i..] == FixFrom(s, a)
    decreases a - i
  {
    if i < a {
      var j := ScanNext(s, i);
      NextBeforeBoundary(s, i, a);
      FixFromSkips(s, i);
      FixFromReaches(s, j, a);
      DropThroughSuffix(FixFrom(s, i), FixFrom(s, j), FixFrom(s, a), j - i, a - j, a - i);
      assert FixFrom(s, i)[a - i..] == FixFrom(s, a);
    } else {
      assert FixFrom(s, i)[0..] == FixFrom(s, a);
    }
  }

  lemma FixFromAtWord(s: string, a: nat, b: nat)
    requires WholeWord(s, a, b)
    ensures FixFrom(s, a)[0..b - a] == FixRun(s[a..b], b < |s| && s[b] == '.')
  {
    var w := FixRun(s[a..b], b < |s| && s[b] == '.');
    WordEndUnique(s, a, b);
    FixFromWordStep(s, a);
    assert |w| == b - a;
    PrefixOfAppend(w, FixFrom(s, b));
  }

  /** Two of the fifteen substitutions, on a single word. */
  lemma FixRunInstances(w: string, dotNext: bool)
    ensures w == "Of" ==> FixRun(w, dotNext) == "of"
    ensures w == "Usa" ==> FixRun(w, dotNext) == "USA"
  {
    if w == "Of" {
      assert w[0] == 'O' && w[1] == 'f';
    }
    if w == "Usa" {
      assert w[0] == 'U' && w[1] == 's' && w[2] == 'a';
    }
  }

  /** Conversely, every whole word of the text comes out as its own fix-up: a listed word
      is replaced (`Of` by `of`, `Usa` by `USA`, `a` by `A` before a full stop), any other
      word is kept. */
  lemma FixWordsWholeWord(s: string, a: nat, b: nat)
    requires WholeWord(s, a, b)
    ensures FixWords(s)[a..b] == FixRun(s[a..b], b < |s| && s[b] == '.')
    ensures s[a..b] == "Of" ==> FixWords(s)[a..b] == "of"
    ensures s[a..b] == "Usa" ==> FixWords(s)[a..b] == "USA"
    ensures !Listed(s[a..b]) ==> FixWords(s)[a..b] == s[a..b]
  {
    FixFromReaches(s, 0, a);
    FixFromAtWord(s, a, b);
    SliceOfDrop(FixFrom(s, 0), FixFrom(s, a), FixRun(s[a..b], b < |s| && s[b] == '.'), a, b);
    FixRunInstances(s[a..b], b < |s| && s[b] == '.');
  }

  /** A text without digits goes through the number removal unchanged. */
  lemma {:induction false} RemoveNumbersFromIdentity(s: string, i: nat)
    requires DigitFree(s) && i <= |s|
    ensures RemoveNumbersFrom(s, i) == s[i..]
    decreases |s| - i
  {
    if i < |s| {
      RemoveNumbersFromIdentity(s, i + 1);
      assert s[i..] == [s[i]] + s[i + 1..];
    }
  }

  lemma RemoveNumbersIdentity(s: string)
    requires DigitFree(s)
    ensures RemoveNumbers(s) == s
  {
    RemoveNumbersFromIdentity(s, 0);
    assert s[0..] == s;
  }

  lemma OneLine(s: string)
    requires '\n' !in s
    ensures Body(s) == s && Tail(s) == "" && LineStart(s) == 0
  {
    if |s| > 0 { assert s[|s| - 1] in s; }
  }

  /** A text of one line has no comma once cleaned. */
  lemma SingleLineHasNoComma(s: string)
    requires '\n' !in s
    ensures ',' !in CutComma(s)
  {
    OneLine(s);
    assert Body(s)[LineStart(Body(s))..] == s;
    var c := FindChar(s, ',');
    if c < |s| {
      var start := c - TrailingSpace(s[..c]);
      assert CutComma(s) == s[..c][..start];
      forall x | x in s[..c][..start] ensures x != ',' {
        var m :| 0 <= m < start && s[..c][..start][m] == x;
        assert x == s[..c][m];
      }
    }
  }

  /** The number logged is the value of the digits the text ends with. */
  lemma AdminRefValue(prefix: string, digits: string)
    requires IsDigits(digits) && (|prefix| == 0 || !IsDigit(prefix[|prefix| - 1]))
    ensures TrailingNumber(prefix + digits) == Some(DigitsValue(digits))
  {
    var s := prefix + digits;
    assert Body(s) == s;
    assert TrailingDigits(s) == |digits| by {
      TrailingDigitsSplit(prefix, digits);
    }
    assert s[|s| - |digits|..] == digits;
  }

  lemma {:induction false} TrailingDigitsSplit(prefix: string, digits: string)
    requires AllDigits(digits) && (|prefix| == 0 || !IsDigit(prefix[|prefix| - 1]))
    ensures TrailingDigits(prefix + digits) == |digits|
    decreases |digits|
  {
    var s := prefix + digits;
    if |digits| > 0 {
      assert s[..|s| - 1] == prefix + digits[..|digits| - 1];
      TrailingDigitsSplit(prefix, digits[..|digits| - 1]);
    } else {
      assert s == prefix;
    }
  }
}
