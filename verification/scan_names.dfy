/** The scan-image file names from which volume and page numbers are read
    (aggregate.py:151 and subjects.py:20 use the same pattern
    `.*_(\d+)-(\d+)(?: \d)?\.jpg` with `re.fullmatch`). */
module ScanNames {
  import opened Wrappers
  import opened Strs

  /** `f` splits into the pieces the pattern describes: anything without a line feed
      (what `.*` matches), `_`, the volume digits, `-`, the page digits, an optional
      space-and-digit, and `.jpg`. */
  predicate Shape(f: string, prefix: string, vol: string, page: string, opt: string)
  {
    && f == prefix + "_" + vol + "-" + page + opt + ".jpg"
    && '\n' !in prefix
    && IsDigits(vol) && IsDigits(page)
    && (opt == [] || (|opt| == 2 && opt[0] == ' ' && IsDigit(opt[1])))
  }

  /** Index of the last occurrence of `c`, or -1. */
  function LastIndexOf(s: string, c: char): (k: int)
    ensures -1 <= k < |s|
    ensures k >= 0 ==> s[k] == c
  {
    if |s| == 0 then -1
    else if s[|s| - 1] == c then |s| - 1
    else LastIndexOf(s[..|s| - 1], c)
  }

  /** Drops the optional ` \d` group that may stand before `.jpg`. */
  function DropCopySuffix(body: string): string
  {
    if |body| >= 2 && body[|body| - 2] == ' ' && IsDigit(body[|body| - 1])
    then body[..|body| - 2] else body
  }

  /** Splits `prefix_vol-page` at its last `_` and the first `-` after it. */
  function SplitCore(core: string): Option<(string, string, string)>
  {
    var u := LastIndexOf(core, '_');
    if u < 0 then None
    else
      var tail := core[u + 1..];
      var d := FindChar(tail, '-');
      if d == |tail| then None
      else Some((core[..u], tail[..d], tail[d + 1..]))
  }

  /** The two captured numbers, or None when the name does not match the pattern. */
  function ParseScanName(f: string): Option<(nat, nat)>
  {
    if !EndsWith(f, ".jpg") then None
    else
      match SplitCore(DropCopySuffix(f[..|f| - 4]))
      case None => None
      case Some((prefix, vol, page)) =>
        if '\n' in prefix || !IsDigits(vol) || !IsDigits(page) then None
        else Some((DigitsValue(vol), DigitsValue(page)))
  }

  lemma SplitCoreSound(core: string)
    requires SplitCore(core).Some?
    ensures core == SplitCore(core).value.0 + "_" + SplitCore(core).value.1 + "-"
      + SplitCore(core).value.2
  {
    var u := LastIndexOf(core, '_');
    assert u >= 0;
    var tail := core[u + 1..];
    var d := FindChar(tail, '-');
    assert d < |tail|;
    SplitAt(core, u);
    SplitAt(tail, d);
    var p, v, g := core[..u], tail[..d], tail[d + 1..];
    assert SplitCore(core).value == (p, v, g);
    Regroup(p, "_", v, "-", g);
  }

  lemma Regroup(p: string, a: string, v: string, b: string, g: string)
    ensures p + a + (v + b + g) == p + a + v + b + g
  {
  }

  /** A text is what comes before position `k`, the character there, and the rest. */
  lemma SplitAt(s: string, k: nat)
    requires k < |s|
    ensures s == s[..k] + [s[k]] + s[k + 1..]
  {
  }

  lemma DropCopySuffixSplit(body: string)
    ensures var core := DropCopySuffix(body);
      |core| <= |body| && body == core + body[|core|..]
      && (core == body || (|body| - |core| == 2 && body[|core|] == ' ' && IsDigit(body[|core| + 1])))
  {
  }

  /** Every name the parser accepts has the shape of the pattern, with the parsed
      numbers being the values of the two digit groups. */
  lemma ParseSound(f: string)
    requires ParseScanName(f).Some?
    ensures exists prefix, vol, page, opt ::
      (Shape(f, prefix, vol, page, opt)
       && ParseScanName(f) == Some((DigitsValue(vol), DigitsValue(page))))
  {
    var prefix, vol, page, opt := ParsePieces(f);
  }

  /** The pieces of an accepted name. */
  lemma ParsePieces(f: string) returns (prefix: string, vol: string, page: string, opt: string)
    requires ParseScanName(f).Some?
    ensures Shape(f, prefix, vol, page, opt)
    ensures ParseScanName(f) == Some((DigitsValue(vol), DigitsValue(page)))
  {
    var body := f[..|f| - 4];
    assert f == body + ".jpg";
    var core := DropCopySuffix(body);
    DropCopySuffixSplit(body);
    opt := body[|core|..];
    SplitCoreSound(core);
    var sc := SplitCore(core).value;
    prefix, vol, page := sc.0, sc.1, sc.2;
  }

  lemma {:induction false} LastIndexOfSplit(a: string, c: char, b: string)
    requires forall j | 0 <= j < |b| :: b[j] != c
    ensures LastIndexOf(a + [c] + b, c) == |a|
    decreases |b|
  {
    var s := a + [c] + b;
    if |b| > 0 {
      assert s[..|s| - 1] == a + [c] + b[..|b| - 1];
      assert s[|s| - 1] == b[|b| - 1];
      LastIndexOfSplit(a, c, b[..|b| - 1]);
    }
  }

  lemma SplitCoreComplete(prefix: string, vol: string, page: string)
    requires IsDigits(vol) && IsDigits(page)
    ensures SplitCore(prefix + "_" + vol + "-" + page) == Some((prefix, vol, page))
  {
    var tail := vol + "-" + page;
    var core := prefix + "_" + tail;
    Regroup(prefix, "_", vol, "-", page);
    forall j | 0 <= j < |tail| ensures tail[j] != '_' {
      if j < |vol| { assert tail[j] == vol[j]; }
      else if j > |vol| { assert tail[j] == page[j - |vol| - 1]; }
    }
    LastIndexOfSplit(prefix, '_', tail);
    Pieces(prefix, '_', tail);
    forall j | 0 <= j < |vol| ensures vol[j] != '-' { assert IsDigit(vol[j]); }
    FindCharSplit(vol, '-', page);
    Pieces(vol, '-', page);
  }

  lemma DropCopySuffixComplete(core: string, page: string, opt: string)
    requires IsDigits(page) && EndsWith(core, page) && |core| > |page|
    requires core[|core| - |page| - 1] == '-'
    requires opt == [] || (|opt| == 2 && opt[0] == ' ' && IsDigit(opt[1]))
    ensures DropCopySuffix(core + opt) == core
  {
    var body := core + opt;
    if opt == [] {
      assert body[|body| - 1] == page[|page| - 1];
      if |page| >= 2 {
        assert body[|body| - 2] == page[|page| - 2];
      }
    } else {
      assert body[..|body| - 2] == core;
    }
  }

  /** Every name of the pattern's shape is accepted, with the values of its digit groups:
      together with ParseSound, ParseScanName decides exactly `re.fullmatch`. */
  lemma ParseComplete(f: string, prefix: string, vol: string, page: string, opt: string)
    requires Shape(f, prefix, vol, page, opt)
    ensures ParseScanName(f) == Some((DigitsValue(vol), DigitsValue(page)))
  {
    var core := prefix + "_" + vol + "-" + page;
    var body := core + opt;
    assert f == body + ".jpg";
    assert f[..|f| - 4] == body;
    assert core[|core| - |page|..] == page;
    assert core[|core| - |page| - 1] == '-';
    DropCopySuffixComplete(core, page, opt);
    SplitCoreComplete(prefix, vol, page);
  }
}
