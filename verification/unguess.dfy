/** misc_scripts/unguess.py: rewrites a CSV file whose quoted cells may begin with the
    marker the transcription tools put before a text without a best guess; the marker is
    removed, and every unquoted (numeric) cell is written as an integer. */
module Unguess {
  import opened Strs

  /** A cell as the non-numeric-quoting reader gives it: a quoted string, or an unquoted
      field read as a floating-point number. */
  datatype InCell = Text(s: string) | Number(x: real)

  /** A cell as it is written back. */
  datatype OutCell = OutText(s: string) | Whole(n: int)

  /** The marker `^<No best guess>\n-{10}\n`: a line, ten dashes, a line break. */
  const Marker := "<No best guess>\n" + "----------" + "\n"

  /** `re.sub('^<No best guess>\n-{10}\n', '', cell)`: the pattern is anchored at the
      start of the string, so at most the one leading marker goes. */
  function StripMarker(s: string): (r: string)
    ensures StartsWith(s, Marker) ==> s == Marker + r
    ensures !StartsWith(s, Marker) ==> r == s
  {
    if StartsWith(s, Marker) then s[|Marker|..] else s
  }

  /** `int(x)` on a float: truncation toward zero. */
  function Truncate(x: real): (n: int)
    ensures x >= 0.0 ==> 0.0 <= n as real <= x < n as real + 1.0
    ensures x < 0.0 ==> n as real - 1.0 < x <= n as real <= 0.0
  {
    if x >= 0.0 then x.Floor else -((-x).Floor)
  }

  function UnguessCell(c: InCell): OutCell
  {
    match c
    case Text(s) => OutText(StripMarker(s))
    case Number(x) => Whole(Truncate(x))
  }

  /** One row: each cell rewritten in place of the old one. */
  function UnguessRow(row: seq<InCell>): (out: seq<OutCell>)
    ensures |out| == |row|
    ensures forall i | 0 <= i < |row| :: out[i] == UnguessCell(row[i])
  {
    if |row| == 0 then [] else [UnguessCell(row[0])] + UnguessRow(row[1..])
  }

  /** A cell that begins with the marker loses exactly the marker. */
  lemma StripMarkerRoundTrip(s: string)
    ensures StripMarker(Marker + s) == s
  {
    assert (Marker + s)[..|Marker|] == Marker;
  }

  /** The marker is removed once: a text made of the marker twice keeps one. */
  lemma StripMarkerOnce()
    ensures StripMarker(Marker + Marker) == Marker
  {
    StripMarkerRoundTrip(Marker);
  }

  /** A quoted cell stays text and a numeric one becomes the integer part of its value;
      integral values are kept. */
  lemma UnguessCellMeaning(c: InCell)
    ensures UnguessCell(c).OutText? <==> c.Text?
    ensures c.Text? && !StartsWith(c.s, Marker) ==> UnguessCell(c) == OutText(c.s)
    ensures c.Number? && c.x == c.x.Floor as real ==> UnguessCell(c) == Whole(c.x.Floor)
  {
    if c.Number? && c.x == c.x.Floor as real && c.x < 0.0 {
      assert (-c.x).Floor == -(c.x.Floor);
    }
  }
}
