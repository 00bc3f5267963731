/**
  Parsing of the `All equal` column (main.py line 152): the cell is turned into
  text with `astype(str)`, lower-cased, and then "y" becomes True, "n" and ""
  become False, and every other text is kept as it is. Row code later tests the
  value for truth, so a kept text counts as true.
 */
module Flags {
  import opened Options

  /** A parsed `All equal` value: a boolean, or the lower-cased text left unchanged. */
  datatype AllEqual = Flag(b: bool) | Text(s: string)

  /** `astype(str)` of a cell: an empty cell is NaN, whose text is "nan". */
  function CellText(cell: Option<string>): (t: string)
    ensures cell.Some? ==> t == cell.value
  {
    match cell
    case None => "nan"
    case Some(s) => s
  }

  /** ASCII case folding of `str.lower`. */
  function LowerChar(c: char): (d: char)
    ensures 'A' <= c <= 'Z' ==> d as int == c as int + 32
    ensures !('A' <= c <= 'Z') ==> d == c
    ensures !('A' <= d <= 'Z')
  {
    if 'A' <= c <= 'Z' then (c as int + 32) as char else c
  }

  function Lower(s: string): (r: string)
    ensures |r| == |s|
    ensures forall i :: 0 <= i < |s| ==> r[i] == LowerChar(s[i])
  {
    seq(|s|, i requires 0 <= i < |s| => LowerChar(s[i]))
  }

  function ParseAllEqual(cell: Option<string>): (v: AllEqual)
    ensures v == Flag(true) <==> Lower(CellText(cell)) == "y"
    ensures v == Flag(false) <==> Lower(CellText(cell)) == "n" || Lower(CellText(cell)) == ""
    ensures v.Text? ==> v.s == Lower(CellText(cell))
  {
    var t := Lower(CellText(cell));
    if t == "y" then Flag(true)
    else if t == "n" || t == "" then Flag(false)
    else Text(t)
  }

  /** Python truthiness of the parsed value, as tested by `elif row['All equal']`. */
  function IsTrue(v: AllEqual): (b: bool)
    ensures !b <==> v == Flag(false) || v == Text("")
  {
    match v
    case Flag(b) => b
    case Text(s) => s != ""
  }

  /** The all-equal policy applies exactly when the lower-cased cell text is
      neither "n" nor empty: "y", but also "no", "yes" or an empty cell ("nan"). */
  lemma AllEqualTruth(cell: Option<string>)
    ensures IsTrue(ParseAllEqual(cell)) <==> Lower(CellText(cell)) != "n" && Lower(CellText(cell)) != ""
  {
  }

  /** An empty `All equal` cell selects the all-equal policy. */
  lemma EmptyCellIsTrue()
    ensures IsTrue(ParseAllEqual(None))
  {
    assert Lower("nan") == "nan";
  }

  /** Upper-case "Y" and "N" parse like their lower-case forms. */
  lemma UpperCaseFlags()
    ensures ParseAllEqual(Some("Y")) == Flag(true)
    ensures ParseAllEqual(Some("N")) == Flag(false)
  {
    assert Lower("Y") == "y";
    assert Lower("N") == "n";
  }
}
