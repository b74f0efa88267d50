/** Bytes by their codes, and any text taken apart into words and what stands between them. */
module Spacing {
  import opened Text

  /** isspace() in the C locale: tab, LF, vertical tab, form feed, CR and space. */
  predicate SpaceByte(c: char) {
    c as int in {9, 10, 11, 12, 13, 32}
  }

  /** White space within a line: tab, vertical tab, form feed and space. */
  predicate BlankByte(c: char) {
    c as int in {9, 11, 12, 32}
  }

  /** The small letter for a capital one. */
  function SmallByte(c: char): (l: char) {
    if 65 <= c as int <= 90 then (c as int + 32) as char else c
  }

  function Small(s: string): (r: string)
    ensures |r| == |s| && forall i :: 0 <= i < |s| ==> r[i] == SmallByte(s[i])
  {
    seq(|s|, i requires 0 <= i < |s| => SmallByte(s[i]))
  }

  /** Equal but for letters that are capital in one and small in the other. */
  predicate Alike(a: string, b: string) {
    |a| == |b| && forall i :: 0 <= i < |a| ==> AlikeByte(a[i], b[i])
  }

  predicate AlikeByte(c: char, d: char) {
    || c == d
    || (65 <= c as int <= 90 && d as int == c as int + 32)
    || (65 <= d as int <= 90 && c as int == d as int + 32)
  }

  lemma SpaceIs(c: char)
    ensures IsSpace(c) <==> SpaceByte(c)
    ensures IsLwsp(c) <==> BlankByte(c)
  {
  }

  lemma LowerIs(c: char)
    ensures Lower(c) == SmallByte(c)
  {
  }

  /** strcasecmp() finds two strings equal exactly when they are alike. */
  lemma FoldIs(a: string, b: string)
    ensures Fold(a) == Fold(b) <==> Alike(a, b)
    ensures Fold(a) == Small(a)
  {
    forall c, d
      ensures Lower(c) == Lower(d) <==> AlikeByte(c, d)
    {
    }
    if Fold(a) == Fold(b) {
      forall i | 0 <= i < |a|
        ensures AlikeByte(a[i], b[i])
      {
        assert Fold(a)[i] == Fold(b)[i];
      }
    }
  }

  // ---------- Words and gaps ----------

  predicate Only(blank: char -> bool, s: string) {
    forall c :: c in s ==> blank(c)
  }

  predicate Free(blank: char -> bool, s: string) {
    forall c :: c in s ==> !blank(c)
  }

  /** Words without blanks, each followed by a gap of blanks, which only after the last may be empty. */
  predicate Parted(blank: char -> bool, words: seq<string>, gaps: seq<string>) {
    && |words| == |gaps|
    && (forall i :: 0 <= i < |words| ==> words[i] != "" && Free(blank, words[i]) && Only(blank, gaps[i]))
    && (forall i :: 0 <= i < |words| - 1 ==> gaps[i] != "")
  }

  function Spread(words: seq<string>, gaps: seq<string>): (s: string) {
    if words == [] || gaps == [] then "" else words[0] + gaps[0] + Spread(words[1..], gaps[1..])
  }

  lemma PartedRest(blank: char -> bool, words: seq<string>, gaps: seq<string>)
    requires Parted(blank, words, gaps) && words != []
    ensures Parted(blank, words[1..], gaps[1..])
    ensures words[0] != "" && Free(blank, words[0]) && Only(blank, gaps[0]) && (|words| > 1 ==> gaps[0] != "")
  {
  }

  /** Every text can be taken apart like this. */
  lemma Parts(blank: char -> bool, v: string) returns (first: string, words: seq<string>, gaps: seq<string>)
    ensures Only(blank, first) && Parted(blank, words, gaps) && v == first + Spread(words, gaps)
  {
    hide Parted, Spread;
    if v == "" {
      first, words, gaps := "", [], [];
      PartedNone(blank);
    } else {
      var f, ws, gs := Parts(blank, v[1..]);
      var c := v[0];
      assert v == [c] + v[1..];
      if blank(c) {
        first, words, gaps := [c] + f, ws, gs;
      } else if f == "" && ws != [] {
        first, words, gaps := "", [[c] + ws[0]] + ws[1..], gs;
        PartedLonger(blank, c, ws, gs);
      } else {
        first, words, gaps := "", [[c]] + ws, [f] + gs;
        PartedCons(blank, c, f, ws, gs);
      }
    }
  }

  lemma PartedNone(blank: char -> bool)
    ensures Parted(blank, [], []) && Spread([], []) == ""
  {
  }

  /** A byte in front of the first word. */
  lemma PartedLonger(blank: char -> bool, c: char, ws: seq<string>, gs: seq<string>)
    requires !blank(c) && Parted(blank, ws, gs) && ws != []
    ensures var words := [[c] + ws[0]] + ws[1..];
            Parted(blank, words, gs) && Spread(words, gs) == [c] + Spread(ws, gs)
  {
    var words := [[c] + ws[0]] + ws[1..];
    assert Free(blank, ws[0]) && Free(blank, words[0]);
    assert words[1..] == ws[1..];
    assert [c] + (ws[0] + gs[0] + Spread(ws[1..], gs[1..])) == [c] + ws[0] + gs[0] + Spread(ws[1..], gs[1..]);
  }

  lemma PartedCons(blank: char -> bool, c: char, f: string, ws: seq<string>, gs: seq<string>)
    requires !blank(c) && Only(blank, f) && Parted(blank, ws, gs) && (f == "" ==> ws == [])
    ensures Parted(blank, [[c]] + ws, [f] + gs) && Spread([[c]] + ws, [f] + gs) == [c] + (f + Spread(ws, gs))
  {
    var words, gaps := [[c]] + ws, [f] + gs;
    assert words[1..] == ws && gaps[1..] == gs;
    forall i | 0 <= i < |words|
      ensures words[i] != "" && Free(blank, words[i]) && Only(blank, gaps[i]) && (i < |words| - 1 ==> gaps[i] != "")
    {
      if i > 0 {
        assert words[i] == ws[i - 1] && gaps[i] == gs[i - 1];
      }
    }
  }
}
