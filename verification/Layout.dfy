/** The printed signature field as text: where its lines break, and how long they get. */
module Layout {
  import opened Text
  import opened SigHeader

  // ---------- Lines and columns of a text ----------

  /** What follows the last bytes 13, 10. */
  function LastLine(text: string): (s: string) {
    if text == "" || Ends(text) then "" else LastLine(text[..|text| - 1]) + [text[|text| - 1]]
  }

  predicate Ends(text: string) {
    |text| >= 2 && text[|text| - 2] as int == 13 && text[|text| - 1] as int == 10
  }

  predicate Broken(text: string) {
    text != "" && (Ends(text) || Broken(text[..|text| - 1]))
  }

  /** The column reached after the text, which starts at column `initial`; a tab at the start of a line is eight columns. */
  function Columns(initial: nat, text: string): (n: nat) {
    if !Broken(text) then initial + |text|
    else
      var l := LastLine(text);
      |l| + if l != "" && l[0] as int == 9 then 7 else 0
  }

  predicate Inline(s: string) {
    forall c :: c in s ==> c as int != 13 && c as int != 10
  }

  lemma {:induction false} LineGoesOn(initial: nat, text: string, s: string)
    requires Inline(s) && (Broken(text) ==> LastLine(text) != "")
    ensures Columns(initial, text + s) == Columns(initial, text) + |s|
    ensures LastLine(text + s) == LastLine(text) + s && (Broken(text + s) <==> Broken(text))
  {
    if s == "" {
      assert text + s == text;
    } else {
      var t, x := s[..|s| - 1], s[|s| - 1];
      assert s == t + [x] && x in s && forall c :: c in t ==> c in s;
      LineGoesOn(initial, text, t);
      Associative(text, t, [x]);
      var u := text + t;
      assert (u + [x])[..|u|] == u && !Ends(u + [x]);
      Associative(LastLine(text), t, [x]);
    }
  }

  lemma LineStarts(initial: nat, text: string, s: string)
    requires Inline(s)
    ensures LastLine(text + "\r\n" + s) == s && Broken(text + "\r\n" + s)
    ensures Columns(initial, text + "\r\n" + s) == |s| + if s != "" && s[0] as int == 9 then 7 else 0
  {
    LineLast(text, s);
  }

  lemma {:induction false} LineLast(text: string, s: string)
    requires Inline(s)
    ensures LastLine(text + "\r\n" + s) == s && Broken(text + "\r\n" + s)
  {
    if s == "" {
      assert text + "\r\n" + s == text + "\r\n";
    } else {
      var t, x := s[..|s| - 1], s[|s| - 1];
      assert s == t + [x] && x in s && forall c :: c in t ==> c in s;
      LineLast(text, t);
      var u := text + "\r\n" + t;
      assert text + "\r\n" + s == u + [x] && (u + [x])[..|u|] == u && !Ends(u + [x]);
    }
  }

  // ---------- Lines that fit ----------

  /** A piece, or part of one, that is alone on its line because it cannot be broken: a tag other than h=, b=, bh= and z=;
      a name of h=, with the colon that follows it; or one byte of b=, bh= or z=. */
  predicate Unit(u: string, pvs: seq<string>) {
    || (u in pvs && Solid(u))
    || (exists pv :: pv in pvs && Which(pv) == "h" && NameOf(u, pv))
    || |u| == 1
    || (exists pv :: pv in pvs && |u| == |Which(pv)| + 2 && u[..|u| - 1] == Which(pv) + "=")
  }

  predicate Solid(pv: string) {
    !Has(pv, "h=") && !Has(pv, "b=") && !Has(pv, "bh=") && !Has(pv, "z=")
  }

  /** A tag of this name, with a value. */
  predicate Has(pv: string, head: string) {
    |pv| > |head| && pv[..|head|] == head
  }

  lemma HasWhich(pv: string, name: string)
    requires '=' !in name && Has(pv, name + "=")
    ensures Which(pv) == name && |pv| > |name| + 1
  {
    assert pv[|name|] == pv[..|name| + 1][|name|] == '=' && pv[..|name|] == pv[..|name| + 1][..|name|] == name;
    TokenLengthIs(name, pv[|name|..], '=');
    assert pv == name + pv[|name|..];
  }

  /** The pieces that are printed in one go. */
  lemma SolidIs(pv: string)
    requires Which(pv) !in {"h", "b", "bh", "z"} || |pv| <= |Which(pv)| + 1
    ensures Solid(pv)
  {
    hide Which, Has;
    assert "h" + "=" == "h=" && "b" + "=" == "b=" && "bh" + "=" == "bh=" && "z" + "=" == "z=";
    if Has(pv, "h=") {
      HasWhich(pv, "h");
    }
    if Has(pv, "b=") {
      HasWhich(pv, "b");
    }
    if Has(pv, "bh=") {
      HasWhich(pv, "bh");
    }
    if Has(pv, "z=") {
      HasWhich(pv, "z");
    }
  }

  predicate NameOf(u: string, pv: string) {
    u in Tokens(pv, ':') || (u != "" && u[|u| - 1] == ':' && u[..|u| - 1] in Tokens(pv, ':'))
  }

  /** A line is its first piece, or a unit behind a tab, or a tab and a space. */
  predicate Alone(text: string, pvs: seq<string>) {
    if !Broken(text) then pvs != [] && text == pvs[0]
    else
      var l := LastLine(text);
      || (|l| >= 1 && l[0] as int == 9 && Unit(l[1..], pvs))
      || (|l| >= 2 && l[0] as int == 9 && l[1] == ' ' && Unit(l[2..], pvs))
  }

  /** The line this text ends with is within the margin; or one column beyond it, with a colon at its end, or with a tag at
      its end whose space in front has not been counted; or it is a unit alone. */
  predicate Fits(initial: nat, margin: nat, text: string, pvs: seq<string>) {
    || Columns(initial, text) <= margin
    || (Columns(initial, text) == margin + 1 && (EndsIn(text, ":") || exists pv :: pv in pvs && EndsIn(text, " " + pv)))
    || Alone(text, pvs)
  }

  predicate EndsIn(text: string, s: string) {
    |s| <= |text| && text[|text| - |s|..] == s
  }

  /** So is every line before. */
  predicate Before(initial: nat, margin: nat, text: string, pvs: seq<string>) {
    forall p :: 0 <= p <= |text| - 2 && BreakAt(text, p) ==> Fits(initial, margin, text[..p], pvs)
  }

  predicate BreakAt(text: string, p: nat)
    requires p + 2 <= |text|
  {
    text[p] as int == 13 && text[p + 1] as int == 10
  }

  lemma BeforeOn(initial: nat, margin: nat, text: string, s: string, pvs: seq<string>)
    requires Before(initial, margin, text, pvs) && Inline(s)
    ensures Before(initial, margin, text + s, pvs)
  {
    hide Fits;
    var t := text + s;
    assert forall k :: |text| <= k < |t| ==> t[k] in s;
    forall p | 0 <= p <= |t| - 2 && BreakAt(t, p)
      ensures Fits(initial, margin, t[..p], pvs)
    {
      assert p + 1 < |text|;
      assert BreakAt(text, p) && text[..p] == t[..p];
    }
  }

  lemma BeforeBreak(initial: nat, margin: nat, text: string, pvs: seq<string>)
    requires Before(initial, margin, text, pvs) && Fits(initial, margin, text, pvs)
    requires text == "" || text[|text| - 1] as int != 13
    ensures Before(initial, margin, text + "\r\n", pvs)
  {
    hide Fits;
    var t := text + "\r\n";
    forall p | 0 <= p <= |t| - 2 && BreakAt(t, p)
      ensures Fits(initial, margin, t[..p], pvs)
    {
      if p == |text| {
        assert t[..p] == text;
      } else if p < |text| - 1 {
        assert BreakAt(text, p) && text[..p] == t[..p];
      }
    }
  }

  // ---------- The printer ----------

  /** The text so far is on a line that goes on, and has come to this column. */
  predicate At(initial: nat, text: string, len: nat) {
    && Columns(initial, text) == len && (Broken(text) ==> LastLine(text) != "")
    && (text != "" ==> text[|text| - 1] as int != 13)
  }

  lemma AtOn(initial: nat, text: string, len: nat, s: string)
    requires At(initial, text, len) && Inline(s)
    ensures At(initial, text + s, len + |s|) && LastLine(text + s) == LastLine(text) + s
    ensures Broken(text + s) == Broken(text)
  {
    hide Columns, LastLine;
    LineGoesOn(initial, text, s);
    if s == "" {
      assert text + s == text;
    } else {
      assert (text + s)[|text + s| - 1] == s[|s| - 1] && s[|s| - 1] in s;
    }
  }

  lemma AtNew(initial: nat, text: string, s: string)
    requires Inline(s)
    ensures At(initial, text + "\r\n\t" + s, 8 + |s|) && LastLine(text + "\r\n\t" + s) == "\t" + s
    ensures Broken(text + "\r\n\t" + s)
  {
    hide Columns, LastLine, Broken;
    var t := "\t" + s;
    assert text + "\r\n\t" + s == text + "\r\n" + t;
    LineStarts(initial, text, t);
    assert t[0] == '\t';
    var u := text + "\r\n" + t;
    assert u[|u| - 1] == t[|t| - 1];
    assert s != "" ==> t[|t| - 1] == s[|s| - 1] && s[|s| - 1] in s;
  }

  /** All lines before fit, and the text is behind one that fits, with a new line started. */
  lemma NewLine(initial: nat, margin: nat, text: string, s: string, pvs: seq<string>)
    requires Before(initial, margin, text, pvs) && Fits(initial, margin, text, pvs) && Inline(s)
    requires text == "" || text[|text| - 1] as int != 13
    ensures Before(initial, margin, text + "\r\n\t" + s, pvs)
  {
    hide Before, Fits;
    BeforeBreak(initial, margin, text, pvs);
    var t := "\t" + s;
    assert text + "\r\n\t" + s == text + "\r\n" + t;
    BeforeOn(initial, margin, text + "\r\n", t, pvs);
  }

  /** A unit behind a tab, or a tab and a space. */
  lemma UnitAlone(initial: nat, margin: nat, text: string, u: string, space: bool, pvs: seq<string>)
    requires Inline(u) && Unit(u, pvs)
    ensures Fits(initial, margin, text + "\r\n\t" + ((if space then " " else "") + u), pvs)
  {
    hide Columns, LastLine, Broken, Unit;
    var s := (if space then " " else "") + u;
    AtNew(initial, text, s);
    var l := "\t" + s;
    assert !space ==> s == u && l[1..] == u;
    assert space ==> l[1] == ' ' && l[2..] == u;
  }

  /** The names of h=, from the one at index i on; in front of them is a name that fits, or is alone. */
  lemma {:induction false} ColonsFit(initial: nat, margin: nat, text: string, names: seq<string>, len: nat, pv: string,
                                     last: string, pvs: seq<string>)
    requires Before(initial, margin, text, pvs) && At(initial, text, len)
    requires pv in pvs && Which(pv) == "h" && (forall n :: n in names ==> n in Tokens(pv, ':') && Inline(n))
    requires last in Tokens(pv, ':') && Inline(last)
    requires len <= margin || NameAlone(text, last)
    ensures var (s, n) := BreakColons(names, len, margin);
            && Before(initial, margin, text + s, pvs) && Fits(initial, margin, text + s, pvs) && At(initial, text + s, n)
    decreases |names|
  {
    hide Before, Fits, At, Columns, Tokens, BreakColons, NameAlone, Which, ColonBefore;
    if names == [] {
      BreakNoColons(len, margin);
      assert text + "" == text;
      NameFits(initial, margin, text, last, len, pv, "", pvs);
    } else {
      var name := names[0];
      assert name in names && forall n :: n in names[1..] ==> n in names;
      ColonsNext(names, 0, len, margin);
      assert names[0..] == names;
      var (sep, n) := ColonBefore(name, len, margin);
      var rest := BreakColons(names[1..], n, margin).0;
      assert text + (sep + (name + rest)) == text + sep + name + rest;
      NextName(initial, margin, text, name, len, pv, last, pvs);
      ColonsFit(initial, margin, text + sep + name, names[1..], n, pv, name, pvs);
    }
  }

  /** One name, with the colon in front of it. */
  lemma NextName(initial: nat, margin: nat, text: string, name: string, len: nat, pv: string, last: string, pvs: seq<string>)
    requires Before(initial, margin, text, pvs) && At(initial, text, len)
    requires pv in pvs && Which(pv) == "h" && name in Tokens(pv, ':') && Inline(name)
    requires last in Tokens(pv, ':') && Inline(last)
    requires len <= margin || NameAlone(text, last)
    ensures var (sep, n) := ColonBefore(name, len, margin);
            && Before(initial, margin, text + sep + name, pvs) && At(initial, text + sep + name, n)
            && (n <= margin || NameAlone(text + sep + name, name))
  {
    hide Before, Fits, At, Columns, Tokens, NameAlone, Which;
    if len + |name| + 1 > margin {
      var sep := ":\r\n\t ";
      NameFits(initial, margin, text, last, len, pv, ":", pvs);
      BeforeOn(initial, margin, text, ":", pvs);
      AtOn(initial, text, len, ":");
      LastByte(initial, text + ":", len + 1);
      NewLine(initial, margin, text + ":", " " + name, pvs);
      AtNew(initial, text + ":", " " + name);
      assert text + ":" + "\r\n\t" + (" " + name) == text + sep + name;
      IsNameAlone(text + sep, name);
    } else {
      assert text + ":" + name == text + (":" + name);
      BeforeOn(initial, margin, text, ":" + name, pvs);
      AtOn(initial, text, len, ":" + name);
    }
  }

  lemma LastByte(initial: nat, text: string, len: nat)
    requires At(initial, text, len)
    ensures text == "" || text[|text| - 1] as int != 13
  {
  }

  predicate NameAlone(text: string, name: string) {
    Broken(text) && (LastLine(text) == "\t" + name || LastLine(text) == "\t" + (" " + name))
  }

  lemma IsNameAlone(text: string, name: string)
    requires Inline(name) && EndsIn(text, "\r\n\t ")
    ensures NameAlone(text + name, name)
  {
    hide LastLine, Broken;
    var t := text[..|text| - 4];
    assert text == t + "\r\n\t ";
    assert text + name == t + "\r\n" + ("\t" + (" " + name));
    LineLast(t, "\t" + (" " + name));
  }

  lemma NameFits(initial: nat, margin: nat, text: string, name: string, len: nat, pv: string, end: string, pvs: seq<string>)
    requires At(initial, text, len) && (len <= margin || NameAlone(text, name)) && (end == "" || end == ":")
    requires pv in pvs && Which(pv) == "h" && name in Tokens(pv, ':')
    ensures Fits(initial, margin, text + end, pvs)
  {
    hide Columns, Broken, Tokens, Which, LastLine, Unit, At, Inline;
    ColonInline(end);
    AtOn(initial, text, len, end);
    NameUnit(name, end, pv, pvs);
    if len <= margin {
      ColonEnds(text, end);
      AtColumn(initial, text + end, len + |end|);
    } else {
      NameBehindTab(text, name, end, pvs);
    }
  }

  lemma ColonInline(end: string)
    requires end == "" || end == ":"
    ensures Inline(end)
  {
  }

  lemma AtColumn(initial: nat, text: string, len: nat)
    requires At(initial, text, len)
    ensures Columns(initial, text) == len
  {
  }

  lemma ColonEnds(text: string, end: string)
    ensures end == ":" ==> EndsIn(text + end, ":")
  {
  }

  lemma NameUnit(name: string, end: string, pv: string, pvs: seq<string>)
    requires pv in pvs && Which(pv) == "h" && name in Tokens(pv, ':') && (end == "" || end == ":")
    ensures Unit(name + end, pvs)
  {
    hide Tokens, Which;
    var u := name + end;
    assert end == "" ==> u == name;
    assert end == ":" ==> u[|u| - 1] == ':' && u[..|u| - 1] == name;
    assert NameOf(u, pv);
  }

  lemma NameBehindTab(text: string, name: string, end: string, pvs: seq<string>)
    requires NameAlone(text, name) && Unit(name + end, pvs)
    requires LastLine(text + end) == LastLine(text) + end && Broken(text + end)
    ensures Alone(text + end, pvs)
  {
    hide LastLine, Broken, Unit;
    var u := name + end;
    if LastLine(text) == "\t" + name {
      var l := "\t" + name + end;
      assert l == LastLine(text + end) && l[1..] == u;
    } else {
      var l := "\t" + (" " + name) + end;
      assert l == LastLine(text + end) && l[1] == ' ' && l[2..] == u;
    }
  }

  /** The bytes of b=, bh= and z=; the first may come where the margin has been reached already. */
  lemma {:induction false} MarginFits(initial: nat, margin: nat, text: string, value: string, len: nat, pv: string, pvs: seq<string>)
    requires Before(initial, margin, text, pvs) && At(initial, text, len) && Inline(value) && pv in pvs
    requires value != "" ==> len < margin || FirstOn(text, pv)
    requires value == "" ==> Fits(initial, margin, text, pvs)
    ensures var (s, n) := BreakMargin(value, len, margin);
            && Before(initial, margin, text + s, pvs) && Fits(initial, margin, text + s, pvs) && At(initial, text + s, n)
    decreases |value|
  {
    hide Before, Fits, At, Columns, BreakMargin, FirstOn;
    if value == "" {
      BreakNothing(len, margin);
      assert text + "" == text;
    } else {
      var c, more := [value[0]], value[1..];
      InlineParts(value);
      assert value[0..] == value;
      BreakStep(value, 0, len, margin);
      BeforeOn(initial, margin, text, c, pvs);
      AtOn(initial, text, len, c);
      ByteFits(initial, margin, text, c, len, pv, pvs);
      if len + 1 >= margin && |value| > 1 {
        BreakAfter(initial, margin, text + c, len + 1, pv, pvs);
        MarginFits(initial, margin, text + c + "\r\n\t ", more, 9, pv, pvs);
        Glued(text, c, "\r\n\t ", BreakMargin(more, 9, margin).0);
      } else {
        MarginFits(initial, margin, text + c, more, len + 1, pv, pvs);
        Glued(text, c, "", BreakMargin(more, len + 1, margin).0);
      }
    }
  }

  lemma InlineParts(s: string)
    requires s != "" && Inline(s)
    ensures Inline([s[0]]) && Inline(s[1..])
  {
    assert s[0] in s && forall x :: x in s[1..] ==> x in s;
  }

  lemma Glued(a: string, b: string, c: string, d: string)
    ensures a + ((b + c) + d) == a + b + c + d
    ensures c == "" ==> a + ((b + c) + d) == a + b + d
  {
    assert c == "" ==> b + c == b;
  }

  /** A line is broken behind the text, and goes on with a tab and a space. */
  lemma BreakAfter(initial: nat, margin: nat, text: string, len: nat, pv: string, pvs: seq<string>)
    requires Before(initial, margin, text, pvs) && Fits(initial, margin, text, pvs) && At(initial, text, len)
    ensures Before(initial, margin, text + "\r\n\t ", pvs) && At(initial, text + "\r\n\t ", 9) && FirstOn(text + "\r\n\t ", pv)
  {
    hide Before, Fits, At, FirstOn;
    LastByte(initial, text, len);
    NewLine(initial, margin, text, " ", pvs);
    AtNew(initial, text, " ");
    assert text + "\r\n\t" + " " == text + "\r\n\t ";
    IsFirstOn(text, pv);
  }

  predicate FirstOn(text: string, pv: string) {
    Broken(text) && (LastLine(text) == "\t " || LastLine(text) == "\t" + (Which(pv) + "="))
  }

  lemma IsFirstOn(text: string, pv: string)
    ensures FirstOn(text + "\r\n\t ", pv)
  {
    hide LastLine, Broken;
    assert text + "\r\n\t " == text + "\r\n" + "\t ";
    LineLast(text, "\t ");
  }

  lemma ByteFits(initial: nat, margin: nat, text: string, c: string, len: nat, pv: string, pvs: seq<string>)
    requires At(initial, text, len) && |c| == 1 && Inline(c) && pv in pvs && (len < margin || FirstOn(text, pv))
    ensures Fits(initial, margin, text + c, pvs)
  {
    hide Columns, Broken, Which, LastLine;
    AtOn(initial, text, len, c);
    if len >= margin {
      if LastLine(text) == "\t " {
        var l := "\t " + c;
        assert l == LastLine(text + c) && l[1] == ' ' && l[2..] == c && Unit(c, pvs);
      } else {
        var u := Which(pv) + "=" + c;
        var l := "\t" + (Which(pv) + "=") + c;
        assert l == LastLine(text + c) && l[1..] == u && u[..|u| - 1] == Which(pv) + "=";
        assert Unit(u, pvs);
      }
    }
  }

  // ---------- A whole field ----------

  /** A piece on a new line. */
  lemma PieceFits(initial: nat, margin: nat, text: string, pv: string, pvs: seq<string>)
    requires Before(initial, margin, text, pvs) && Fits(initial, margin, text, pvs) && pv in pvs && pv != "" && Inline(pv)
    requires text == "" || text[|text| - 1] as int != 13
    ensures var (s, n) := OnNewLine(pv, margin);
            var t := text + "\r\n\t" + s;
            Before(initial, margin, t, pvs) && Fits(initial, margin, t, pvs) && At(initial, t, n)
  {
    hide Before, Fits, At, Tokens, BreakColons, BreakMargin, NameAlone, FirstOn, Which, TokenLength, Inline, PlaceNames;
    var which := Which(pv);
    if which == "h" {
      NamesFit(initial, margin, text, pv, pvs);
    } else if (which == "b" || which == "bh" || which == "z") && |pv| > |which| {
      ValueFits(initial, margin, text, pv, pvs);
    } else {
      NewLine(initial, margin, text, pv, pvs);
      AtNew(initial, text, pv);
      PvUnit(pv, pvs);
      UnitAlone(initial, margin, text, pv, false, pvs);
      assert "" + pv == pv;
    }
  }

  lemma PvUnit(pv: string, pvs: seq<string>)
    requires pv in pvs && (Which(pv) !in {"h", "b", "bh", "z"} || |pv| <= |Which(pv)| + 1)
    ensures Unit(pv, pvs)
  {
    hide Which, Has;
    SolidIs(pv);
  }

  lemma ValueFits(initial: nat, margin: nat, text: string, pv: string, pvs: seq<string>)
    requires Before(initial, margin, text, pvs) && Fits(initial, margin, text, pvs) && pv in pvs && Inline(pv)
    requires (text == "" || text[|text| - 1] as int != 13) && |pv| > |Which(pv)|
    ensures var which := Which(pv);
            var rest := BreakMargin(pv[|which| + 1..], 8 + |which| + 1, margin);
            var t := text + "\r\n\t" + (which + "=" + rest.0);
            Before(initial, margin, t, pvs) && Fits(initial, margin, t, pvs) && At(initial, t, rest.1)
  {
    hide Before, Fits, At, BreakMargin, FirstOn, Which, Inline;
    var which := Which(pv);
    WhichIs(pv);
    var value, head := pv[|which| + 1..], which + "=";
    InlineSplit(pv, head, value);
    WhichInline(pv);
    NewLine(initial, margin, text, head, pvs);
    AtNew(initial, text, head);
    var t := text + "\r\n\t" + head;
    HeadOn(text, pv);
    if value == "" {
      assert head == pv && "" + pv == pv;
      PvUnit(pv, pvs);
      UnitAlone(initial, margin, text, pv, false, pvs);
    }
    MarginFits(initial, margin, t, value, 8 + |which| + 1, pv, pvs);
    var rest := BreakMargin(value, 8 + |which| + 1, margin).0;
    Associative(text + "\r\n\t", head, rest);
  }

  lemma WhichInline(pv: string)
    requires Inline(pv)
    ensures Inline(Which(pv))
  {
    WhichIs(pv);
    assert forall c :: c in Which(pv) ==> c in pv;
  }

  lemma WhichIs(pv: string)
    ensures Which(pv) <= pv && (|pv| > |Which(pv)| ==> pv == Which(pv) + "=" + pv[|Which(pv)| + 1..])
  {
  }

  lemma InlineSplit(pv: string, a: string, b: string)
    requires pv == a + b && Inline(pv)
    ensures Inline(a) && Inline(b)
  {
    assert forall c :: c in a || c in b ==> c in a + b;
  }

  lemma HeadOn(text: string, pv: string)
    requires Inline(Which(pv))
    ensures FirstOn(text + "\r\n\t" + (Which(pv) + "="), pv)
  {
    hide LastLine, Broken, Which;
    var l := "\t" + (Which(pv) + "=");
    assert text + "\r\n\t" + (Which(pv) + "=") == text + "\r\n" + l;
    LineLast(text, l);
  }

  lemma {:induction false} TokensInline(s: string, d: char)
    requires Inline(s)
    ensures forall t :: t in Tokens(s, d) ==> Inline(t)
    decreases |s|
  {
    if s != "" {
      var n := if s[0] == d then 1 else TokenLength(s, d);
      assert forall c :: c in s[n..] || c in s[..n] ==> c in s;
      TokensInline(s[n..], d);
    }
  }

  lemma NamesFit(initial: nat, margin: nat, text: string, pv: string, pvs: seq<string>)
    requires Before(initial, margin, text, pvs) && Fits(initial, margin, text, pvs) && pv in pvs && pv != "" && Inline(pv)
    requires text == "" || text[|text| - 1] as int != 13
    requires Which(pv) == "h"
    ensures var (s, n) := PlaceNames(Tokens(pv, ':'), margin);
            var t := text + "\r\n\t" + s;
            Before(initial, margin, t, pvs) && Fits(initial, margin, t, pvs) && At(initial, t, n)
  {
    hide Before, Fits, At, Tokens, BreakColons, NameAlone, Which;
    TokensInline(pv, ':');
    var names := Tokens(pv, ':');
    SomeToken(pv);
    var first := names[0];
    assert first in names && forall n :: n in names[1..] ==> n in names;
    NewLine(initial, margin, text, first, pvs);
    AtNew(initial, text, first);
    var t := text + "\r\n\t" + first;
    FirstAlone(text, first);
    ColonsFit(initial, margin, t, names[1..], 8 + |first|, pv, first, pvs);
    var rest := BreakColons(names[1..], 8 + |first|, margin).0;
    assert text + "\r\n\t" + (first + rest) == t + rest;
  }

  lemma SomeToken(pv: string)
    requires Which(pv) == "h"
    ensures Tokens(pv, ':') != []
  {
  }

  lemma FirstAlone(text: string, name: string)
    requires Inline(name)
    ensures NameAlone(text + "\r\n\t" + name, name)
  {
    hide LastLine, Broken;
    assert text + "\r\n\t" + name == text + "\r\n" + ("\t" + name);
    LineLast(text, "\t" + name);
  }

  /** All pieces up to the i-th. */
  lemma {:induction false} PlacedFit(margin: nat, siglen: nat, initial: nat, pvs: seq<string>, i: nat)
    requires margin > 0 && i <= |pvs| && forall pv :: pv in pvs ==> pv != "" && Inline(pv)
    ensures var l := PlaceAll(margin, siglen, Line("", initial, true), pvs[..i]);
            && Before(initial, margin, l.out, pvs) && (i > 0 ==> Fits(initial, margin, l.out, pvs)) && At(initial, l.out, l.len)
            && l.first == (i == 0) && (i == 0 ==> l.out == "") && (i > 0 ==> l.len > 0)
  {
    hide Before, Fits, At, Place;
    if i == 0 {
      StartsAt(margin, initial, pvs);
      assert pvs[..0] == [];
    } else {
      var n := i - 1;
      assert pvs[n] in pvs && pvs[..i][..n] == pvs[..n];
      PlacedFit(margin, siglen, initial, pvs, n);
      var l := PlaceAll(margin, siglen, Line("", initial, true), pvs[..n]);
      if n == 0 {
        FirstPlaced(margin, siglen, initial, l, pvs);
      } else {
        NextPlaced(margin, siglen, initial, l, pvs[n], pvs);
      }
    }
  }

  lemma FirstPlaced(margin: nat, siglen: nat, initial: nat, l: Line, pvs: seq<string>)
    requires pvs != [] && pvs[0] != "" && Inline(pvs[0]) && l == Line("", initial, true)
    requires Before(initial, margin, "", pvs) && At(initial, "", initial)
    ensures var r := Place(margin, siglen, l, pvs[0]);
            && Before(initial, margin, r.out, pvs) && Fits(initial, margin, r.out, pvs) && At(initial, r.out, r.len)
            && !r.first && r.len > 0
  {
    hide Before, Fits, At, OnNewLine, Breaks;
    AtOn(initial, "", initial, pvs[0]);
    BeforeOn(initial, margin, "", pvs[0], pvs);
    FirstFits(initial, margin, pvs);
    assert "" + pvs[0] == pvs[0];
  }

  lemma NextPlaced(margin: nat, siglen: nat, initial: nat, l: Line, pv: string, pvs: seq<string>)
    requires pv in pvs && pv != "" && Inline(pv) && !l.first && l.len > 0
    requires Before(initial, margin, l.out, pvs) && Fits(initial, margin, l.out, pvs) && At(initial, l.out, l.len)
    ensures var r := Place(margin, siglen, l, pv);
            && Before(initial, margin, r.out, pvs) && Fits(initial, margin, r.out, pvs) && At(initial, r.out, r.len)
            && !r.first && r.len > 0
  {
    hide Before, Fits, At, OnNewLine, Which;
    LastByte(initial, l.out, l.len);
    if Breaks(margin, siglen, l, pv) {
      PieceFits(initial, margin, l.out, pv, pvs);
      NewLineLong(pv, margin);
    } else {
      var s := " " + pv;
      AtOn(initial, l.out, l.len, s);
      BeforeOn(initial, margin, l.out, s, pvs);
      assert l.out + s == l.out + " " + pv;
      SpacedFits(initial, margin, l.out, l.len, pv, pvs);
    }
  }

  lemma StartsAt(margin: nat, initial: nat, pvs: seq<string>)
    ensures Before(initial, margin, "", pvs) && At(initial, "", initial)
  {
  }

  lemma FirstFits(initial: nat, margin: nat, pvs: seq<string>)
    requires pvs != [] && Inline(pvs[0])
    ensures Fits(initial, margin, pvs[0], pvs)
  {
    LineGoesOn(initial, "", pvs[0]);
    assert "" + pvs[0] == pvs[0];
  }

  lemma SpacedFits(initial: nat, margin: nat, text: string, len: nat, pv: string, pvs: seq<string>)
    requires At(initial, text, len) && len + |pv| <= margin && pv in pvs && Inline(pv)
    ensures Fits(initial, margin, text + (" " + pv), pvs)
  {
    hide Columns, Broken, LastLine;
    AtOn(initial, text, len, " " + pv);
    assert EndsIn(text + (" " + pv), " " + pv);
  }

  lemma NewLineLong(pv: string, margin: nat)
    ensures OnNewLine(pv, margin).1 > 0
  {
    if Which(pv) == "h" {
      var names := Tokens(pv, ':');
      if names != [] {
        ColonsLong(names[1..], 8 + |names[0]|, margin);
      }
    } else if (Which(pv) == "b" || Which(pv) == "bh" || Which(pv) == "z") && |pv| > |Which(pv)| {
      MarginLong(pv[|Which(pv)| + 1..], 8 + |Which(pv)| + 1, margin);
    }
  }

  lemma ColonsLong(names: seq<string>, len: nat, margin: nat)
    requires len > 0
    ensures BreakColons(names, len, margin).1 > 0
    decreases |names|
  {
  }

  lemma MarginLong(value: string, len: nat, margin: nat)
    requires len > 0
    ensures BreakMargin(value, len, margin).1 > 0
    decreases |value|
  {
  }

  /** Every line of a printed signature field fits, for every margin but 0: it is within the margin; or one column beyond it,
      with a colon at its end, or with a tag at its end whose space in front has not been counted; or what it holds is alone
      there and cannot be broken. */
  lemma LinesFit(margin: nat, siglen: nat, initial: nat, pvs: seq<string>, p: nat)
    requires margin > 0 && pvs != [] && forall pv :: pv in pvs ==> pv != "" && Inline(pv)
    requires var text := Render(margin, initial, siglen, pvs);
             p == |text| || (p + 2 <= |text| && BreakAt(text, p))
    ensures Fits(initial, margin, Render(margin, initial, siglen, pvs)[..p], pvs)
  {
    hide Fits;
    PlacedFit(margin, siglen, initial, pvs, |pvs|);
    assert pvs[..|pvs|] == pvs;
    var text := Render(margin, initial, siglen, pvs);
    assert text[..|text|] == text;
  }

  /** And a line is broken between two tags exactly where the second would have passed the margin, or where b= and its
      signature to come would have; otherwise there is a space. */
  lemma BreaksWhere(margin: nat, siglen: nat, initial: nat, pvs: seq<string>, i: nat)
    requires margin > 0 && 0 < i < |pvs| && forall pv :: pv in pvs ==> pv != "" && Inline(pv)
    ensures var text, more := Render(margin, initial, siglen, pvs[..i]), Render(margin, initial, siglen, pvs[..i + 1]);
            var len, pv := Columns(initial, text), pvs[i];
            if len + |pv| > margin || (Which(pv) == "b" && len + 1 + siglen + 1 >= margin)
            then text + "\r\n\t" <= more else more == text + " " + pv
  {
    hide Before, Fits, Columns, OnNewLine, Which;
    PlacedFit(margin, siglen, initial, pvs, i);
    assert pvs[..i + 1][..i] == pvs[..i];
  }

  /** Within h= a line is broken before a name exactly where it would have passed the margin. */
  lemma NameBreaks(initial: nat, text: string, name: string, more: seq<string>, margin: nat)
    ensures var (s, _) := BreakColons([name] + more, Columns(initial, text), margin);
            if Columns(initial, text + ":" + name) > margin && Inline(name) && (Broken(text) ==> LastLine(text) != "")
            then ":\r\n\t " + name <= s
            else Inline(name) && (Broken(text) ==> LastLine(text) != "") ==> ":" + name <= s
  {
    hide Columns, Broken, LastLine;
    var names := [name] + more;
    assert names[0] == name && names[1..] == more;
    if Inline(name) && (Broken(text) ==> LastLine(text) != "") {
      assert text + ":" + name == text + (":" + name);
      LineGoesOn(initial, text, ":" + name);
    }
  }

  /** Within b=, bh= and z= exactly after the byte that reaches the margin, unless it is the last. */
  lemma ByteBreaks(initial: nat, text: string, value: string, margin: nat)
    requires value != "" && value[0] as int != 13 && value[0] as int != 10 && (Broken(text) ==> LastLine(text) != "")
    ensures var (s, _) := BreakMargin(value, Columns(initial, text), margin);
            if Columns(initial, text + [value[0]]) >= margin && |value| > 1
            then [value[0]] + "\r\n\t " <= s
            else [value[0]] <= s && (|value| > 1 ==> |s| > 1 && s[1] == value[1])
  {
    hide Columns, Broken, LastLine;
    LineGoesOn(initial, text, [value[0]]);
  }
}
