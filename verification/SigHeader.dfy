/** The signature header field: printing it with line breaks (dkim_gensighdr, dkim_getsighdr_d) and taking the value
    of its b= tag out again to verify it (dkim_canon_runheaders). */
module SigHeader {
  import opened Text
  import opened Base64
  import opened HeaderCanon

  const MAXTAGNAME: nat := 8
  const DELIMITER: char := 1 as char

  datatype Tag = Tag(name: string, value: string)

  /** What the printer puts between delimiters for every tag but b=. */
  function Piece(t: Tag): (pv: string) {
    t.name + "=" + t.value + ";"
  }

  function Pieces(tags: seq<Tag>): (pvs: seq<string>)
    ensures |pvs| == |tags| && forall i :: 0 <= i < |tags| ==> pvs[i] == Piece(tags[i])
  {
    seq(|tags|, i requires 0 <= i < |tags| => Piece(tags[i]))
  }

  /** Tag names are short and do not end in b (b= itself comes last and is not among them); a value has no
      semicolon, and the delimiter is in neither. */
  predicate TagOk(t: Tag) {
    && 0 < |t.name| <= MAXTAGNAME
    && (forall c :: c in t.name ==> c != '=' && c != ';' && c != '\0' && c != DELIMITER)
    && t.name[|t.name| - 1] != 'b'
    && ';' !in t.value && DELIMITER !in t.value
  }

  predicate TagsOk(tags: seq<Tag>) {
    forall i :: 0 <= i < |tags| ==> TagOk(tags[i])
  }

  // ---------- Line breaking ----------

  datatype Line = Line(out: string, len: nat, first: bool)

  function Which(pv: string): (name: string) {
    pv[..TokenLength(pv, '=')]
  }

  /** h=: break before a name that would pass the margin. */
  function ColonBefore(name: string, len: nat, margin: nat): (r: (string, nat)) {
    if len + |name| + 1 > margin then (":\r\n\t ", 9 + |name|) else (":", len + 1 + |name|)
  }

  function BreakColons(names: seq<string>, len: nat, margin: nat): (r: (string, nat))
    decreases |names|
  {
    if names == [] then ("", len)
    else
      var (sep, n) := ColonBefore(names[0], len, margin);
      var rest := BreakColons(names[1..], n, margin);
      (sep + (names[0] + rest.0), rest.1)
  }

  /** All the names, the first where the line starts. */
  function PlaceNames(names: seq<string>, margin: nat): (r: (string, nat)) {
    if names == [] then ("", 8)
    else
      var rest := BreakColons(names[1..], 8 + |names[0]|, margin);
      (names[0] + rest.0, rest.1)
  }

  /** b=, bh= and z=: break wherever the margin is reached. */
  function BreakMargin(value: string, len: nat, margin: nat): (r: (string, nat))
    decreases |value|
  {
    if value == "" then ("", len)
    else if len + 1 >= margin && |value| > 1 then
      var rest := BreakMargin(value[1..], 9, margin);
      ([value[0]] + "\r\n\t " + rest.0, rest.1)
    else
      var rest := BreakMargin(value[1..], len + 1, margin);
      ([value[0]] + rest.0, rest.1)
  }

  /** A piece at the start of a new line, 8 columns in. */
  function OnNewLine(pv: string, margin: nat): (r: (string, nat)) {
    var which := Which(pv);
    if which == "h" then
      PlaceNames(Tokens(pv, ':'), margin)
    else if (which == "b" || which == "bh" || which == "z") && |pv| > |which| then
      var rest := BreakMargin(pv[|which| + 1..], 8 + |which| + 1, margin);
      (which + "=" + rest.0, rest.1)
    else (pv, 8 + |pv|)
  }

  /** Whether a piece goes to a new line; siglen is the length the b= value will have. */
  predicate Breaks(margin: nat, siglen: nat, l: Line, pv: string) {
    && l.len != 0 && !l.first
    && ((Which(pv) == "b" && l.len + |Which(pv)| + siglen + 1 >= margin) || l.len + |pv| > margin)
  }

  /** One turn of the printing loop. */
  function Place(margin: nat, siglen: nat, l: Line, pv: string): (r: Line) {
    if l.len == 0 || l.first then Line(l.out + pv, l.len + |pv|, false)
    else if Breaks(margin, siglen, l, pv) then
      var (s, n) := OnNewLine(pv, margin);
      Line(l.out + "\r\n\t" + s, n, false)
    else Line(l.out + " " + pv, l.len + 1 + |pv|, false)
  }

  function PlaceAll(margin: nat, siglen: nat, l: Line, pvs: seq<string>): (r: Line) {
    if pvs == [] then l else Place(margin, siglen, PlaceAll(margin, siglen, l, pvs[..|pvs| - 1]), pvs[|pvs| - 1])
  }

  /** The header value: margin 0 means no line breaks at all. */
  function Render(margin: nat, initial: nat, siglen: nat, pvs: seq<string>): (r: string) {
    if margin == 0 then Joined(pvs, ' ') else PlaceAll(margin, siglen, Line("", initial, true), pvs).out
  }

  // ---------- The code ----------

  lemma ColonsNext(names: seq<string>, i: nat, len: nat, margin: nat)
    requires i < |names|
    ensures var (sep, n) := ColonBefore(names[i], len, margin);
            var rest := BreakColons(names[i + 1..], n, margin);
            BreakColons(names[i..], len, margin) == (sep + (names[i] + rest.0), rest.1)
  {
    assert names[i..][0] == names[i] && names[i..][1..] == names[i + 1..];
  }

  method PrintColons(pv: string, margin: nat) returns (out: string, len: nat)
    ensures (out, len) == PlaceNames(Tokens(pv, ':'), margin)
  {
    hide BreakColons, Tokens, ColonBefore;
    out, len := "", 8;
    var names := Tokens(pv, ':');
    var ifirst := true;
    var i := 0;
    while i < |names|
      invariant i <= |names| && ifirst == (i == 0)
      invariant i == 0 ==> out == "" && len == 8
      invariant i > 0 ==>
                  var rest := BreakColons(names[i..], len, margin);
                  (out + rest.0, rest.1) == PlaceNames(names, margin)
    {
      var tmp := names[i];
      if ifirst {
        out := out + tmp;
        len := len + |tmp|;
        ifirst := false;
        assert out == names[0];
      } else {
        ColonsNext(names, i, len, margin);
        ghost var (sep, n) := ColonBefore(tmp, len, margin);
        ghost var s := BreakColons(names[i + 1..], n, margin).0;
        Associative(out, sep, tmp + s);
        Associative(out + sep, tmp, s);
        ColonIs(tmp, len, margin);
        if len + |tmp| + 1 > margin {
          out := out + ":\r\n\t " + tmp;
          len := 9 + |tmp|;
        } else {
          out := out + ":" + tmp;
          len := len + 1 + |tmp|;
        }
      }
      i := i + 1;
    }
    assert names[i..] == [];
    BreakNoColons(len, margin);
    assert out + "" == out;
  }

  lemma ColonIs(name: string, len: nat, margin: nat)
    ensures ColonBefore(name, len, margin)
         == if len + |name| + 1 > margin then (":\r\n\t ", 9 + |name|) else (":", len + 1 + |name|)
  {
  }

  lemma BreakNoColons(len: nat, margin: nat)
    ensures BreakColons([], len, margin) == ("", len)
  {
  }

  lemma BreakStep(value: string, x: nat, len: nat, margin: nat)
    requires x < |value|
    ensures var wrap := len + 1 >= margin && x + 1 < |value|;
            var rest := BreakMargin(value[x + 1..], if wrap then 9 else len + 1, margin);
            BreakMargin(value[x..], len, margin)
              == (([value[x]] + if wrap then "\r\n\t " else "") + rest.0, rest.1)
  {
    var v := value[x..];
    assert v[0] == value[x] && v[1..] == value[x + 1..];
    assert [value[x]] + "" == [value[x]];
  }

  method PrintAtMargin(value: string, start: nat, margin: nat) returns (out: string, len: nat)
    ensures (out, len) == BreakMargin(value, start, margin)
  {
    hide BreakMargin;
    out, len := "", start;
    var x := 0;
    assert value[0..] == value;
    ghost var goal := BreakMargin(value, start, margin);
    assert out + goal.0 == goal.0;
    while x < |value|
      invariant x <= |value|
      invariant out + BreakMargin(value[x..], len, margin).0 == goal.0
      invariant BreakMargin(value[x..], len, margin).1 == goal.1
    {
      BreakStep(value, x, len, margin);
      ghost var before, s := out, BreakMargin(value[x..], len, margin).0;
      var more := x + 1 < |value|;
      out := out + [value[x]];
      len := len + 1;
      if len >= margin && more {
        out := out + "\r\n\t ";
        len := 9;
        assert out == before + ([value[x]] + "\r\n\t ");
      } else {
        assert out == before + ([value[x]] + "");
      }
      x := x + 1;
      ghost var rest := BreakMargin(value[x..], len, margin).0;
      assert before + s == out + rest;
    }
    assert value[x..] == "";
    BreakNothing(len, margin);
    assert out + "" == out;
  }

  lemma BreakNothing(len: nat, margin: nat)
    ensures BreakMargin("", len, margin) == ("", len)
  {
  }

  method PrintOnNewLine(pv: string, margin: nat) returns (out: string, len: nat)
    ensures (out, len) == OnNewLine(pv, margin)
  {
    var which := Which(pv);
    if which == "h" {
      out, len := PrintColons(pv, margin);
    } else if (which == "b" || which == "bh" || which == "z") && |pv| > |which| {
      out, len := PrintAtMargin(pv[|which| + 1..], 8 + |which| + 1, margin);
      out := which + "=" + out;
    } else {
      out, len := pv, 8 + |pv|;
    }
  }

  /** dkim_gensighdr: the tags with their delimiters, the last of them an empty b=. */
  method GenSigHdr(tags: seq<Tag>) returns (text: string)
    ensures text == Joined(Pieces(tags) + ["b="], 1 as char)
  {
    text := "";
    var i := 0;
    ghost var pvs := Pieces(tags);
    hide Joined;
    while i < |tags|
      invariant i <= |tags| && text == (if i == 0 then "" else Joined(pvs[..i], DELIMITER) + [DELIMITER])
    {
      assert pvs[..i + 1] == pvs[..i] + [pvs[i]];
      JoinedSnoc(pvs[..i], pvs[i], DELIMITER);
      text := text + tags[i].name + "=" + tags[i].value + ";" + [DELIMITER];
      i := i + 1;
    }
    assert pvs[..i] == pvs;
    JoinedSnoc(pvs, "b=", DELIMITER);
    text := text + "b=";
  }

  /** dkim_getsighdr_d; before signing there is no signature yet, but its length is known from the key. */
  method GetSigHdr(tags: seq<Tag>, b64sig: string, margin: nat, initial: nat, keybits: nat) returns (hdr: string)
    requires TagsOk(tags) && DELIMITER !in b64sig
    ensures hdr == Render(margin, initial, BASE64SIZE(keybits / 8), Pieces(tags) + ["b=" + b64sig])
  {
    hide Joined, Tokens, Place, Piece, TagOk, Pieces;
    var text := GenSigHdr(tags);
    text := text + b64sig;
    ghost var goal := Pieces(tags) + ["b=" + b64sig];
    GeneratedPieces(tags, b64sig);
    var pvs := Tokens(text, DELIMITER);
    assert pvs == goal;
    var siglen := BASE64SIZE(keybits / 8);
    if margin == 0 {
      hdr := "";
      var i := 0;
      assert Joined(pvs[..0], ' ') == "" by { JoinedNothing(' '); }
      while i < |pvs|
        invariant i <= |pvs| && hdr == Joined(pvs[..i], ' ')
      {
        assert pvs[..i + 1] == pvs[..i] + [pvs[i]];
        JoinedSnoc(pvs[..i], pvs[i], ' ');
        if i > 0 {
          hdr := hdr + " ";
        }
        hdr := hdr + pvs[i];
        i := i + 1;
      }
      assert pvs[..i] == pvs;
    } else {
      var l := Line("", initial, true);
      var i := 0;
      while i < |pvs|
        invariant i <= |pvs| && l == PlaceAll(margin, siglen, Line("", initial, true), pvs[..i])
      {
        assert pvs[..i + 1][..i] == pvs[..i] && pvs[..i + 1][i] == pvs[i];
        l := PlacePiece(margin, siglen, l, pvs[i]);
        i := i + 1;
      }
      assert pvs[..i] == pvs;
      hdr := l.out;
    }
  }

  method PlacePiece(margin: nat, siglen: nat, l: Line, pv: string) returns (r: Line)
    ensures r == Place(margin, siglen, l, pv)
  {
    var which := Which(pv);
    var forcewrap := which == "b" && l.len + |which| + siglen + 1 >= margin;
    if l.len == 0 || l.first {
      r := Line(l.out + pv, l.len + |pv|, false);
    } else if forcewrap || l.len + |pv| > margin {
      var s, n := PrintOnNewLine(pv, margin);
      r := Line(l.out + "\r\n\t" + s, n, false);
    } else {
      r := Line(l.out + " " + pv, l.len + 1 + |pv|, false);
    }
  }

  lemma GeneratedPieces(tags: seq<Tag>, b64sig: string)
    requires TagsOk(tags) && DELIMITER !in b64sig
    ensures Tokens(Joined(Pieces(tags) + ["b="], DELIMITER) + b64sig, DELIMITER) == Pieces(tags) + ["b=" + b64sig]
  {
    hide Joined, Tokens;
    var pvs := Pieces(tags);
    JoinedSnoc(pvs, "b=", DELIMITER);
    JoinedSnoc(pvs, "b=" + b64sig, DELIMITER);
    if pvs == [] {
      assert "b=" + b64sig == Joined(pvs + ["b="], DELIMITER) + b64sig;
    } else {
      assert Joined(pvs, DELIMITER) + [DELIMITER] + "b=" + b64sig == Joined(pvs, DELIMITER) + [DELIMITER] + ("b=" + b64sig);
    }
    forall t | t in pvs + ["b=" + b64sig]
      ensures t != "" && DELIMITER !in t
    {
      if t in pvs {
        var i :| 0 <= i < |pvs| && t == pvs[i];
        assert TagOk(tags[i]);
        assert DELIMITER !in tags[i].name;
        PieceFree(tags[i]);
      }
    }
    TokensOfJoined(pvs + ["b=" + b64sig], DELIMITER);
  }

  lemma PieceFree(t: Tag)
    requires DELIMITER !in t.name && DELIMITER !in t.value
    ensures Piece(t) != "" && DELIMITER !in Piece(t)
  {
  }

  // ---------- Taking the signature out (section 3.7 of RFC 4871) ----------

  /** What is left of s: `tag` is the last letter of the tag name whose value is being read (NUL outside values),
      `last` the byte before s. */
  function StripB(s: string, tag: char, last: char): (r: string)
    decreases |s|
  {
    if s == "" then ""
    else
      var t := if s[0] == ';' then '\0' else tag;
      if t == 'b' then StripB(s[1..], t, s[0])
      else [s[0]] + StripB(s[1..], if t == '\0' && s[0] == '=' then last else t, s[0])
  }

  /** Where StripB stands after s. */
  function AfterB(s: string, tag: char, last: char): (r: (char, char))
    decreases |s|
  {
    if s == "" then (tag, last)
    else
      var t := if s[0] == ';' then '\0' else tag;
      AfterB(s[1..], if t == '\0' && s[0] == '=' then last else t, s[0])
  }

  lemma {:induction false} StripSplit(s: string, t: string, tag: char, last: char)
    ensures var (tag', last') := AfterB(s, tag, last);
            StripB(s + t, tag, last) == StripB(s, tag, last) + StripB(t, tag', last')
            && AfterB(s + t, tag, last) == AfterB(t, tag', last')
    decreases |s|
  {
    if s == "" {
      assert s + t == t;
    } else {
      assert (s + t)[1..] == s[1..] + t && (s + t)[0] == s[0];
      var u := if s[0] == ';' then '\0' else tag;
      var v := if u == '\0' && s[0] == '=' then last else u;
      StripSplit(s[1..], t, v, s[0]);
      var (a, b) := AfterB(s[1..], v, s[0]);
      assert [s[0]] + (StripB(s[1..], v, s[0]) + StripB(t, a, b)) == [s[0]] + StripB(s[1..], v, s[0]) + StripB(t, a, b);
    }
  }

  lemma StripStep(x: char, t: string, tag: char, last: char)
    ensures var u := if x == ';' then '\0' else tag;
            var v := if u == '\0' && x == '=' then last else u;
            && StripB([x] + t, tag, last) == (if u == 'b' then "" else [x]) + StripB(t, if u == 'b' then u else v, x)
            && AfterB([x] + t, tag, last) == AfterB(t, v, x)
  {
    var s := [x] + t;
    assert s[0] == x && s[1..] == t && "" + StripB(t, 'b', x) == StripB(t, 'b', x);
  }

  lemma StripNothing(tag: char, last: char)
    ensures StripB("", tag, last) == "" && AfterB("", tag, last) == (tag, last)
  {
  }

  /** Text that is kept as it is. */
  lemma {:induction false} StripKeeps(s: string, tag: char, last: char)
    requires ';' !in s && tag != 'b' && (tag == '\0' ==> '=' !in s)
    ensures StripB(s, tag, last) == s && AfterB(s, tag, last) == (tag, if s == "" then last else s[|s| - 1])
    decreases |s|
  {
    hide StripB, AfterB;
    if s == "" {
      StripNothing(tag, last);
    } else {
      var x, t := s[0], s[1..];
      assert s == [x] + t && x in s && forall c :: c in t ==> c in s;
      StripKeeps(t, tag, x);
      StripStep(x, t, tag, last);
      assert t != "" ==> t[|t| - 1] == s[|s| - 1];
    }
  }

  lemma {:induction false} StripDrops(s: string, last: char)
    requires ';' !in s
    ensures StripB(s, 'b', last) == ""
    decreases |s|
  {
    if s != "" {
      assert s[0] in s && forall c :: c in s[1..] ==> c in s;
      StripDrops(s[1..], s[0]);
    }
  }

  /** The loop in dkim_canon_runheaders, with its staging buffer. */
  method RemoveSignature(text: string) returns (out: string)
    ensures out == StripB(text, '\0', '\0')
  {
    var tmpbuf := new char[BUFRSZ];
    var tmp: nat, p: nat, tag, last := 0, 0, '\0', '\0';
    out := "";
    ghost var goal, staged := StripB(text, '\0', '\0'), "";
    assert text[0..] == text && staged + goal == goal;
    while p < |text|
      invariant p <= |text| && tmp < BUFRSZ - 1
      invariant out + tmpbuf[..tmp] == staged
      invariant staged + StripB(text[p..], tag, last) == goal
    {
      assert text[p..][0] == text[p] && text[p..][1..] == text[p + 1..];
      if text[p] == ';' {
        tag := '\0';
      }
      if tag != 'b' {
        if tag == '\0' && text[p] == '=' {
          tag := last;
        }
        Glue(staged, [text[p]], StripB(text[p + 1..], tag, text[p]));
        tmp, out := Stage(tmpbuf, tmp, out, text[p]);
        staged := staged + [text[p]];
      }
      last := text[p];
      p := p + 1;
    }
    if tmp != 0 {
      out := out + tmpbuf[..tmp];
    }
    assert text[p..] == "" && staged + "" == staged;
  }

  // ---------- What printing adds to a piece ----------

  function Despace(s: string): (r: string) {
    if s == "" then "" else if IsSpace(s[0]) then Despace(s[1..]) else [s[0]] + Despace(s[1..])
  }

  lemma {:induction false} DespaceSplit(s: string, t: string)
    ensures Despace(s + t) == Despace(s) + Despace(t)
  {
    if s == "" {
      assert s + t == t;
    } else {
      assert (s + t)[1..] == s[1..] + t;
      DespaceSplit(s[1..], t);
      if !IsSpace(s[0]) {
        assert [s[0]] + (Despace(s[1..]) + Despace(t)) == [s[0]] + Despace(s[1..]) + Despace(t);
      }
    }
  }

  /** v is value with nothing but white space put in. */
  predicate Wrapped(value: string, v: string) {
    Despace(v) == Despace(value)
  }

  lemma {:induction false} DespaceHas(s: string, c: char)
    requires !IsSpace(c)
    ensures c in s <==> c in Despace(s)
  {
    if s != "" {
      assert s == [s[0]] + s[1..];
      DespaceHas(s[1..], c);
    }
  }

  /** So white space is all it has been given. */
  lemma WrappedHas(value: string, v: string, c: char)
    requires Wrapped(value, v) && !IsSpace(c)
    ensures c in v <==> c in value
  {
    DespaceHas(value, c);
    DespaceHas(v, c);
  }

  lemma WrappedSplit(a: string, v: string, b: string, w: string)
    requires Wrapped(a, v) && Wrapped(b, w)
    ensures Wrapped(a + b, v + w)
  {
    DespaceSplit(a, b);
    DespaceSplit(v, w);
  }

  lemma FoldWrapped()
    ensures Wrapped("", "\r\n\t ") && AllSpace("\r\n\t") && AllSpace(" ") && AllSpace("")
  {
    assert Despace(" ") == "" && Despace("\t ") == Despace("\t "[1..]);
    assert Despace("\n\t ") == Despace("\n\t "[1..]) && Despace("\r\n\t ") == Despace("\r\n\t "[1..]);
    assert "\r\n\t "[1..] == "\n\t " && "\n\t "[1..] == "\t " && "\t "[1..] == " ";
  }

  lemma {:induction false} BreakMarginWraps(value: string, len: nat, margin: nat)
    ensures Wrapped(value, BreakMargin(value, len, margin).0)
    decreases |value|
  {
    if value != "" {
      FoldWrapped();
      var wrap := len + 1 >= margin && |value| > 1;
      var rest := BreakMargin(value[1..], if wrap then 9 else len + 1, margin).0;
      BreakMarginWraps(value[1..], if wrap then 9 else len + 1, margin);
      WrappedSplit([value[0]], [value[0]], value[1..], rest);
      assert value == [value[0]] + value[1..];
      if wrap {
        WrappedSplit("", "\r\n\t ", value[1..], rest);
        assert "" + value[1..] == value[1..];
        WrappedSplit([value[0]], [value[0]], value[1..], "\r\n\t " + rest);
        assert [value[0]] + "\r\n\t " + rest == [value[0]] + ("\r\n\t " + rest);
      }
    }
  }

  lemma WrappedSelf(s: string)
    ensures Wrapped(s, s)
  {
  }

  lemma {:induction false} BreakColonsWraps(names: seq<string>, len: nat, margin: nat)
    ensures Wrapped(ColonJoin(names), BreakColons(names, len, margin).0)
    decreases |names|
  {
    hide Wrapped, ColonBefore;
    if names == [] {
      WrappedSelf("");
    } else {
      var (sep, n) := ColonBefore(names[0], len, margin);
      var rest := BreakColons(names[1..], n, margin).0;
      BreakColonsWraps(names[1..], n, margin);
      ColonWraps(names[0], len, margin);
      WrappedSelf(names[0]);
      WrappedSplit(names[0], names[0], ColonJoin(names[1..]), rest);
      WrappedSplit(":", sep, names[0] + ColonJoin(names[1..]), names[0] + rest);
    }
  }

  lemma ColonWraps(name: string, len: nat, margin: nat)
    ensures Wrapped(":", ColonBefore(name, len, margin).0)
  {
    hide Wrapped;
    FoldWrapped();
    WrappedSelf(":");
    WrappedSplit(":", ":", "", "\r\n\t ");
    assert ":" + "" == ":" && ":" + "\r\n\t " == ":\r\n\t ";
  }

  function ColonJoin(names: seq<string>): (r: string) {
    if names == [] then "" else ":" + (names[0] + ColonJoin(names[1..]))
  }

  /** strtok() makes one of every run of colons. */
  function MergeColons(s: string): (r: string) {
    if s == "" then ""
    else if |s| > 1 && s[0] == ':' && s[1] == ':' then MergeColons(s[1..])
    else [s[0]] + MergeColons(s[1..])
  }

  lemma MergeEnds(a: string, s: string, z: char)
    requires ':' !in a && z != ':'
    ensures MergeColons(a + s + [z]) == a + MergeColons(s) + [z]
  {
    var t := a + s + [z];
    assert t[..|a|] == a && t[|a|..] == s + [z];
    MergeSkip(t, |a|);
    MergeEnd(s, z);
    assert a + (MergeColons(s) + [z]) == a + MergeColons(s) + [z];
  }

  lemma {:induction false} MergeEnd(s: string, z: char)
    requires z != ':'
    ensures MergeColons(s + [z]) == MergeColons(s) + [z]
  {
    var t := s + [z];
    if s == "" {
      assert t == [z] && t[1..] == "";
    } else {
      assert t[0] == s[0] && t[1..] == s[1..] + [z] && (|s| > 1 ==> t[1] == s[1]);
      MergeEnd(s[1..], z);
      assert [s[0]] + (MergeColons(s[1..]) + [z]) == [s[0]] + MergeColons(s[1..]) + [z];
    }
  }

  lemma {:induction false} MergeTokens(s: string)
    requires s != "" && s[|s| - 1] != ':'
    ensures s[0] == ':' ==> ColonJoin(Tokens(s, ':')) == MergeColons(s)
    ensures s[0] != ':' ==> Tokens(s, ':') != [] && Tokens(s, ':')[0] + ColonJoin(Tokens(s, ':')[1..]) == MergeColons(s)
    decreases |s|
  {
    if s[0] == ':' {
      var t := s[1..];
      MergeTokens(t);
      if t[0] != ':' {
        var ts := Tokens(t, ':');
        assert ColonJoin(ts) == ":" + (ts[0] + ColonJoin(ts[1..]));
      }
    } else {
      var n := TokenLength(s, ':');
      var t := s[n..];
      MergeSkip(s, n);
      if t != "" {
        MergeTokens(t);
      }
      assert Tokens(s, ':')[1..] == Tokens(t, ':');
    }
  }

  lemma {:induction false} MergeSkip(s: string, n: nat)
    requires n <= |s| && ':' !in s[..n]
    ensures MergeColons(s) == s[..n] + MergeColons(s[n..])
  {
    if n > 0 {
      assert s[0] in s[..n] && s[1..][..n - 1] == s[..n][1..];
      assert forall c :: c in s[..n][1..] ==> c in s[..n];
      MergeSkip(s[1..], n - 1);
      assert s[1..][n - 1..] == s[n..];
      assert [s[0]] + (s[..n][1..] + MergeColons(s[n..])) == s[..n] + MergeColons(s[n..]);
    } else {
      assert s[0..] == s;
    }
  }

  lemma {:induction false} MergeHas(s: string, c: char)
    ensures c in MergeColons(s) ==> c in s
  {
    if s != "" {
      MergeHas(s[1..], c);
      assert s == [s[0]] + s[1..];
    }
  }

  /** Nothing is merged exactly when no two colons stand together. */
  lemma {:induction false} MergeKeeps(s: string)
    ensures |MergeColons(s)| <= |s|
    ensures MergeColons(s) == s <==> forall i :: 0 < i < |s| ==> !ColonsAt(s, i)
  {
    if s != "" {
      var t := s[1..];
      MergeKeeps(t);
      assert s == [s[0]] + t;
      assert forall i :: 0 < i < |t| ==> ColonsAt(t, i) == ColonsAt(s, i + 1);
      assert forall i :: 1 < i < |s| ==> ColonsAt(s, i) == ColonsAt(t, i - 1);
      if |s| > 1 {
        assert ColonsAt(s, 1) == (s[0] == ':' && s[1] == ':');
        if !ColonsAt(s, 1) {
          var m := MergeColons(t);
          assert MergeColons(s) == [s[0]] + m && ([s[0]] + m)[1..] == m;
          if m != t {
            var i :| 0 < i < |t| && ColonsAt(t, i);
            assert ColonsAt(s, i + 1);
          }
        }
      }
    }
  }

  predicate ColonsAt(s: string, i: nat)
    requires 0 < i < |s|
  {
    s[i - 1] == ':' && s[i] == ':'
  }

  /** The value of a tag that is printed: only an h= on a new line loses anything, colons that follow colons. */
  function PrintedValue(t: Tag, broken: bool): (v: string) {
    if broken && t.name == "h" then MergeColons(t.value) else t.value
  }

  lemma WhichIs(name: string, rest: string)
    requires '=' !in name
    ensures Which(name + "=" + rest) == name
  {
    TokenLengthIs(name, "=" + rest, '=');
    assert name + ("=" + rest) == name + "=" + rest;
  }

  lemma {:induction false} TokensLast(s: string, d: char)
    requires s != "" && s[|s| - 1] != d
    ensures var ts := Tokens(s, d);
            ts != [] && ts[|ts| - 1] != "" && ts[|ts| - 1][|ts[|ts| - 1]| - 1] == s[|s| - 1]
    decreases |s|
  {
    if s[0] == d {
      TokensLast(s[1..], d);
    } else {
      var n := TokenLength(s, d);
      if n < |s| {
        TokensLast(s[n..], d);
      }
    }
  }

  lemma {:induction false} BreakColonsLast(names: seq<string>, len: nat, margin: nat)
    requires names != [] && names[|names| - 1] != ""
    ensures var r := BreakColons(names, len, margin).0;
            r != "" && r[|r| - 1] == names[|names| - 1][|names[|names| - 1]| - 1]
    decreases |names|
  {
    if |names| > 1 {
      BreakColonsLast(names[1..], if len + |names[0]| + 1 > margin then 9 + |names[0]| else len + 1 + |names[0]|, margin);
    } else {
      assert names[1..] == [];
    }
  }

  lemma {:induction false} BreakMarginEnd(value: string, z: char, len: nat, margin: nat) returns (v: string)
    ensures BreakMargin(value + [z], len, margin).0 == v + [z] && Wrapped(value, v)
    decreases |value|
  {
    hide Wrapped, Despace;
    var s := value + [z];
    if value == "" {
      v := "";
      assert s == [z] && s[1..] == "";
      WrappedSelf("");
    } else {
      assert s[0] == value[0] && s[1..] == value[1..] + [z];
      var wrap := len + 1 >= margin;
      var w := BreakMarginEnd(value[1..], z, if wrap then 9 else len + 1, margin);
      FoldWrapped();
      WrappedSelf([value[0]]);
      WrappedSelf("");
      var gap := if wrap then "\r\n\t " else "";
      WrappedSplit("", gap, value[1..], w);
      WrappedSplit([value[0]], [value[0]], "" + value[1..], gap + w);
      assert value == [value[0]] + ("" + value[1..]);
      v := [value[0]] + (gap + w);
      assert [value[0]] + gap + (w + [z]) == v + [z];
    }
  }

  /** Text wrapped from h=value; is h= and its semicolon around wrapped value. */
  lemma Unframe(value: string, r: string) returns (v: string)
    requires Wrapped("h=" + value + ";", r) && |r| >= 3 && r[..2] == "h=" && r[|r| - 1] == ';'
    ensures r == "h=" + v + ";" && Wrapped(value, v)
  {
    v := r[2..|r| - 1];
    assert r == "h=" + v + ";";
    DespaceSplit("h=" + v, ";");
    DespaceSplit("h=", v);
    DespaceSplit("h=" + value, ";");
    DespaceSplit("h=", value);
    var a, b := Despace("h="), Despace(";");
    assert (a + Despace(v) + b)[|a|..|a| + |Despace(v)|] == Despace(v);
    assert (a + Despace(value) + b)[|a|..|a| + |Despace(value)|] == Despace(value);
  }

  lemma NewLineShape(t: Tag, margin: nat) returns (v: string)
    requires TagOk(t)
    ensures OnNewLine(Piece(t), margin).0 == t.name + "=" + v + ";" && Wrapped(PrintedValue(t, true), v)
  {
    hide BreakMargin, BreakColons, Wrapped, Tokens, MergeColons, Despace;
    var pv := Piece(t);
    assert pv == t.name + "=" + (t.value + ";");
    assert '=' !in t.name;
    WhichIs(t.name, t.value + ";");
    if t.name == "h" {
      v := HShape(t, margin);
    } else if t.name == "bh" || t.name == "z" {
      var len := 8 + |t.name| + 1;
      assert pv[|t.name| + 1..] == t.value + ";";
      v := BreakMarginEnd(t.value, ';', len, margin);
      assert t.name + "=" + (v + ";") == t.name + "=" + v + ";";
    } else {
      WrappedSelf(t.value);
      v := t.value;
      assert t.name != "b" by {
        assert t.name[|t.name| - 1] != 'b';
      }
    }
  }

  lemma HShape(t: Tag, margin: nat) returns (v: string)
    requires t.name == "h"
    ensures OnNewLine(Piece(t), margin).0 == "h=" + v + ";" && Wrapped(MergeColons(t.value), v)
  {
    hide BreakColons, Wrapped, MergeColons, Despace, Tokens;
    var pv := Piece(t);
    assert pv == "h=" + t.value + ";";
    assert pv == "h" + "=" + (t.value + ";");
    WhichIs("h", t.value + ";");
    MergeEnds("h=", t.value, ';');
    MergeTokens(pv);
    TokensLast(pv, ':');
    var names := Tokens(pv, ':');
    FirstToken(pv);
    var rest := BreakColons(names[1..], 8 + |names[0]|, margin).0;
    var r := names[0] + rest;
    BreakColonsWraps(names[1..], 8 + |names[0]|, margin);
    WrappedSelf(names[0]);
    WrappedSplit(names[0], names[0], ColonJoin(names[1..]), rest);
    if |names| > 1 {
      BreakColonsLast(names[1..], 8 + |names[0]|, margin);
    } else {
      BreakNoColons(8 + |names[0]|, margin);
      assert names[1..] == [];
    }
    assert r[|r| - 1] == ';';
    v := Unframe(MergeColons(t.value), r);
  }

  lemma FirstToken(pv: string)
    requires |pv| >= 3 && pv[0] != ':' && pv[1] != ':'
    ensures Tokens(pv, ':') != [] && |Tokens(pv, ':')[0]| >= 2 && Tokens(pv, ':')[0][..2] == pv[..2]
  {
    var n := TokenLength(pv, ':');
    assert n == 1 + TokenLength(pv[1..], ':') && TokenLength(pv[1..], ':') > 0;
  }

  /** However a piece is placed, it comes out as white space and then the tag. */
  lemma PlaceShape(margin: nat, siglen: nat, l: Line, t: Tag) returns (sep: string, v: string)
    requires TagOk(t)
    ensures Place(margin, siglen, l, Piece(t)).out == l.out + sep + t.name + "=" + v + ";"
    ensures AllSpace(sep) && Wrapped(PrintedValue(t, Breaks(margin, siglen, l, Piece(t))), v)
  {
    hide OnNewLine, Wrapped, Which;
    FoldWrapped();
    var w := NewLineShape(t, margin);
    if l.len == 0 || l.first {
      sep, v := "", t.value;
      assert l.out + Piece(t) == l.out + "" + t.name + "=" + v + ";";
      WrappedSelf(v);
    } else if Breaks(margin, siglen, l, Piece(t)) {
      sep, v := "\r\n\t", w;
      assert l.out + sep + (t.name + "=" + v + ";") == l.out + sep + t.name + "=" + v + ";";
    } else {
      sep, v := " ", t.value;
      assert l.out + " " + Piece(t) == l.out + " " + t.name + "=" + v + ";";
      WrappedSelf(v);
    }
  }

  /** A signature of the length announced is placed where the empty b= was. */
  lemma PlaceB(margin: nat, siglen: nat, l: Line, sig: string) returns (sep: string, v: string)
    requires |sig| == siglen
    ensures Place(margin, siglen, l, "b=").out == l.out + sep + "b="
    ensures Place(margin, siglen, l, "b=" + sig).out == l.out + sep + "b=" + v
    ensures AllSpace(sep) && Wrapped(sig, v)
  {
    hide BreakMargin, Wrapped;
    FoldWrapped();
    WrappedSelf(sig);
    WhichIs("b", "");
    WhichIs("b", sig);
    assert "b" + "=" + "" == "b=" && "b" + "=" + sig == "b=" + sig;
    if l.len == 0 || l.first {
      sep, v := "", sig;
      assert l.out + ("b=" + sig) == l.out + "" + "b=" + v && l.out + "b=" == l.out + "" + "b=";
    } else if l.len + 1 + siglen + 1 >= margin {
      sep, v := "\r\n\t", BreakMargin(sig, 10, margin).0;
      BreakMarginWraps(sig, 10, margin);
      BreakNothing(10, margin);
      assert "b="[2..] == "" && ("b=" + sig)[2..] == sig && "b" + "=" == "b=";
      assert l.out + sep + ("b=" + v) == l.out + sep + "b=" + v;
      assert l.out + sep + ("b=" + "") == l.out + sep + "b=";
    } else {
      sep, v := " ", sig;
      assert l.out + " " + ("b=" + sig) == l.out + " " + "b=" + v;
    }
  }

  // ---------- The header signed is the header emitted, less the signature ----------

  /** Text that survives the removal, and leaves it outside any value. */
  predicate Kept(s: string) {
    StripB(s, '\0', '\0') == s && AfterB(s, '\0', '\0').0 == '\0'
  }

  lemma SpacePlain(sep: string)
    requires AllSpace(sep)
    ensures ';' !in sep && '=' !in sep
  {
  }

  lemma KeptTag(out: string, sep: string, t: Tag, v: string)
    requires Kept(out) && AllSpace(sep) && TagOk(t) && ';' !in v
    ensures Kept(out + sep + t.name + "=" + v + ";")
  {
    hide StripB, AfterB;
    SpacePlain(sep);
    var last := AfterB(out, '\0', '\0').1;
    var head := sep + t.name;
    StripKeeps(head, '\0', last);
    StripSplit(out, head, '\0', '\0');
    var z := t.name[|t.name| - 1];
    assert z in t.name && head[|head| - 1] == z;
    StripEquals(z);
    StripSplit(out + head, "=", '\0', '\0');
    StripKeeps(v, z, '=');
    StripSplit(out + head + "=", v, '\0', '\0');
    StripSemicolon(z, AfterB(v, z, '=').1);
    StripSplit(out + head + "=" + v, ";", '\0', '\0');
    assert out + head + "=" + v + ";" == out + sep + t.name + "=" + v + ";";
  }

  lemma StripEquals(z: char)
    ensures StripB("=", '\0', z) == "=" && AfterB("=", '\0', z) == (z, '=')
  {
    assert "="[1..] == "";
  }

  lemma StripSemicolon(tag: char, last: char)
    ensures StripB(";", tag, last) == ";" && AfterB(";", tag, last) == ('\0', ';')
  {
    assert ";"[1..] == "";
  }

  lemma KeptB(out: string, sep: string, v: string)
    requires Kept(out) && AllSpace(sep) && ';' !in v
    ensures StripB(out + sep + "b=" + v, '\0', '\0') == out + sep + "b="
  {
    hide StripB, AfterB;
    SpacePlain(sep);
    var last := AfterB(out, '\0', '\0').1;
    var head := sep + "b";
    StripKeeps(head, '\0', last);
    StripSplit(out, head, '\0', '\0');
    StripEquals('b');
    StripSplit(out + head, "=", '\0', '\0');
    StripDrops(v, '=');
    StripSplit(out + head + "=", v, '\0', '\0');
    assert out + head + "=" + v == out + sep + "b=" + v;
    assert out + head + "=" + "" == out + sep + "b=";
  }

  lemma PrintedPlain(t: Tag, broken: bool, v: string)
    requires TagOk(t) && Wrapped(PrintedValue(t, broken), v)
    ensures ';' !in v
  {
    MergeHas(t.value, ';');
    WrappedHas(PrintedValue(t, broken), v, ';');
  }

  lemma KeptPrefix(prefix: string)
    requires ';' !in prefix && '=' !in prefix
    ensures Kept(prefix)
  {
    StripKeeps(prefix, '\0', '\0');
  }

  /** The last tag of a header: white space, then the tag. */
  lemma RenderTag(margin: nat, initial: nat, siglen: nat, tags: seq<Tag>) returns (sep: string, v: string)
    requires TagsOk(tags) && tags != []
    ensures var n := |tags| - 1;
            var before := Pieces(tags[..n]);
            && Render(margin, initial, siglen, Pieces(tags))
               == Render(margin, initial, siglen, before) + sep + tags[n].name + "=" + v + ";"
            && AllSpace(sep)
            && Wrapped(PrintedValue(tags[n], OnNewLineAt(margin, initial, siglen, before, Piece(tags[n]))), v)
  {
    hide Place, TagOk, PrintedValue, Breaks, Wrapped, Joined;
    var n := |tags| - 1;
    var t, pvs := tags[n], Pieces(tags[..n]);
    assert Pieces(tags) == pvs + [Piece(t)];
    if margin == 0 {
      JoinedNothing(' ');
      FoldWrapped();
      JoinedSnoc(pvs, Piece(t), ' ');
      sep, v := if pvs == [] then "" else " ", t.value;
      WrappedSelf(v);
      PrintedWhole(t);
      assert Joined(pvs + [Piece(t)], ' ') == Joined(pvs, ' ') + sep + t.name + "=" + v + ";";
    } else {
      assert (pvs + [Piece(t)])[..n] == pvs;
      sep, v := PlaceShape(margin, siglen, PlaceAll(margin, siglen, Line("", initial, true), pvs), t);
    }
  }

  /** Whether the piece after pvs starts a new line of the header. */
  predicate OnNewLineAt(margin: nat, initial: nat, siglen: nat, pvs: seq<string>, pv: string) {
    margin != 0 && Breaks(margin, siglen, PlaceAll(margin, siglen, Line("", initial, true), pvs), pv)
  }

  lemma PrintedWhole(t: Tag)
    ensures PrintedValue(t, false) == t.value
  {
  }

  /** The end of a header, signed and unsigned: the same white space, then b= and the signature. */
  lemma RenderB(margin: nat, initial: nat, tags: seq<Tag>, sig: string) returns (sep: string, v: string)
    ensures var head := Render(margin, initial, |sig|, Pieces(tags)) + sep + "b=";
            && Render(margin, initial, |sig|, Pieces(tags) + ["b="]) == head
            && Render(margin, initial, |sig|, Pieces(tags) + ["b=" + sig]) == head + v
    ensures AllSpace(sep) && Wrapped(sig, v)
  {
    hide Place, Wrapped, Joined;
    var pvs := Pieces(tags);
    if margin == 0 {
      JoinedSnoc(pvs, "b=", ' ');
      JoinedSnoc(pvs, "b=" + sig, ' ');
      JoinedNothing(' ');
      FoldWrapped();
      WrappedSelf(sig);
      sep, v := if pvs == [] then "" else " ", sig;
      assert Joined(pvs + ["b="], ' ') == Joined(pvs, ' ') + sep + "b=";
      assert Joined(pvs + ["b=" + sig], ' ') == Joined(pvs, ' ') + sep + "b=" + v;
    } else {
      assert (pvs + ["b=" + sig])[..|pvs|] == pvs && (pvs + ["b="])[..|pvs|] == pvs;
      sep, v := PlaceB(margin, |sig|, PlaceAll(margin, |sig|, Line("", initial, true), pvs), sig);
    }
  }

  lemma {:induction false} KeptRender(prefix: string, margin: nat, initial: nat, siglen: nat, tags: seq<Tag>)
    requires TagsOk(tags) && ';' !in prefix && '=' !in prefix
    ensures Kept(prefix + Render(margin, initial, siglen, Pieces(tags)))
  {
    hide Kept, TagOk, PrintedValue, Render, Wrapped, OnNewLineAt;
    if tags == [] {
      RenderNothing(margin, initial, siglen);
      assert Pieces(tags) == [] && prefix + "" == prefix;
      KeptPrefix(prefix);
    } else {
      var n := |tags| - 1;
      KeptRender(prefix, margin, initial, siglen, tags[..n]);
      var sep, v := RenderTag(margin, initial, siglen, tags);
      PrintedPlain(tags[n], OnNewLineAt(margin, initial, siglen, Pieces(tags[..n]), Piece(tags[n])), v);
      var out := Render(margin, initial, siglen, Pieces(tags[..n]));
      KeptTag(prefix + out, sep, tags[n], v);
      assert prefix + (out + sep + tags[n].name + "=" + v + ";") == prefix + out + sep + tags[n].name + "=" + v + ";";
    }
  }

  lemma RenderNothing(margin: nat, initial: nat, siglen: nat)
    ensures Render(margin, initial, siglen, []) == ""
  {
  }

  /** Section 3.7 of RFC 4871: for every margin and tag list, removing the signature from the header emitted gives,
      byte for byte, the header that was signed. */
  lemma SignedIsEmitted(prefix: string, tags: seq<Tag>, sig: string, margin: nat, initial: nat)
    requires TagsOk(tags) && ';' !in prefix && '=' !in prefix && ';' !in sig
    ensures StripB(prefix + Render(margin, initial, |sig|, Pieces(tags) + ["b=" + sig]), '\0', '\0')
         == prefix + Render(margin, initial, |sig|, Pieces(tags) + ["b="])
  {
    hide StripB, Render, TagOk, Kept, AllSpace, Wrapped;
    KeptRender(prefix, margin, initial, |sig|, tags);
    var sep, v := RenderB(margin, initial, tags, sig);
    WrappedHas(sig, v, ';');
    var out := Render(margin, initial, |sig|, Pieces(tags));
    KeptB(prefix + out, sep, v);
    assert prefix + (out + sep + "b=" + v) == prefix + out + sep + "b=" + v;
    assert prefix + (out + sep + "b=") == prefix + out + sep + "b=";
  }

  lemma EncodePlain(data: seq<Octet>, c: char)
    requires !IsAlphabet(c) && c != '='
    ensures c !in Encode(data)
  {
  }

  /** The same of the code: print the header to be signed; print it again with the signature of the key's size;
      remove that as a verifier does. */
  method PrintSignStrip(prefix: string, tags: seq<Tag>, signature: seq<Octet>, margin: nat, initial: nat)
    returns (signed: string, emitted: string, verified: string)
    requires TagsOk(tags) && ';' !in prefix && '=' !in prefix
    ensures emitted == prefix + Render(margin, initial, BASE64SIZE(|signature|), Pieces(tags) + ["b=" + Encode(signature)])
    ensures signed == prefix + Render(margin, initial, BASE64SIZE(|signature|), Pieces(tags) + ["b="])
    ensures verified == StripB(emitted, '\0', '\0') == signed
  {
    hide Render, Encode, Pieces, TagsOk, StripB, IsAlphabet;
    var keybits := 8 * |signature|;
    assert keybits / 8 == |signature|;
    EncodeLength(signature);
    assert !IsAlphabet(';') && !IsAlphabet(DELIMITER) by { NotLetters(); }
    EncodePlain(signature, ';');
    EncodePlain(signature, DELIMITER);
    var before := GetSigHdr(tags, "", margin, initial, keybits);
    assert "b=" + "" == "b=";
    signed := prefix + before;
    var after := GetSigHdr(tags, Encode(signature), margin, initial, keybits);
    emitted := prefix + after;
    SignedIsEmitted(prefix, tags, Encode(signature), margin, initial);
    verified := RemoveSignature(emitted);
  }

  lemma NotLetters()
    ensures !IsAlphabet(';') && !IsAlphabet(DELIMITER)
  {
  }
}
