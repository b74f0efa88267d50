/** dkim_canon_header: one header field in canonical form, built through a small staging buffer. */
module HeaderCanon {
  import opened Text
  import opened BodySpec

  const BUFRSZ: nat := 1024

  // ---------- Section 3.4.2 of RFC 4871 ----------

  /** The field name, colon included, in lower case and without white space. */
  function NamePart(t: string): (r: string) {
    if t == "" then ""
    else if IsSpace(t[0]) then NamePart(t[1..])
    else if t[0] == ':' then ":"
    else [Lower(t[0])] + NamePart(t[1..])
  }

  function AfterColon(t: string): (r: string) {
    if t == "" then "" else if t[0] == ':' then t[1..] else AfterColon(t[1..])
  }

  function WordLength(v: string): (n: nat)
    ensures n <= |v|
    ensures v != "" && !IsSpace(v[0]) ==> n > 0
  {
    if v == "" || IsSpace(v[0]) then 0 else 1 + WordLength(v[1..])
  }

  /** The maximal runs of bytes that are not white space. */
  function Words(v: string): (ws: seq<string>)
    decreases |v|
  {
    if v == "" then []
    else if IsSpace(v[0]) then Words(v[1..])
    else [v[..WordLength(v)]] + Words(v[WordLength(v)..])
  }

  function Spaced(ws: seq<string>): (r: string) {
    if ws == [] then "" else if |ws| == 1 then ws[0] else ws[0] + " " + Spaced(ws[1..])
  }

  function RelaxedHeader(t: string): (r: string) {
    NamePart(t) + Spaced(Words(AfterColon(t)))
  }

  // ---------- The code ----------

  /** The rest of the value once the code is inside it; `space` tells that white space is owed. */
  function Rest(space: bool, v: string): (r: string)
    decreases |v|
  {
    if v == "" then ""
    else if IsSpace(v[0]) then Rest(true, v[1..])
    else (if space then " " else "") + [v[0]] + Rest(false, v[1..])
  }

  lemma RestOne(space: bool, v: string)
    requires v != "" && !IsSpace(v[0])
    ensures Rest(space, v) == (if space then " " else "") + [v[0]] + Rest(false, v[1..])
    ensures WordLength(v) == 1 + WordLength(v[1..])
  {
  }

  lemma RestStep(v: string)
    requires v != "" && !IsSpace(v[0])
    ensures Rest(false, v) == [v[0]] + Rest(false, v[1..])
    ensures Rest(true, v) == " " + Rest(false, v)
    ensures WordLength(v) == 1 + WordLength(v[1..])
  {
    hide Rest, WordLength, IsSpace;
    RestOne(false, v);
    RestOne(true, v);
    assert "" + [v[0]] == [v[0]];
    Associative(" ", [v[0]], Rest(false, v[1..]));
  }

  /** Nothing in sight, or white space. */
  lemma RestBetween(v: string)
    requires v == "" || IsSpace(v[0])
    ensures WordLength(v) == 0 && Rest(false, v) == Rest(true, v)
  {
  }

  lemma {:induction false} RestInWord(v: string)
    ensures Rest(false, v) == v[..WordLength(v)] + Rest(true, v[WordLength(v)..])
    decreases |v|
  {
    hide Rest, WordLength, IsSpace;
    if v != "" && !IsSpace(v[0]) {
      RestStep(v);
      RestInWord(v[1..]);
      var n := WordLength(v);
      assert v[1..][..n - 1] == v[1..n] && v[1..][n - 1..] == v[n..] && v[..n] == [v[0]] + v[1..n];
      Associative([v[0]], v[1..n], Rest(true, v[n..]));
    } else {
      RestBetween(v);
      assert v[0..] == v && v[..0] == "" && "" + Rest(true, v) == Rest(true, v);
    }
  }

  lemma {:induction false} RestIsWords(v: string)
    ensures Rest(true, v) == (if Words(v) == [] then "" else " ") + Spaced(Words(v))
    ensures v == "" || !IsSpace(v[0]) ==> Rest(false, v) == Spaced(Words(v))
    decreases |v|
  {
    if v != "" {
      if IsSpace(v[0]) {
        RestIsWords(v[1..]);
      } else {
        var n := WordLength(v);
        RestInWord(v);
        RestIsWords(v[n..]);
        SpacedCons(v[..n], Words(v[n..]));
        assert Words(v) == [v[..n]] + Words(v[n..]);
        RestStep(v);
      }
    }
  }

  lemma SpacedCons(w: string, ws: seq<string>)
    ensures Spaced([w] + ws) == w + ((if ws == [] then "" else " ") + Spaced(ws))
  {
    assert ([w] + ws)[1..] == ws;
  }

  method Stage(tmpbuf: array<char>, tmp: nat, out: string, x: char) returns (tmp': nat, out': string)
    requires tmp < tmpbuf.Length - 1
    modifies tmpbuf
    ensures tmp' < tmpbuf.Length - 1
    ensures out' + tmpbuf[..tmp'] == out + old(tmpbuf[..tmp]) + [x]
  {
    tmpbuf[tmp] := x;
    tmp', out' := tmp + 1, out;
    assert tmpbuf[..tmp'] == old(tmpbuf[..tmp]) + [x];
    if tmp' == tmpbuf.Length - 1 {
      out' := out' + tmpbuf[..tmp'];
      tmp' := 0;
    }
  }

  lemma NameStep(t: string)
    requires t != ""
    ensures NamePart(t) == if IsSpace(t[0]) then NamePart(t[1..]) else if t[0] == ':' then ":" else [Lower(t[0])] + NamePart(t[1..])
    ensures AfterColon(t) == if t[0] == ':' then t[1..] else AfterColon(t[1..])
  {
  }

  method StageName(text: string, tmpbuf: array<char>) returns (p: nat, tmp: nat, out: string)
    requires tmpbuf.Length > 1
    modifies tmpbuf
    ensures p <= |text| && tmp < tmpbuf.Length - 1
    ensures out + tmpbuf[..tmp] == NamePart(text) && text[p..] == AfterColon(text)
  {
    hide Lower, IsSpace, NamePart, AfterColon;
    p, tmp, out := 0, 0, "";
    var colon := false;
    NothingNamed();
    ghost var staged := "";
    assert text[0..] == text && staged + NamePart(text) == NamePart(text);
    while p < |text| && !colon
      invariant p <= |text| && tmp < tmpbuf.Length - 1
      invariant out + tmpbuf[..tmp] == staged
      invariant staged + (if colon then "" else NamePart(text[p..])) == NamePart(text)
      invariant AfterColon(text) == if colon then text[p..] else AfterColon(text[p..])
    {
      ghost var t := text[p..];
      assert t[0] == text[p] && t[1..] == text[p + 1..];
      NameStep(t);
      SpaceNotColon(text[p]);
      if !IsSpace(text[p]) {
        LowerColon(text[p]);
        Glue(staged, [Lower(t[0])], if t[0] == ':' then "" else NamePart(t[1..]));
        tmp, out := Stage(tmpbuf, tmp, out, Lower(text[p]));
        staged := staged + [Lower(text[p])];
        colon := text[p] == ':';
      }
      p := p + 1;
    }
    assert text[|text|..] == "" && staged + "" == staged;
  }

  method StageValue(text: string, p0: nat, tmpbuf: array<char>, tmp0: nat, out0: string)
    returns (tmp: nat, out: string)
    requires p0 <= |text| && tmp0 < tmpbuf.Length - 1
    modifies tmpbuf
    ensures tmp < tmpbuf.Length - 1
    ensures out + tmpbuf[..tmp] == out0 + old(tmpbuf[..tmp0]) + Spaced(Words(text[p0..]))
  {
    hide IsSpace, Words, Spaced;
    var p := p0;
    tmp, out := tmp0, out0;
    ghost var goal := out0 + tmpbuf[..tmp0] + Spaced(Words(text[p0..]));
    while p < |text| && IsSpace(text[p])
      invariant p <= |text|
      invariant Words(text[p..]) == Words(text[p0..])
      invariant goal == out0 + tmpbuf[..tmp0] + Spaced(Words(text[p0..]))
    {
      WordsSkip(text[p..]);
      assert text[p..][1..] == text[p + 1..];
      p := p + 1;
    }
    assert p < |text| ==> text[p..][0] == text[p];
    RestIsWords(text[p..]);
    var space := false;
    while p < |text|
      invariant p <= |text| && tmp < tmpbuf.Length - 1
      invariant out + tmpbuf[..tmp] + Rest(space, text[p..]) == goal
    {
      ghost var t := text[p..];
      assert t[0] == text[p] && t[1..] == text[p + 1..];
      if IsSpace(text[p]) {
        space := true;
      } else {
        ghost var before := out + tmpbuf[..tmp];
        ghost var gap := if space then " " else "";
        assert before + (gap + [t[0]] + Rest(false, t[1..])) == before + gap + [t[0]] + Rest(false, t[1..]);
        if space {
          tmp, out := Stage(tmpbuf, tmp, out, ' ');
          space := false;
        }
        assert out + tmpbuf[..tmp] == before + gap;
        tmp, out := Stage(tmpbuf, tmp, out, text[p]);
      }
      p := p + 1;
    }
    assert text[p..] == "" && out + tmpbuf[..tmp] + "" == goal;
  }

  method CanonHeader(mode: Mode, text: string, crlf: bool) returns (out: string)
    ensures out == (if mode.Simple? then text else RelaxedHeader(text)) + (if crlf then CRLF else "")
  {
    if mode.Simple? {
      out := text + if crlf then CRLF else "";
      return;
    }
    var tmpbuf := new char[BUFRSZ];
    var p, tmp, staged := StageName(text, tmpbuf);
    tmp, out := StageValue(text, p, tmpbuf, tmp, staged);
    if tmp != 0 {
      out := out + tmpbuf[..tmp];
    }
    if crlf {
      out := out + CRLF;
    } else {
      assert out + "" == out;
    }
  }

  lemma Glue(a: string, b: string, c: string)
    ensures a + (b + c) == a + b + c
    ensures c == "" ==> a + b == a + b + c && b + c == b
  {
  }

  lemma NothingNamed()
    ensures NamePart("") == "" && AfterColon("") == ""
  {
  }

  lemma LowerColon(c: char)
    ensures Lower(c) == ':' <==> c == ':'
  {
  }

  lemma SpaceNotColon(c: char)
    ensures IsSpace(c) ==> c != ':'
  {
  }

  lemma WordsSkip(v: string)
    requires v != "" && IsSpace(v[0])
    ensures Words(v) == Words(v[1..])
  {
  }

  // ---------- What the form does not depend on ----------

  predicate AllSpace(s: string) {
    forall c :: c in s ==> IsSpace(c)
  }

  predicate Word(w: string) {
    w != "" && forall c :: c in w ==> !IsSpace(c)
  }

  lemma {:induction false} NameOnly(name: string, t: string)
    requires ':' !in name
    ensures NamePart(name + t) == NamePart(name) + NamePart(t)
    ensures AfterColon(name + t) == AfterColon(t)
    ensures AfterColon(name) == ""
  {
    hide NamePart, AfterColon, IsSpace, Lower;
    NothingNamed();
    if name == "" {
      assert name + t == t && "" + NamePart(t) == NamePart(t);
    } else {
      var u := name + t;
      assert u[0] == name[0] && u[1..] == name[1..] + t && name[0] in name;
      NameOnly(name[1..], t);
      NameStep(name);
      NameStep(u);
      Associative([Lower(name[0])], NamePart(name[1..]), NamePart(t));
    }
  }

  lemma {:induction false} SpaceVanishes(sp: string)
    requires AllSpace(sp)
    ensures NamePart(sp) == "" && ':' !in sp
  {
    if sp != "" {
      assert sp == [sp[0]] + sp[1..];
      assert sp[0] in sp && forall c :: c in sp[1..] ==> c in sp;
      SpaceVanishes(sp[1..]);
      SpaceNotColon(sp[0]);
    }
  }

  lemma {:induction false} CaseVanishes(name: string, other: string)
    requires |name| == |other| && forall i :: 0 <= i < |name| ==> Lower(name[i]) == Lower(other[i])
    ensures NamePart(name) == NamePart(other)
    ensures ':' in name <==> ':' in other
  {
    if name != "" {
      CaseVanishes(name[1..], other[1..]);
      assert name == [name[0]] + name[1..] && other == [other[0]] + other[1..];
      LowerColon(name[0]);
      LowerColon(other[0]);
      LowerSpace(name[0]);
      LowerSpace(other[0]);
    }
  }

  lemma LowerSpace(c: char)
    ensures IsSpace(Lower(c)) <==> IsSpace(c)
  {
  }

  lemma {:induction false} WordsSkipAll(sp: string, w: string)
    requires AllSpace(sp)
    ensures Words(sp + w) == Words(w)
  {
    if sp == "" {
      assert sp + w == w;
    } else {
      assert sp[0] in sp && forall c :: c in sp[1..] ==> c in sp;
      assert (sp + w)[1..] == sp[1..] + w;
      WordsSkipAll(sp[1..], w);
    }
  }

  lemma WordsNext(v: string)
    requires v != "" && !IsSpace(v[0])
    ensures var n := WordLength(v); n > 0 && Words(v) == [v[..n]] + Words(v[n..])
  {
  }

  lemma {:induction false} WordsSplit(v: string, sp: string, w: string)
    requires AllSpace(sp) && sp != ""
    ensures Words(v + sp + w) == Words(v) + Words(w)
    decreases |v|
  {
    hide Words, WordLength, IsSpace;
    var t := v + sp + w;
    if v == "" {
      assert t == sp + w;
      WordsSkipAll(sp, w);
      NoWords();
      assert [] + Words(w) == Words(w);
    } else if IsSpace(v[0]) {
      assert t[1..] == v[1..] + sp + w && t[0] == v[0];
      WordsSkip(v);
      WordsSkip(t);
      WordsSplit(v[1..], sp, w);
    } else {
      var n := WordLength(v);
      assert sp[0] in sp && (sp + w)[0] == sp[0];
      WordStays(v, sp + w);
      Associative(v, sp, w);
      assert t[0] == v[0];
      WordsNext(v);
      WordsNext(t);
      assert t[n..] == v[n..] + sp + w && t[..n] == v[..n];
      WordsSplit(v[n..], sp, w);
      Associative([v[..n]], Words(v[n..]), Words(w));
    }
  }

  lemma NoWords()
    ensures Words("") == []
  {
  }

  lemma {:induction false} WordStays(v: string, t: string)
    requires t == "" || IsSpace(t[0])
    ensures WordLength(v + t) == WordLength(v)
  {
    if v == "" {
      assert v + t == t;
    } else if !IsSpace(v[0]) {
      assert (v + t)[1..] == v[1..] + t;
      WordStays(v[1..], t);
    }
  }

  /** The case of the name, white space around the colon, and the kind and amount of white space between words
      (a fold among them) make no difference. */
  lemma RelaxedHeaderBlind(name: string, other: string, sp: string, sp': string, v: string, gap: string, gap': string, w: string)
    requires ':' !in name && |name| == |other| && forall i :: 0 <= i < |name| ==> Lower(name[i]) == Lower(other[i])
    requires AllSpace(sp) && AllSpace(sp') && AllSpace(gap) && AllSpace(gap') && gap != "" && gap' != ""
    ensures RelaxedHeader(name + ":" + (v + gap + w)) == RelaxedHeader(other + sp + ":" + (sp' + (v + gap' + w)))
  {
    hide NamePart, AfterColon, Words, Spaced, AllSpace;
    CaseVanishes(name, other);
    SpaceVanishes(sp);
    var u, u' := v + gap + w, v + gap' + w;
    NameOnly(name, ":" + u);
    NameOnly(other + sp, ":" + (sp' + u'));
    NameOnly(other, sp);
    assert NamePart(other) + "" == NamePart(other);
    Associative(name, ":", u);
    Associative(other + sp, ":", sp' + u');
    AtColon(u);
    AtColon(sp' + u');
    WordsSplit(v, gap, w);
    WordsSplit(v, gap', w);
    WordsSkipAll(sp', u');
  }

  lemma AtColon(u: string)
    ensures NamePart(":" + u) == ":" && AfterColon(":" + u) == u
  {
    assert (":" + u)[1..] == u && (":" + u)[0] == ':';
  }

  /** The name part, with something after it, is a name part already. */
  lemma {:induction false} NameSettles(t: string, w: string)
    ensures ':' in NamePart(t) ==> NamePart(NamePart(t) + w) == NamePart(t) && AfterColon(NamePart(t) + w) == w
    ensures ':' !in NamePart(t) ==>
              AfterColon(t) == "" && AfterColon(NamePart(t)) == "" && NamePart(NamePart(t)) == NamePart(t)
  {
    hide NamePart, AfterColon, IsSpace, Lower;
    NothingNamed();
    if t != "" {
      NameStep(t);
      NameSettles(t[1..], w);
      LowerColon(t[0]);
      LowerSpace(t[0]);
      SpaceNotColon(t[0]);
      LowerTwice(t[0]);
      if t[0] == ':' {
        AtColon(w);
      } else if !IsSpace(t[0]) {
        var x, n := Lower(t[0]), NamePart(t[1..]);
        var a, b := [x] + n, [x] + n + w;
        assert a[0] == x && a[1..] == n && b[0] == x && b[1..] == n + w;
        NameStep(a);
        NameStep(b);
      }
    }
  }

  lemma LowerTwice(c: char)
    ensures Lower(Lower(c)) == Lower(c)
  {
  }

  lemma {:induction false} WordsAreWords(v: string)
    ensures forall w :: w in Words(v) ==> Word(w)
    decreases |v|
  {
    if v != "" {
      if IsSpace(v[0]) {
        WordsAreWords(v[1..]);
      } else {
        WordsAreWords(v[WordLength(v)..]);
        LengthIsWord(v);
      }
    }
  }

  lemma {:induction false} LengthIsWord(v: string)
    ensures forall c :: c in v[..WordLength(v)] ==> !IsSpace(c)
  {
    if v != "" && !IsSpace(v[0]) {
      LengthIsWord(v[1..]);
      assert v[..WordLength(v)] == [v[0]] + v[1..][..WordLength(v[1..])];
    }
  }

  lemma {:induction false} WordsOfSpaced(ws: seq<string>)
    requires forall w :: w in ws ==> Word(w)
    ensures Words(Spaced(ws)) == ws
  {
    if ws != [] {
      WordsOfSpaced(ws[1..]);
      assert Word(ws[0]);
      WholeWord(ws[0]);
      if |ws| == 1 {
        assert Words("") == [];
        assert ws[0][|ws[0]|..] == "" && ws[0][..|ws[0]|] == ws[0];
      } else {
        WordsSplit(ws[0], " ", Spaced(ws[1..]));
        assert ws[0][|ws[0]|..] == "" && ws[0][..|ws[0]|] == ws[0];
        assert Words(ws[0]) == [ws[0]];
        assert [ws[0]] + ws[1..] == ws;
      }
    }
  }

  lemma {:induction false} WholeWord(w: string)
    requires forall c :: c in w ==> !IsSpace(c)
    ensures WordLength(w) == |w|
  {
    if w != "" {
      assert w[0] in w && forall c :: c in w[1..] ==> c in w;
      WholeWord(w[1..]);
    }
  }

  /** Canonicalizing twice changes nothing more. */
  lemma RelaxedHeaderTwice(t: string)
    ensures RelaxedHeader(RelaxedHeader(t)) == RelaxedHeader(t)
  {
    hide NamePart, AfterColon, Words, Spaced;
    NameSettles(t, Spaced(Words(AfterColon(t))));
    WordsAreWords(AfterColon(t));
    WordsOfSpaced(Words(AfterColon(t)));
    WordsOfSpaced([]);
    SpacedNil();
    if ':' !in NamePart(t) {
      assert RelaxedHeader(t) == NamePart(t) + "" == NamePart(t);
    }
  }

  lemma SpacedNil()
    ensures Words("") == [] && Spaced([]) == ""
  {
  }
}
