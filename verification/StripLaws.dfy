/** What is left of a signature field whose signature is taken out, tag by tag (section 3.7 of RFC 4871). */
module StripLaws {
  import opened Text
  import opened SigHeader

  /** What stands between two semicolons: text whose first equals sign does not come right after the letter b, or such a
      tag, with its value. */
  datatype Part = Kept(text: string) | Signature(before: string, value: string)

  predicate PartOk(t: Part) {
    match t
    case Kept(text) => Inside(text) && !FirstIsB(text)
    case Signature(before, value) => Inside(before) && Inside(value) && '=' !in before
  }

  predicate Inside(s: string) {
    ';' !in s && '\0' !in s
  }

  predicate FirstIsB(s: string) {
    exists i :: 0 < i < |s| && s[i] == '=' && s[i - 1] == 'b' && '=' !in s[..i]
  }

  function Shown(t: Part): (s: string) {
    match t
    case Kept(text) => text
    case Signature(before, value) => before + "b=" + value
  }

  function Without(t: Part): (s: string) {
    match t
    case Kept(text) => text
    case Signature(before, _) => before + "b="
  }

  function All(ts: seq<Part>, show: Part -> string): (r: string) {
    if ts == [] then "" else show(ts[0]) + (if |ts| == 1 then "" else ";" + All(ts[1..], show))
  }

  // ---------- One part ----------

  lemma KeptWhole(text: string, last: char)
    requires PartOk(Kept(text)) && last != 'b' && (last == '\0' ==> text == "" || text[0] != '=')
    ensures StripB(text, '\0', last) == text && AfterB(text, '\0', last).0 != 'b'
  {
    hide StripB, AfterB;
    var n := TokenLength(text, '=');
    var name, rest := text[..n], text[n..];
    assert text == name + rest && forall c :: c in name || c in rest ==> c in text;
    StripKeeps(name, '\0', last);
    StripSplit(name, rest, '\0', last);
    var before := if name == "" then last else name[n - 1];
    if n == |text| {
      StripNothing('\0', before);
    } else {
      assert rest == ['='] + rest[1..] && forall c :: c in rest[1..] ==> c in rest;
      assert name != "" ==> before in name;
      assert before != 'b' && before != '\0';
      StripStep('=', rest[1..], '\0', before);
      StripKeeps(rest[1..], before, '=');
    }
  }

  lemma SignatureGoes(before: string, value: string, last: char)
    requires PartOk(Signature(before, value))
    ensures StripB(before + "b=" + value, '\0', last) == before + "b="
  {
    hide StripB, AfterB;
    var name := before + "b";
    assert before + "b=" + value == name + (['='] + value) && forall c :: c in name ==> c in before || c == 'b';
    StripKeeps(name, '\0', last);
    StripSplit(name, ['='] + value, '\0', last);
    StripStep('=', value, '\0', 'b');
    StripDrops(value, '=');
    assert name + (['='] + "") == before + "b=";
  }

  lemma OnePart(t: Part, last: char)
    requires PartOk(t) && last != 'b' && (last == '\0' ==> Shown(t) == "" || Shown(t)[0] != '=')
    ensures StripB(Shown(t), '\0', last) == Without(t)
  {
    match t
    case Kept(text) => KeptWhole(text, last);
    case Signature(before, value) => SignatureGoes(before, value, last);
  }

  // ---------- The whole field ----------

  /** After a semicolon it does not matter what has been read. */
  lemma AfterSemicolon(s: string, tag: char, last: char)
    ensures StripB(";" + s, tag, last) == ";" + StripB(s, '\0', ';')
  {
    assert (";" + s)[0] == ';' && (";" + s)[1..] == s;
  }

  lemma {:induction false} StripParts(ts: seq<Part>, last: char)
    requires (forall t :: t in ts ==> PartOk(t)) && last != 'b'
    requires last == '\0' && ts != [] ==> Shown(ts[0]) == "" || Shown(ts[0])[0] != '='
    ensures StripB(All(ts, Shown), '\0', last) == All(ts, Without)
    decreases |ts|
  {
    hide StripB, AfterB, Shown, Without, PartOk;
    if ts == [] {
      StripNothing('\0', last);
    } else {
      var t := ts[0];
      assert t in ts && forall u :: u in ts[1..] ==> u in ts;
      OnePart(t, last);
      if |ts| == 1 {
        assert Shown(t) + "" == Shown(t) && Without(t) + "" == Without(t);
      } else {
        var rest := All(ts[1..], Shown);
        StripSplit(Shown(t), ";" + rest, '\0', last);
        var (tag, before) := AfterB(Shown(t), '\0', last);
        AfterSemicolon(rest, tag, before);
        StripParts(ts[1..], ';');
      }
    }
  }

  /** Of a field, which does not begin with an equals sign, exactly the values of the tags named b are taken out: those
      whose first equals sign comes right after the letter b. */
  lemma StripIs(ts: seq<Part>)
    requires (forall t :: t in ts ==> PartOk(t)) && (ts != [] ==> Shown(ts[0]) == "" || Shown(ts[0])[0] != '=')
    ensures StripB(All(ts, Shown), '\0', '\0') == All(ts, Without)
  {
    StripParts(ts, '\0');
  }

  /** And every field is of such parts. */
  lemma PartsOf(s: string) returns (ts: seq<Part>)
    requires '\0' !in s
    ensures ts != [] && (forall t :: t in ts ==> PartOk(t)) && All(ts, Shown) == s
    decreases |s|
  {
    hide PartOk, Shown, All, TokenLength;
    var n := TokenLength(s, ';');
    Pieces(s, n);
    var t := PartOf(s[..n]);
    AllCons(t, []);
    if n == |s| {
      ts := [t] + [];
    } else {
      var rest := PartsOf(s[n + 1..]);
      ts := [t] + rest;
      AllCons(t, rest);
    }
  }

  lemma AllCons(t: Part, rest: seq<Part>)
    ensures All([t] + rest, Shown) == Shown(t) + if rest == [] then "" else ";" + All(rest, Shown)
  {
    assert ([t] + rest)[1..] == rest;
  }

  lemma Pieces(s: string, n: nat)
    requires '\0' !in s && n <= |s| && ';' !in s[..n] && (n < |s| ==> s[n] == ';')
    ensures Inside(s[..n])
    ensures n == |s| ==> s[..n] + "" == s
    ensures n < |s| ==> '\0' !in s[n + 1..] && s[..n] + (";" + s[n + 1..]) == s
  {
    assert forall c :: c in s[..n] ==> c in s;
    assert n < |s| ==> forall c :: c in s[n + 1..] ==> c in s;
  }

  lemma PartOf(s: string) returns (t: Part)
    requires Inside(s)
    ensures PartOk(t) && Shown(t) == s
  {
    if FirstIsB(s) {
      var i :| 0 < i < |s| && s[i] == '=' && s[i - 1] == 'b' && '=' !in s[..i];
      t := Signature(s[..i - 1], s[i + 1..]);
      assert forall c :: c in s[..i - 1] ==> c in s[..i] && c in s;
      assert s == s[..i - 1] + "b=" + s[i + 1..];
    } else {
      t := Kept(s);
    }
  }
}
