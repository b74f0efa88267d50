/** Printing a signature header field and parsing it again (dkim_getsighdr_d, then dkim_process_set). */
module PrintParse {
  import opened Text
  import opened Base64
  import opened HeaderCanon
  import opened SigHeader
  import opened TagList

  predicate Clean(s: string) {
    forall c :: c in s ==> Readable(c) && !IsSpace(c)
  }

  /** A tag the parser can read: its name starts with a letter or digit, and there is no white space in it. */
  predicate ParamOk(t: Tag) {
    TagOk(t) && IsAlnum(t.name[0]) && Clean(t.name) && Clean(t.value)
  }

  predicate ParamsOk(tags: seq<Tag>) {
    forall i :: 0 <= i < |tags| ==> ParamOk(tags[i])
  }

  // ---------- What a list of tags means ----------

  /** The parameters of a list, a later one replacing an earlier one of the same name. */
  function AddAll(tags: seq<Tag>): (plist: seq<Param>) {
    if tags == [] then [] else Add(AddAll(tags[..|tags| - 1]), tags[|tags| - 1].name, tags[|tags| - 1].value, true)
  }

  /** The value of the last tag with a name. */
  function Latest(tags: seq<Tag>, name: string): (v: Option<string>) {
    if tags == [] then None
    else if tags[|tags| - 1].name == name then Some(tags[|tags| - 1].value)
    else Latest(tags[..|tags| - 1], name)
  }

  /** No two names differ in case alone. */
  ghost predicate NamesApart(tags: seq<Tag>) {
    forall i, j :: 0 <= i < |tags| && 0 <= j < |tags| && Fold(tags[i].name) == Fold(tags[j].name) ==> tags[i].name == tags[j].name
  }

  lemma {:induction false} FindIs(plist: seq<Param>, name: string, i: nat)
    requires i <= |plist| && (i < |plist| ==> Fold(plist[i].name) == Fold(name))
    requires forall k :: 0 <= k < i ==> Fold(plist[k].name) != Fold(name)
    ensures Find(plist, name) == i
  {
    if i > 0 {
      FindIs(plist[1..], name, i - 1);
    }
  }

  lemma {:induction false} GetReplaced(plist: seq<Param>, i: nat, value: string, name: string)
    requires i < |plist| && forall k :: 0 <= k < i ==> plist[k].name != plist[i].name
    ensures Get(plist[i := Param(plist[i].name, value)], name)
         == if name == plist[i].name then Some(value) else Get(plist, name)
  {
    var after := plist[i := Param(plist[i].name, value)];
    if i == 0 {
      assert after[1..] == plist[1..];
    } else {
      assert after[1..] == plist[1..][i - 1 := Param(plist[i].name, value)];
      GetReplaced(plist[1..], i - 1, value, name);
    }
  }

  lemma {:induction false} FindFirst(plist: seq<Param>, name: string)
    ensures forall k :: 0 <= k < Find(plist, name) ==> Fold(plist[k].name) != Fold(name)
  {
    if plist != [] && Fold(plist[0].name) != Fold(name) {
      FindFirst(plist[1..], name);
    }
  }

  /** What a forced addition changes, when the names that are alike are the same. */
  lemma GetAdded(plist: seq<Param>, name: string, value: string, other: string)
    requires Find(plist, name) < |plist| ==> plist[Find(plist, name)].name == name
    ensures Get(Add(plist, name, value, true), other) == if other == name then Some(value) else Get(plist, other)
  {
    var i := Find(plist, name);
    if i < |plist| {
      FindFirst(plist, name);
      forall k | 0 <= k < i ensures plist[k].name != plist[i].name {
        assert Fold(plist[k].name) != Fold(name);
      }
      GetReplaced(plist, i, value, other);
    } else {
      assert ([Param(name, value)] + plist)[1..] == plist;
    }
  }

  /** Every name on the list is the name of a tag. */
  lemma {:induction false} NamesFromTags(tags: seq<Tag>, k: nat) returns (i: nat)
    requires k < |AddAll(tags)|
    ensures i < |tags| && AddAll(tags)[k].name == tags[i].name
  {
    var n := |tags| - 1;
    var before := AddAll(tags[..n]);
    if Find(before, tags[n].name) < |before| {
      i := NamesFromTags(tags[..n], k);
    } else if k == 0 {
      i := n;
    } else {
      i := NamesFromTags(tags[..n], k - 1);
    }
  }

  /** A later duplicate wins. */
  lemma {:induction false} LaterWins(tags: seq<Tag>, name: string)
    requires NamesApart(tags)
    ensures Get(AddAll(tags), name) == Latest(tags, name)
  {
    if tags != [] {
      var n := |tags| - 1;
      var before := tags[..n];
      LaterWins(before, name);
      var k := Find(AddAll(before), tags[n].name);
      if k < |AddAll(before)| {
        var i := NamesFromTags(before, k);
        assert tags[i].name == tags[n].name;
      }
      GetAdded(AddAll(before), tags[n].name, tags[n].value, name);
    }
  }

  /** The parameters these tags are, the last first. */
  function Params(tags: seq<Tag>): (plist: seq<Param>)
    ensures |plist| == |tags|
    ensures forall k :: 0 <= k < |tags| ==> plist[k] == Param(tags[|tags| - 1 - k].name, tags[|tags| - 1 - k].value)
  {
    seq(|tags|, k requires 0 <= k < |tags| => Param(tags[|tags| - 1 - k].name, tags[|tags| - 1 - k].value))
  }

  /** With all names different the list holds exactly the tags. */
  lemma {:induction false} AllDifferent(tags: seq<Tag>)
    requires forall i, j :: 0 <= i < j < |tags| ==> Fold(tags[i].name) != Fold(tags[j].name)
    ensures AddAll(tags) == Params(tags)
  {
    hide Fold, Find;
    if tags != [] {
      var n := |tags| - 1;
      AllDifferent(tags[..n]);
      FindIs(Params(tags[..n]), tags[n].name, n);
      assert Params(tags) == [Param(tags[n].name, tags[n].value)] + Params(tags[..n]);
    }
  }

  /** No two names are alike. */
  predicate Apart(tags: seq<Tag>) {
    forall i, j :: 0 <= i < j < |tags| ==> Fold(tags[i].name) != Fold(tags[j].name)
  }

  lemma {:induction false} LatestAt(tags: seq<Tag>, i: nat)
    requires i < |tags| && forall j :: i < j < |tags| ==> tags[j].name != tags[i].name
    ensures Latest(tags, tags[i].name) == Some(tags[i].value)
  {
    if i < |tags| - 1 {
      LatestAt(tags[..|tags| - 1], i);
    }
  }

  lemma {:induction false} NoneLatest(tags: seq<Tag>, name: string)
    requires forall i :: 0 <= i < |tags| ==> tags[i].name != name
    ensures Latest(tags, name) == None
  {
    if tags != [] {
      NoneLatest(tags[..|tags| - 1], name);
    }
  }

  /** The names in a list of such tags. */
  lemma ApartNames(tags: seq<Tag>)
    requires Apart(tags)
    ensures NamesApart(tags) && forall i, j :: 0 <= i < j < |tags| ==> tags[j].name != tags[i].name
  {
    assert forall i, j :: 0 <= i < j < |tags| ==> Fold(tags[i].name) != Fold(tags[j].name);
  }

  // ---------- Parsing one tag ----------

  lemma {:induction false} CleanName(name: string)
    requires forall c :: c in name ==> !IsSpace(c)
    ensures !HasSpace(name) && NameOk(name) && Despace(name) == name
  {
    hide IsSpace, Despace;
    if name == "" {
      NoName();
      DespaceNothing();
    } else {
      var n := |name| - 1;
      assert name == name[..n] + [name[n]] && name[n] in name;
      CleanName(name[..n]);
      DespaceSplit(name[..n], [name[n]]);
      DespaceOne(name[n]);
    }
  }

  lemma DespaceNothing()
    ensures Despace("") == ""
  {
  }

  lemma DespaceOne(c: char)
    requires !IsSpace(c)
    ensures Despace([c]) == [c]
  {
    assert [c][1..] == "";
  }

  lemma TagSegment(sep: string, name: string, v: string)
    requires AllSpace(sep) && name != "" && IsAlnum(name[0]) && '=' !in name && (forall c :: c in name ==> !IsSpace(c))
    ensures ReadParam(sep + name + "=" + v) == Some((name, v)) && LeadSpaces(sep + name + "=" + v) == |sep|
    ensures Despace(name) == name
  {
    hide AllSpace, IsAlnum, IsSpace, ReadParam, LeadSpaces, NameOk, HasSpace, Despace;
    CleanName(name);
    var seg, a, n := sep + name + "=" + v, |sep|, |name|;
    assert seg[..a] == sep && seg[a] == name[0] && seg[a..a + n] == name && seg[a + n] == '=' && seg[a + n + 1..] == v;
    SegmentIs(seg, a, n);
  }

  lemma ParseTag(sep: string, name: string, v: string, rest: string, plist: seq<Param>)
    requires AllSpace(sep) && name != "" && IsAlnum(name[0]) && '=' !in name && (forall c :: c in name ==> !IsSpace(c))
    requires ';' !in name && ';' !in v
    ensures ParseFrom(sep + name + "=" + v + ";" + rest, plist) == ParseFrom(rest, Add(plist, name, Despace(v), true))
  {
    hide AllSpace, IsAlnum, IsSpace, ReadParam, LeadSpaces, Add, Despace;
    TagSegment(sep, name, v);
    SpacePlain(sep);
    var seg := sep + name + "=" + v;
    var s := seg + ";" + rest;
    TokenLengthIs(seg, ";" + rest, ';');
    assert seg + (";" + rest) == s && s[..|seg|] == seg && s[|seg| + 1..] == rest;
  }

  lemma ParseLast(sep: string, name: string, v: string, plist: seq<Param>)
    requires AllSpace(sep) && name != "" && IsAlnum(name[0]) && '=' !in name && (forall c :: c in name ==> !IsSpace(c))
    requires ';' !in name && ';' !in v
    ensures ParseFrom(sep + name + "=" + v, plist) == Some(Add(plist, name, Despace(v), true))
  {
    hide AllSpace, IsAlnum, IsSpace, ReadParam, Add, Despace;
    TagSegment(sep, name, v);
    SpacePlain(sep);
    var seg := sep + name + "=" + v;
    TokenLengthIs(seg, "", ';');
    assert seg + "" == seg && seg[..|seg|] == seg;
    if LeadSpaces(v) == |v| {
      AllLead(v);
      SpaceGone(v);
    }
  }

  lemma {:induction false} AllLead(v: string)
    requires LeadSpaces(v) == |v|
    ensures AllSpace(v)
  {
    if v != "" {
      AllLead(v[1..]);
      assert v == [v[0]] + v[1..];
    }
  }

  // ---------- Parsing what was printed ----------

  /** The tags as they are printed: an h= broken to a new line has its colons merged. */
  function PrintedTags(margin: nat, initial: nat, siglen: nat, tags: seq<Tag>): (ts: seq<Tag>) {
    if tags == [] then []
    else
      var n := |tags| - 1;
      var broken := OnNewLineAt(margin, initial, siglen, Pieces(tags[..n]), Piece(tags[n]));
      PrintedTags(margin, initial, siglen, tags[..n]) + [Tag(tags[n].name, PrintedValue(tags[n], broken))]
  }

  lemma PrintedClean(t: Tag, broken: bool, v: string)
    requires ParamOk(t) && Wrapped(PrintedValue(t, broken), v)
    ensures ';' !in v && Despace(v) == PrintedValue(t, broken) && (forall c :: c in v ==> Readable(c))
  {
    hide Despace, MergeColons, TagOk, Readable;
    var w := PrintedValue(t, broken);
    PrintedPlain(t, broken, v);
    forall c | c in w ensures c in t.value {
      MergeHas(t.value, c);
    }
    CleanName(w);
    forall c | c in v ensures Readable(c) {
      if IsSpace(c) {
        SpaceReadable(c);
      } else {
        WrappedHas(w, v, c);
      }
    }
  }

  lemma SpaceReadable(c: char)
    requires IsSpace(c)
    ensures Readable(c)
  {
  }

  lemma AllSpaceReadable(s: string)
    requires AllSpace(s)
    ensures forall c :: c in s ==> Readable(c)
  {
  }

  /** One tag more: where its text is, and that all of it can be read. */
  lemma PrintedTag(margin: nat, initial: nat, siglen: nat, tags: seq<Tag>) returns (sep: string, v: string)
    requires ParamsOk(tags) && tags != []
    ensures var n := |tags| - 1;
            && Render(margin, initial, siglen, Pieces(tags))
               == Render(margin, initial, siglen, Pieces(tags[..n])) + (sep + tags[n].name + "=" + v + ";")
            && AllSpace(sep) && ';' !in v && ParamOk(tags[n]) && ParamsOk(tags[..n])
            && Despace(v) == PrintedValue(tags[n], OnNewLineAt(margin, initial, siglen, Pieces(tags[..n]), Piece(tags[n])))
            && forall c :: c in sep + tags[n].name + "=" + v + ";" ==> Readable(c)
  {
    hide Render, PrintedValue, TagOk, OnNewLineAt, AllSpace, Wrapped, Despace, Readable, IsAlnum;
    var n := |tags| - 1;
    TagsAreOk(tags);
    sep, v := RenderTag(margin, initial, siglen, tags);
    PrintedClean(tags[n], OnNewLineAt(margin, initial, siglen, Pieces(tags[..n]), Piece(tags[n])), v);
    AllSpaceReadable(sep);
    NamePlain(tags[n]);
    var before := Render(margin, initial, siglen, Pieces(tags[..n]));
    assert before + sep + tags[n].name + "=" + v + ";" == before + (sep + tags[n].name + "=" + v + ";");
  }

  lemma {:induction false} ParsePrinted(margin: nat, initial: nat, siglen: nat, tags: seq<Tag>, rest: string)
    requires ParamsOk(tags)
    ensures ParseFrom(Render(margin, initial, siglen, Pieces(tags)) + rest, [])
         == ParseFrom(rest, AddAll(PrintedTags(margin, initial, siglen, tags)))
    ensures forall c :: c in Render(margin, initial, siglen, Pieces(tags)) ==> Readable(c)
    decreases |tags|
  {
    hide Render, ParseFrom, PrintedValue, ParamOk, ParamsOk, OnNewLineAt, AllSpace, Despace, Add, Readable, IsAlnum, Pieces;
    if tags == [] {
      RenderNothing(margin, initial, siglen);
      NoPieces();
      assert "" + rest == rest;
    } else {
      var n := |tags| - 1;
      var t, before := tags[n], Render(margin, initial, siglen, Pieces(tags[..n]));
      var sep, v := PrintedTag(margin, initial, siglen, tags);
      NamePlain(t);
      var text := sep + t.name + "=" + v + ";";
      Associative(before, text, rest);
      ParsePrinted(margin, initial, siglen, tags[..n], text + rest);
      var printed := PrintedTags(margin, initial, siglen, tags[..n]);
      ParseTag(sep, t.name, v, rest, AddAll(printed));
      AddAllSnoc(printed, Tag(t.name, Despace(v)));
    }
  }

  lemma NoPieces()
    ensures Pieces([]) == []
  {
  }

  lemma AddAllSnoc(tags: seq<Tag>, t: Tag)
    ensures AddAll(tags + [t]) == Add(AddAll(tags), t.name, t.value, true)
  {
    assert (tags + [t])[..|tags|] == tags;
  }

  lemma {:induction false} PrintedCount(margin: nat, initial: nat, siglen: nat, tags: seq<Tag>)
    ensures |PrintedTags(margin, initial, siglen, tags)| == |tags|
    decreases |tags|
  {
    if tags != [] {
      PrintedCount(margin, initial, siglen, tags[..|tags| - 1]);
    }
  }

  lemma TagsAreOk(tags: seq<Tag>)
    requires ParamsOk(tags)
    ensures TagsOk(tags)
  {
    forall i | 0 <= i < |tags| ensures TagOk(tags[i]) {
      assert ParamOk(tags[i]);
    }
  }

  lemma NamePlain(t: Tag)
    requires ParamOk(t)
    ensures t.name != "" && '=' !in t.name && ';' !in t.name && IsAlnum(t.name[0])
    ensures forall c :: c in t.name ==> !IsSpace(c) && Readable(c)
    ensures Readable('=') && Readable(';')
  {
  }

  /** White space before a list changes nothing. */
  lemma {:induction false} LeadIgnored(sp: string, s: string, plist: seq<Param>)
    requires AllSpace(sp)
    ensures ParseFrom(sp + s, plist) == ParseFrom(s, plist)
  {
    hide ParseFrom, IsSpace;
    if sp == "" {
      assert sp + s == s;
    } else {
      assert sp[0] in sp && forall c :: c in sp[1..] ==> c in sp;
      LeadIgnored(sp[1..], s, plist);
      assert sp + s == [sp[0]] + (sp[1..] + s);
      OneSpace(sp[0], sp[1..] + s, plist);
    }
  }

  lemma OneSpace(c: char, s: string, plist: seq<Param>)
    requires IsSpace(c)
    ensures ParseFrom([c] + s, plist) == ParseFrom(s, plist)
  {
    hide Add, Despace, IsSpace, ReadParam, LeadSpaces;
    var t := [c] + s;
    Semicolon();
    var n := TokenLength(s, ';');
    assert t[1..] == s && TokenLength(t, ';') == 1 + n;
    assert t[..1 + n] == [c] + s[..n];
    SpaceInSegment(c, s[..n]);
    if n < |s| {
      assert t[n + 2..] == s[n + 1..];
    }
  }

  lemma SpaceInSegment(c: char, seg: string)
    requires IsSpace(c)
    ensures LeadSpaces([c] + seg) == 1 + LeadSpaces(seg) && ReadParam([c] + seg) == ReadParam(seg)
  {
    hide NameOk, IsAlnum, TokenLength, LeadSpaces;
    var a := LeadSpaces(seg);
    OneMoreLead(c, seg);
    BehindSpace(c, seg, a);
    var n := TokenLength(seg[a..], '=');
    BehindSpace(c, seg, a + n);
    if a + n < |seg| {
      BehindSpace(c, seg, a + n + 1);
    }
    assert ([c] + seg)[1 + a..1 + a + n] == seg[a..a + n];
  }

  lemma OneMoreLead(c: char, seg: string)
    requires IsSpace(c)
    ensures LeadSpaces([c] + seg) == 1 + LeadSpaces(seg)
  {
    assert ([c] + seg)[1..] == seg;
  }

  lemma BehindSpace(c: char, seg: string, i: nat)
    requires i <= |seg|
    ensures ([c] + seg)[1 + i..] == seg[i..] && (i < |seg| ==> ([c] + seg)[1 + i] == seg[i])
  {
  }

  /** Every header printed parses, for every margin, to the tags as printed and the signature, in the given order
      of precedence; white space before it is ignored. */
  lemma PrintThenParse(lead: string, margin: nat, initial: nat, tags: seq<Tag>, sig: string)
    requires AllSpace(lead) && ParamsOk(tags) && Clean(sig) && ';' !in sig
    ensures var plist := AddAll(PrintedTags(margin, initial, |sig|, tags) + [Tag("b", sig)]);
            Process(Signature, lead + Render(margin, initial, |sig|, Pieces(tags) + ["b=" + sig]))
            == if Complete(Signature, plist) then Ok(Defaults(Signature, plist)) else Syntax
  {
    hide Render, ParseFrom, PrintedTags, AllSpace, Wrapped, Despace, Add, Readable, IsAlnum, Complete, Defaults, Process;
    var sep, v := RenderB(margin, initial, tags, sig);
    var before, last := Render(margin, initial, |sig|, Pieces(tags)), sep + "b" + "=" + v;
    var text := Render(margin, initial, |sig|, Pieces(tags) + ["b=" + sig]);
    assert "b" + "=" == "b=" && text == before + last;
    ParsePrinted(margin, initial, |sig|, tags, last);
    WrappedHas(sig, v, ';');
    var printed := PrintedTags(margin, initial, |sig|, tags);
    BIsName();
    ParseLast(sep, "b", v, AddAll(printed));
    CleanName(sig);
    assert (printed + [Tag("b", sig)])[..|printed|] == printed;
    assert Despace(v) == sig by { SameDespace(sig, v); }
    LeadIgnored(lead, text, []);
    AllSpaceReadable(lead);
    AllSpaceReadable(sep);
    WrappedReadable(sig, v);
    assert forall i :: 0 <= i < |lead + text| ==> (lead + text)[i] in lead + text;
    Accepted(Signature, lead + text, AddAll(printed + [Tag("b", sig)]));
    WithoutNul(Signature, lead + text);
  }

  lemma SameDespace(sig: string, v: string)
    requires Wrapped(sig, v) && Despace(sig) == sig
    ensures Despace(v) == sig
  {
  }

  lemma BIsName()
    ensures IsAlnum("b"[0]) && (forall c :: c in "b" ==> !IsSpace(c) && Readable(c)) && Readable('=')
  {
  }

  lemma WrappedReadable(w: string, v: string)
    requires Wrapped(w, v) && forall c :: c in w ==> Readable(c)
    ensures forall c :: c in v ==> Readable(c)
  {
    hide Readable, Wrapped;
    forall c | c in v ensures Readable(c) {
      if IsSpace(c) {
        SpaceReadable(c);
      } else {
        WrappedHas(w, v, c);
      }
    }
  }

  /** The tags come back as they were given exactly when no h= broken to a new line has two colons together. */
  lemma {:induction false} PrintedSame(margin: nat, initial: nat, siglen: nat, tags: seq<Tag>)
    ensures PrintedTags(margin, initial, siglen, tags) == tags <==> forall i :: 0 <= i < |tags| ==> Unmerged(margin, initial, siglen, tags, i)
    decreases |tags|
  {
    hide OnNewLineAt, PrintedValue, Unmerged, Pieces, Piece, PrintedTags;
    if tags == [] {
      NonePrinted(margin, initial, siglen);
    } else {
      var n := |tags| - 1;
      var before := tags[..n];
      PrintedSame(margin, initial, siglen, before);
      PrintedCount(margin, initial, siglen, before);
      forall i | 0 <= i < n
        ensures Unmerged(margin, initial, siglen, tags, i) == Unmerged(margin, initial, siglen, before, i)
      {
        UnmergedBefore(margin, initial, siglen, tags, i);
      }
      UnmergedIs(margin, initial, siglen, tags, n);
      LastPrinted(margin, initial, siglen, tags);
      var printed := PrintedTags(margin, initial, siglen, before);
      SnocSame(printed, PrintedTags(margin, initial, siglen, tags)[n], tags);
    }
  }

  lemma NonePrinted(margin: nat, initial: nat, siglen: nat)
    ensures PrintedTags(margin, initial, siglen, []) == []
  {
  }

  lemma LastPrinted(margin: nat, initial: nat, siglen: nat, tags: seq<Tag>)
    requires tags != []
    ensures var n := |tags| - 1;
            var before, ts := PrintedTags(margin, initial, siglen, tags[..n]), PrintedTags(margin, initial, siglen, tags);
            var v := PrintedValue(tags[n], OnNewLineAt(margin, initial, siglen, Pieces(tags[..n]), Piece(tags[n])));
            |before| == n && |ts| == n + 1 && ts == before + [ts[n]] && ts[n] == Tag(tags[n].name, v)
  {
    hide OnNewLineAt, PrintedValue, Pieces, Piece;
    PrintedCount(margin, initial, siglen, tags[..|tags| - 1]);
  }

  lemma SnocSame(init: seq<Tag>, last: Tag, tags: seq<Tag>)
    requires |tags| == |init| + 1
    ensures init + [last] == tags <==> init == tags[..|init|] && last == tags[|init|]
  {
    assert tags == tags[..|init|] + [tags[|init|]];
    assert (init + [last])[..|init|] == init;
  }

  lemma UnmergedBefore(margin: nat, initial: nat, siglen: nat, tags: seq<Tag>, i: nat)
    requires i < |tags| - 1
    ensures Unmerged(margin, initial, siglen, tags, i) == Unmerged(margin, initial, siglen, tags[..|tags| - 1], i)
  {
    assert tags[..|tags| - 1][..i] == tags[..i];
  }

  lemma UnmergedIs(margin: nat, initial: nat, siglen: nat, tags: seq<Tag>, i: nat)
    requires i < |tags|
    ensures Unmerged(margin, initial, siglen, tags, i) <==>
              PrintedValue(tags[i], OnNewLineAt(margin, initial, siglen, Pieces(tags[..i]), Piece(tags[i]))) == tags[i].value
  {
    hide OnNewLineAt, MergeColons, ColonsAt;
    MergeKeeps(tags[i].value);
  }

  predicate Unmerged(margin: nat, initial: nat, siglen: nat, tags: seq<Tag>, i: nat)
    requires i < |tags|
  {
    var v := tags[i].value;
    (tags[i].name == "h" && OnNewLineAt(margin, initial, siglen, Pieces(tags[..i]), Piece(tags[i]))) ==>
      forall k :: 0 < k < |v| ==> !ColonsAt(v, k)
  }

  /** The same of the code: print, then parse. */
  method PrintAndParse(tags: seq<Tag>, signature: seq<Octet>, margin: nat, initial: nat) returns (r: Result)
    requires ParamsOk(tags)
    ensures var plist := AddAll(PrintedTags(margin, initial, BASE64SIZE(|signature|), tags) + [Tag("b", Encode(signature))]);
            r == if Complete(Signature, plist) then Ok(Defaults(Signature, plist)) else Syntax
  {
    hide Render, PrintedTags, Complete, Defaults, Process, Encode, IsAlphabet, ParamOk;
    TagsAreOk(tags);
    var keybits := 8 * |signature|;
    assert keybits / 8 == |signature|;
    EncodeLength(signature);
    NotLetters();
    EncodePlain(signature, ';');
    EncodePlain(signature, DELIMITER);
    EncodeClean(signature);
    var text := GetSigHdr(tags, Encode(signature), margin, initial, keybits);
    assert AllSpace("");
    PrintThenParse("", margin, initial, tags, Encode(signature));
    assert "" + text == text;
    r := ProcessSet(Signature, text);
  }

  lemma EncodeClean(data: seq<Octet>)
    ensures Clean(Encode(data))
  {
    hide Encode;
    forall c | c in Encode(data) ensures Readable(c) && !IsSpace(c) {
      if !IsAlphabet(c) && c != '=' {
        EncodePlain(data, c);
      }
    }
  }
}
