/** Header fields by their bytes: the relaxed form of any field, taken apart into words, and names that differ in case. */
module HeaderLaws {
  import opened Text
  import opened Spacing
  import opened HeaderCanon
  import HeaderSelect
  import TagList

  const SPACES: char -> bool := (c: char) => SpaceByte(c)

  lemma OnlySpaces(s: string)
    ensures Only(SPACES, s) <==> AllSpace(s)
    ensures Free(SPACES, s) ==> forall c :: c in s ==> !IsSpace(c)
  {
    forall c
      ensures SPACES(c) <==> IsSpace(c)
    {
      SpaceIs(c);
    }
  }

  // ---------- The value ----------

  lemma {:induction false} WordsSpread(words: seq<string>, gaps: seq<string>)
    requires Parted(SPACES, words, gaps)
    ensures Words(Spread(words, gaps)) == words
    decreases |words|
  {
    hide Words, Spread, Parted, AllSpace, SPACES;
    PartedLength(words, gaps);
    if words == [] {
      NoSpread();
      NoWords();
    } else {
      var w, g, rest := words[0], gaps[0], Spread(words[1..], gaps[1..]);
      PartedRest(SPACES, words, gaps);
      SpreadCons(words, gaps);
      WordsSpread(words[1..], gaps[1..]);
      OnlySpaces(w);
      OnlySpaces(g);
      OneWord(w);
      assert words == [w] + words[1..];
      if g == "" {
        assert words[1..] == [] && gaps[1..] == [];
        NoSpread();
        assert w + g + rest == w;
      } else {
        WordsSplit(w, g, rest);
      }
    }
  }

  lemma PartedLength(words: seq<string>, gaps: seq<string>)
    requires Parted(SPACES, words, gaps)
    ensures |words| == |gaps|
  {
  }

  lemma NoSpread()
    ensures Spread([], []) == ""
  {
  }

  lemma SpreadCons(words: seq<string>, gaps: seq<string>)
    requires |words| == |gaps| > 0
    ensures Spread(words, gaps) == words[0] + gaps[0] + Spread(words[1..], gaps[1..])
  {
  }

  lemma OneWord(w: string)
    requires w != "" && forall c :: c in w ==> !IsSpace(c)
    ensures Words(w) == [w]
  {
    WholeLength(w);
    assert w[..|w|] == w && w[|w|..] == "" && w[0] in w;
    NoWords();
  }

  lemma {:induction false} WholeLength(w: string)
    requires forall c :: c in w ==> !IsSpace(c)
    ensures WordLength(w) == |w|
  {
    if w != "" {
      assert w[0] in w && forall c :: c in w[1..] ==> c in w;
      WholeLength(w[1..]);
    }
  }

  lemma {:induction false} SpacedJoined(ws: seq<string>)
    ensures Spaced(ws) == Joined(ws, ' ')
  {
    if |ws| > 1 {
      SpacedJoined(ws[1..]);
    }
  }

  // ---------- The name ----------

  lemma {:induction false} NameSpread(words: seq<string>, gaps: seq<string>)
    requires Parted(SPACES, words, gaps) && ':' !in Spread(words, gaps)
    ensures NamePart(Spread(words, gaps)) == Small(Flat(words))
    decreases |words|
  {
    hide NamePart, Parted, AllSpace, SPACES, Small;
    PartedLength(words, gaps);
    if words == [] {
      NothingNamed();
      assert Small("") == "";
    } else {
      var w, g, rest := words[0], gaps[0], Spread(words[1..], gaps[1..]);
      PartedRest(SPACES, words, gaps);
      assert Spread(words, gaps) == w + g + rest;
      assert forall c :: c in w || c in g || c in rest ==> c in w + g + rest;
      NameSpread(words[1..], gaps[1..]);
      OnlySpaces(w);
      OnlySpaces(g);
      NameOnly(w, g + rest);
      NameOnly(g, rest);
      SpaceVanishes(g);
      Associative(w, g, rest);
      NameWord(w);
      assert Small(w + Flat(words[1..])) == Small(w) + Small(Flat(words[1..]));
      assert "" + NamePart(rest) == NamePart(rest);
    }
  }

  function Flat(words: seq<string>): (s: string) {
    if words == [] then "" else words[0] + Flat(words[1..])
  }

  lemma {:induction false} NameWord(w: string)
    requires ':' !in w && forall c :: c in w ==> !IsSpace(c)
    ensures NamePart(w) == Small(w)
  {
    if w == "" {
      NothingNamed();
    } else {
      assert w[0] in w && forall c :: c in w[1..] ==> c in w;
      NameWord(w[1..]);
      NameStep(w);
      LowerIs(w[0]);
      assert Small(w) == [SmallByte(w[0])] + Small(w[1..]);
    }
  }

  // ---------- The field ----------

  /** The relaxed form of any field, whose name and value are words with gaps between them, of bytes 9 to 13 and 32: the
      words of the name close together, with 32 added to bytes 65 to 90, a colon, and the words of the value with one
      space between any two. */
  lemma RelaxedHeaderIs(nfirst: string, nwords: seq<string>, ngaps: seq<string>,
                        vfirst: string, vwords: seq<string>, vgaps: seq<string>)
    requires Only(SPACES, nfirst) && Parted(SPACES, nwords, ngaps) && ':' !in nfirst + Spread(nwords, ngaps)
    requires Only(SPACES, vfirst) && Parted(SPACES, vwords, vgaps)
    ensures RelaxedHeader(nfirst + Spread(nwords, ngaps) + ":" + (vfirst + Spread(vwords, vgaps)))
         == Small(Flat(nwords)) + ":" + Joined(vwords, ' ')
  {
    hide NamePart, AfterColon, Words, Spaced, AllSpace, Parted, Spread, SPACES, Small, Flat, Joined;
    var name, value := Spread(nwords, ngaps), vfirst + Spread(vwords, vgaps);
    assert forall c :: c in name || c in nfirst ==> c in nfirst + name;
    OnlySpaces(nfirst);
    OnlySpaces(vfirst);
    NameSpread(nwords, ngaps);
    WordsSpread(vwords, vgaps);
    WordsSkipAll(vfirst, Spread(vwords, vgaps));
    SpacedJoined(vwords);
    NameOnly(nfirst + name, ":" + value);
    NameOnly(nfirst, name);
    SpaceVanishes(nfirst);
    AtColon(value);
    Associative(nfirst + name, ":", value);
    assert "" + NamePart(name) == NamePart(name);
    Associative(NamePart(name), ":", Joined(vwords, ' '));
  }

  /** A field without a colon is all name. */
  lemma RelaxedNameOnly(first: string, words: seq<string>, gaps: seq<string>)
    requires Only(SPACES, first) && Parted(SPACES, words, gaps) && ':' !in first + Spread(words, gaps)
    ensures RelaxedHeader(first + Spread(words, gaps)) == Small(Flat(words))
  {
    hide NamePart, AfterColon, Words, Spaced, AllSpace, Parted, Spread, SPACES, Small, Flat;
    var name := Spread(words, gaps);
    assert forall c :: c in name || c in first ==> c in first + name;
    OnlySpaces(first);
    NameSpread(words, gaps);
    NameOnly(first + name, "");
    NameOnly(first, name);
    SpaceVanishes(first);
    NoWords();
    assert "" + NamePart(name) == NamePart(name) && NamePart(name) + "" == NamePart(name);
    SpacedJoined([]);
    JoinedNothing(' ');
  }

  /** And every field is one or the other. */
  lemma FieldParts(text: string)
    returns (nfirst: string, nwords: seq<string>, ngaps: seq<string>, vfirst: string, vwords: seq<string>, vgaps: seq<string>)
    ensures Only(SPACES, nfirst) && Parted(SPACES, nwords, ngaps) && ':' !in nfirst + Spread(nwords, ngaps)
    ensures Only(SPACES, vfirst) && Parted(SPACES, vwords, vgaps)
    ensures text == nfirst + Spread(nwords, ngaps) + (if ':' in text then ":" + (vfirst + Spread(vwords, vgaps)) else "")
  {
    hide Parted, SPACES, Only, Spread, TokenLength;
    var n := TokenLength(text, ':');
    nfirst, nwords, ngaps := Parts(SPACES, text[..n]);
    var rest := if n < |text| then text[n + 1..] else "";
    vfirst, vwords, vgaps := Parts(SPACES, rest);
    if n < |text| {
      assert text == text[..n] + (":" + rest) && text[n] in text;
    } else {
      assert text[..n] == text;
    }
  }

  /** In the relaxed form of a field there are no capital letters and no white space in front of the colon; after it there
      is no white space but single spaces between words. */
  lemma RelaxedBytes(text: string)
    ensures NeatField(RelaxedHeader(text))
  {
    hide *;
    var nf, nw, ng, vf, vw, vg := FieldParts(text);
    SpreadWithin(nf, Spread(nw, ng));
    FlatBytes(nw, ng);
    var name, value := Small(Flat(nw)), Joined(vw, ' ');
    if ':' in text {
      RelaxedHeaderIs(nf, nw, ng, vf, vw, vg);
      Associative(nf + Spread(nw, ng), ":", vf + Spread(vw, vg));
      JoinedBytes(vw, vg);
      Neat(name, value);
    } else {
      assert text == nf + Spread(nw, ng);
      RelaxedNameOnly(nf, nw, ng);
      NeatName(name);
    }
  }

  predicate NeatField(r: string) {
    var n := TokenLength(r, ':');
    (forall i :: 0 <= i < n ==> !Capital(r[i]) && !SpaceByte(r[i])) && (n < |r| ==> NeatValue(r[n + 1..]))
  }

  predicate Capital(c: char) {
    65 <= c as int <= 90
  }

  predicate NeatValue(s: string) {
    && (s != "" ==> !SpaceByte(s[0]) && !SpaceByte(s[|s| - 1]))
    && forall i :: 0 <= i < |s| && SpaceByte(s[i]) ==>
                     s[i] == ' ' && 0 < i < |s| - 1 && !SpaceByte(s[i - 1]) && !SpaceByte(s[i + 1])
  }

  predicate NeatWord(s: string) {
    forall c :: c in s ==> !Capital(c) && !SpaceByte(c) && c != ':'
  }

  lemma SpreadWithin(a: string, b: string)
    ensures ':' !in a + b ==> ':' !in b
  {
    assert ':' in b ==> (a + b)[|a|..] == b;
    if ':' in b {
      var i :| 0 <= i < |b| && b[i] == ':';
      assert (a + b)[|a| + i] == ':';
    }
  }

  lemma Neat(name: string, value: string)
    requires NeatWord(name) && NeatValue(value)
    ensures NeatField(name + ":" + value)
  {
    hide NeatValue, SpaceByte, Capital;
    Associative(name, ":", value);
    TokenLengthIs(name, ":" + value, ':');
    var r := name + ":" + value;
    assert r[|name| + 1..] == value;
    assert forall i :: 0 <= i < |name| ==> r[i] == name[i] && name[i] in name;
  }

  lemma NeatName(name: string)
    requires NeatWord(name)
    ensures NeatField(name)
  {
    TokenLengthIs(name, "", ':');
    assert name + "" == name;
    assert forall i :: 0 <= i < |name| ==> name[i] in name;
  }

  lemma {:induction false} FlatBytes(words: seq<string>, gaps: seq<string>)
    requires Parted(SPACES, words, gaps) && ':' !in Spread(words, gaps)
    ensures NeatWord(Small(Flat(words)))
    decreases |words|
  {
    if words == [] {
      assert Small("") == "";
    } else {
      PartedRest(SPACES, words, gaps);
      assert forall c :: c in words[0] || c in Spread(words[1..], gaps[1..]) ==> c in Spread(words, gaps);
      FlatBytes(words[1..], gaps[1..]);
      var w, f := words[0], Flat(words[1..]);
      assert Small(w + f) == Small(w) + Small(f);
      forall i | 0 <= i < |w|
        ensures var c := Small(w)[i]; !(65 <= c as int <= 90) && !SpaceByte(c) && c != ':'
      {
        assert w[i] in w && !SPACES(w[i]);
      }
    }
  }

  lemma {:induction false} JoinedBytes(words: seq<string>, gaps: seq<string>)
    requires Parted(SPACES, words, gaps)
    ensures NeatValue(Joined(words, ' ')) && (Joined(words, ' ') == "" <==> words == [])
    decreases |words|
  {
    if words != [] {
      PartedRest(SPACES, words, gaps);
      var w := words[0];
      forall i | 0 <= i < |w|
        ensures !SpaceByte(w[i])
      {
        assert w[i] in w && !SPACES(w[i]);
      }
      if |words| > 1 {
        JoinedBytes(words[1..], gaps[1..]);
        var u := Joined(words[1..], ' ');
        var s := w + [' '] + u;
        forall i | 0 <= i < |s| && SpaceByte(s[i])
          ensures s[i] == ' ' && 0 < i < |s| - 1 && !SpaceByte(s[i - 1]) && !SpaceByte(s[i + 1])
        {
          assert s[..|w|] == w;
          if i > |w| {
            assert s[i] == u[i - |w| - 1];
            assert s[i - 1] == u[i - |w| - 2] && s[i + 1] == u[i - |w|];
          }
        }
      }
    }
  }

  // ---------- Lists of names ----------

  function NonEmpty(pieces: seq<string>): (r: seq<string>)
    ensures forall p :: p in r ==> p != "" && p in pieces
  {
    if pieces == [] then [] else (if pieces[0] == "" then [] else [pieces[0]]) + NonEmpty(pieces[1..])
  }

  lemma {:induction false} TokensJoined(pieces: seq<string>)
    requires forall p :: p in pieces ==> ':' !in p
    ensures Tokens(Joined(pieces, ':'), ':') == NonEmpty(pieces)
  {
    hide Tokens, TokenLength;
    if pieces == [] {
      NoTokens(':');
    } else {
      var p, rest := pieces[0], if |pieces| == 1 then "" else [':'] + Joined(pieces[1..], ':');
      assert p in pieces && forall q :: q in pieces[1..] ==> q in pieces;
      assert Joined(pieces, ':') == p + rest;
      NoTokens(':');
      TokensJoined(pieces[1..]);
      if |pieces| > 1 {
        assert rest[1..] == Joined(pieces[1..], ':');
      }
      if p == "" {
        assert p + rest == rest;
        if |pieces| > 1 {
          HeaderSelect.TokensStep(rest, ':');
        }
        assert [] + NonEmpty(pieces[1..]) == NonEmpty(pieces[1..]);
      } else {
        TokensCons(p, rest, ':');
      }
    }
  }

  lemma {:induction false} TrimmedIs(name: string, blanks: string)
    requires Only(SPACES, blanks) && (name == "" || !SpaceByte(name[|name| - 1]))
    ensures HeaderSelect.TrimRight(name + blanks) == name
    decreases |blanks|
  {
    if blanks == "" {
      assert name + blanks == name;
      if name != "" {
        SpaceIs(name[|name| - 1]);
      }
    } else {
      var n := |blanks| - 1;
      assert blanks[n] in blanks && SPACES(blanks[n]) && forall c :: c in blanks[..n] ==> c in blanks;
      SpaceIs(blanks[n]);
      TrimmedIs(name, blanks[..n]);
      assert (name + blanks)[..|name + blanks| - 1] == name + blanks[..n];
    }
  }

  /** The names in a list of names joined by colons are its pieces but for the empty ones, without white space at their
      ends; of a list of 4096 bytes or more only the first 4095 are read. */
  lemma ListedIs(pieces: seq<string>, i: nat, name: string, blanks: string)
    requires (forall p :: p in pieces ==> ':' !in p) && |Joined(pieces, ':')| < 4096 && i < |NonEmpty(pieces)|
    requires NonEmpty(pieces)[i] == name + blanks
    requires Only(SPACES, blanks) && (name == "" || !SpaceByte(name[|name| - 1]))
    ensures var names := HeaderSelect.ListedNames(Joined(pieces, ':'));
            |names| == |NonEmpty(pieces)| && names[i] == name
  {
    hide Tokens, Joined, NonEmpty, Only, HeaderSelect.TrimRight;
    TokensJoined(pieces);
    TrimmedIs(name, blanks);
  }

  lemma ListedPart(list: string)
    requires |list| >= 4096
    ensures HeaderSelect.ListedNames(list) == HeaderSelect.ListedNames(list[..4095])
  {
    hide Tokens;
  }

  // ---------- Names in another case ----------

  /** Names that are alike select the same field, and only these. */
  lemma SelectsAlike(fields: seq<HeaderSelect.Field>, name: string, used: set<nat>, n: nat)
    requires n <= |fields|
    ensures var i := HeaderSelect.LastUnused(fields, name, used, n);
            && (i >= 0 ==> i !in used && Alike(fields[i].name, name))
            && forall j :: i < j < n ==> j in used || !Alike(fields[j].name, name)
  {
    HeaderSelect.LastUnusedIs(fields, name, used, n);
    forall j | 0 <= j < |fields|
      ensures HeaderSelect.SameName(fields[j].name, name) <==> Alike(fields[j].name, name)
    {
      FoldIs(fields[j].name, name);
    }
  }

  /** One name more in the list chooses the last field alike that has not been chosen, if there is one. */
  lemma SelectsNext(fields: seq<HeaderSelect.Field>, names: seq<string>, name: string)
    ensures HeaderSelect.Select(fields, [], {}) == []
    ensures var chosen, next := HeaderSelect.Select(fields, names, {}), HeaderSelect.Select(fields, names + [name], {});
            if exists i: nat :: i < |fields| && i !in chosen && Alike(fields[i].name, name)
            then && |next| == |chosen| + 1 && next[..|chosen|] == chosen
                 && next[|chosen|] !in chosen && Alike(fields[next[|chosen|]].name, name)
                 && forall i :: next[|chosen|] < i < |fields| ==> i in chosen || !Alike(fields[i].name, name)
            else next == chosen
  {
    hide HeaderSelect.Select, HeaderSelect.LastUnused, Alike, HeaderSelect.Indices;
    var chosen := HeaderSelect.Select(fields, names, {});
    var used := HeaderSelect.Indices(chosen);
    HeaderSelect.SelectAppend(fields, names, [name], {});
    assert {} + used == used && [name][1..] == [];
    HeaderSelect.SelectStep(fields, [name], used);
    var i := HeaderSelect.LastUnused(fields, name, used, |fields|);
    SelectsAlike(fields, name, used, |fields|);
    HeaderSelect.SelectNothing(fields, {});
    HeaderSelect.SelectNothing(fields, used);
    assert chosen + [] == chosen;
    if i >= 0 {
      HeaderSelect.SelectNothing(fields, used + {i});
      assert [i] + [] == [i];
    }
  }

  /** How many of the names are alike. */
  function Mentions(names: seq<string>, name: string): (n: nat) {
    if names == [] then 0 else Mentions(names[1..], name) + if Alike(names[0], name) then 1 else 0
  }

  /** The fields from i down to the last that are alike and not used. */
  function FromBelow(fields: seq<HeaderSelect.Field>, used: set<nat>, i: nat): (s: set<nat>)
    requires i < |fields|
    ensures forall j: nat :: j in s <==> i <= j < |fields| && j !in used && Alike(fields[j].name, fields[i].name)
  {
    set j: nat | i <= j < |fields| && j !in used && Alike(fields[j].name, fields[i].name)
  }

  lemma AlikeSteps(a: string, b: string, c: string)
    ensures Alike(a, a)
    ensures Alike(a, b) ==> Alike(b, a)
    ensures Alike(a, b) && Alike(b, c) ==> Alike(a, c)
  {
  }

  lemma {:induction false} SelectsUnused(fields: seq<HeaderSelect.Field>, names: seq<string>, used: set<nat>, i: nat)
    requires i < |fields| && i !in used
    ensures i in HeaderSelect.Select(fields, names, used) <==>
            |FromBelow(fields, used, i)| <= Mentions(names, fields[i].name)
    decreases |names|
  {
    hide HeaderSelect.Select, HeaderSelect.LastUnused, Alike, FromBelow;
    var below := FromBelow(fields, used, i);
    AlikeSteps(fields[i].name, "", "");
    assert i in below;
    if names == [] {
      HeaderSelect.SelectNothing(fields, used);
    } else {
      var k := HeaderSelect.LastUnused(fields, names[0], used, |fields|);
      HeaderSelect.SelectStep(fields, names, used);
      SelectsAlike(fields, names[0], used, |fields|);
      AlikeSteps(fields[i].name, names[0], "");
      AlikeSteps(names[0], fields[i].name, "");
      if k < 0 {
        SelectsUnused(fields, names[1..], used, i);
      } else {
        AlikeSteps(fields[k].name, names[0], fields[i].name);
        AlikeSteps(names[0], fields[k].name, fields[i].name);
        AlikeSteps(names[0], fields[i].name, "");
        AlikeSteps(fields[k].name, fields[i].name, names[0]);
        if k == i {
          OnlyLast(fields, used, i, names[0]);
        } else {
          assert FromBelow(fields, used + {k}, i) == below - {k};
          SelectsUnused(fields, names[1..], used + {k}, i);
        }
      }
    }
  }

  lemma OnlyLast(fields: seq<HeaderSelect.Field>, used: set<nat>, i: nat, name: string)
    requires i < |fields| && i !in used && Alike(fields[i].name, name)
    requires forall j :: i < j < |fields| ==> j in used || !Alike(fields[j].name, name)
    ensures FromBelow(fields, used, i) == {i}
  {
    hide Alike;
    AlikeSteps(fields[i].name, "", "");
    forall j | j in FromBelow(fields, used, i)
      ensures j == i
    {
      AlikeSteps(fields[j].name, fields[i].name, name);
    }
  }

  /** A list of names, each as often as it likes, chooses a field exactly when the fields alike, counted from the bottom
      up to this one, are no more than the names alike. */
  lemma SelectsCounted(fields: seq<HeaderSelect.Field>, names: seq<string>, i: nat)
    requires i < |fields|
    ensures i in HeaderSelect.Select(fields, names, {}) <==>
            |set j: nat | i <= j < |fields| && Alike(fields[j].name, fields[i].name)| <= Mentions(names, fields[i].name)
  {
    hide HeaderSelect.Select, Alike;
    SelectsUnused(fields, names, {}, i);
    assert FromBelow(fields, {}, i) == set j: nat | i <= j < |fields| && Alike(fields[j].name, fields[i].name);
  }

  /** The parameter of a name is the first whose name is alike. */
  lemma {:induction false} FindsAlike(plist: seq<TagList.Param>, name: string)
    ensures var i := TagList.Find(plist, name);
            (i < |plist| ==> Alike(plist[i].name, name)) && forall j :: 0 <= j < i ==> !Alike(plist[j].name, name)
  {
    if plist != [] {
      FindsAlike(plist[1..], name);
      FoldIs(plist[0].name, name);
    }
  }
}
