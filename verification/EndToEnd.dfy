/** What the signer feeds to its hashes and what the verifier feeds to its own, for one message. */
module EndToEnd {
  import opened Text
  import opened BodySpec
  import CrlfRepair
  import opened BodyCanon
  import opened BodyRun
  import opened Base64
  import opened HeaderCanon
  import opened HeaderSelect
  import opened SigHeader
  import opened TagList
  import opened PrintParse
  import Verdict

  const PREFIX: string := "DKIM-Signature: "

  // ---------- Bodies ----------

  /** The conditions under which the hash of a body is that of its canonical form. */
  predicate HashedRight(mode: Mode, fix: bool, chunks: seq<string>, length: int) {
    && NoEarly(mode, fix, chunks, length)
    && match mode
       case Simple => EndFits(fix, chunks, length)
       case Relaxed => NoSpill(fix, chunks, length) && TailFits(fix, chunks, length)
  }

  lemma CutAgain(length: int, s: string)
    requires length >= -1
    ensures Cut(|Cut(length, s)|, s) == Cut(length, s)
    ensures Cut(-1, s) == s && (Cut(length, s) == s <==> length == -1 || |s| <= length)
  {
  }

  /** The signer's body, repaired or not and hashed up to a limit, arrives as it was hashed, but in other pieces. The signer
      prints what it wrote as l= when the signature is a partial one, and the verifier takes that for its limit. */
  method HashBodies(mode: Mode, length: int, partial: bool, fix: bool, sent: seq<string>, received: seq<string>)
    returns (signed: string, verified: string)
    requires length >= -1 && (fix || Paired(Concat(sent))) && Concat(received) == Body(fix, sent) && Paired(Concat(received))
    ensures HashedRight(mode, fix, sent, length) && (partial || length == -1) ==>
              (signed == verified <==> HashedRight(mode, false, received, if partial then |signed| else -1))
    ensures HashedRight(mode, fix, sent, length) && !partial && length != -1 && HashedRight(mode, false, received, -1) ==>
              (signed == verified <==> |Canonical(mode, Body(fix, sent))| <= length)
  {
    hide NoEarly, NoSpill, EndFits, TailFits, Canonical, Paired, Concat, CrlfRepair.Repair, Cut;
    var wrote, written;
    signed, wrote := HashBody(mode, length, fix, sent);
    verified, written := HashBody(mode, if partial then wrote else -1, false, received);
    CutAgain(length, Canonical(mode, Body(fix, sent)));
  }

  /** What the verifying handle takes a body canonicalization to write is what BodyRun.HashBody computes. */
  ghost predicate HashesBodies(lib: Verdict.Lib) {
    forall mode, length, chunks :: length >= -1 && Paired(Concat(chunks)) ==>
      (lib.canonize(mode, length, chunks) == Cut(length, Canonical(mode, Concat(chunks))) <==> HashedRight(mode, false, chunks, length))
  }

  /** The canonical form where the hash is right, and something else where it is not. */
  function HashedText(mode: Mode, length: int, chunks: seq<string>): (r: string) {
    var c := Cut(length, Canonical(mode, Concat(chunks)));
    if HashedRight(mode, false, chunks, length) then c else c + " "
  }

  /** Any library can be given such a function. */
  lemma SomeLibHashes(lib: Verdict.Lib)
    ensures HashesBodies(lib.(canonize := HashedText))
  {
    hide HashedRight, Canonical, Cut, Paired, Concat;
    var given := lib.(canonize := HashedText);
    forall mode, length, chunks | length >= -1 && Paired(Concat(chunks))
      ensures given.canonize(mode, length, chunks) == Cut(length, Canonical(mode, Concat(chunks)))
              <==> HashedRight(mode, false, chunks, length)
    {
      var c := Cut(length, Canonical(mode, Concat(chunks)));
      assert |c + " "| == |c| + 1;
    }
  }

  /** A signature that has been accepted is for this body: its bh= is the base64 of the digest of the canonical form, cut
      at the limit, and the limit is not beyond the end. Hashing the body again, as the canonicaliser does, finds that. */
  method AcceptedBody(lib: Verdict.Lib, ghost canons: seq<Verdict.CanonState>, chunks: seq<string>, s: Verdict.SigInfo)
    returns (text: string)
    requires HashesBodies(lib) && Verdict.Genuine(lib, canons, chunks, s) && Paired(Concat(chunks))
    requires s.tags.value.length >= -1
    ensures var t, body := s.tags.value, Canonical(s.tags.value.bodymode, Concat(chunks));
            HashedRight(t.bodymode, false, chunks, t.length) ==>
              && text == Cut(t.length, body) == lib.canonize(t.bodymode, t.length, chunks)
              && t.bh == Encode(lib.hash(t.alg, text)) && t.length <= |body|
    ensures var t, body := s.tags.value, Canonical(s.tags.value.bodymode, Concat(chunks));
            !HashedRight(t.bodymode, false, chunks, t.length) ==>
              text != Cut(t.length, body) && lib.canonize(t.bodymode, t.length, chunks) != Cut(t.length, body)
  {
    hide NoEarly, NoSpill, EndFits, TailFits, Canonical, Encode, Paired, Concat;
    var t := s.tags.value;
    var wrote;
    text, wrote := HashBody(t.bodymode, t.length, false, chunks);
    assert lib.canonize(t.bodymode, t.length, chunks) == Cut(t.length, Canonical(t.bodymode, Concat(chunks)))
      <==> HashedRight(t.bodymode, false, chunks, t.length);
  }

  // ---------- Header fields ----------

  function CanonText(mode: Mode, text: string): (r: string) {
    if mode.Simple? then text else RelaxedHeader(text)
  }

  /** The fields at these indices, in canonical form and this order. */
  function CanonFields(mode: Mode, fields: seq<Field>, which: seq<nat>): (r: string)
    requires forall k :: 0 <= k < |which| ==> which[k] < |fields|
  {
    if which == [] then ""
    else CanonFields(mode, fields, which[..|which| - 1]) + CanonText(mode, fields[which[|which| - 1]].text) + CRLF
  }

  method FeedFields(mode: Mode, fields: seq<Field>, which: seq<nat>) returns (fed: string)
    requires forall k :: 0 <= k < |which| ==> which[k] < |fields|
    ensures fed == CanonFields(mode, fields, which)
  {
    hide RelaxedHeader;
    fed := "";
    var c := 0;
    while c < |which|
      invariant c <= |which| && fed == CanonFields(mode, fields, which[..c])
    {
      var one := CanonHeader(mode, fields[which[c]].text, true);
      assert which[..c + 1][..c] == which[..c];
      Associative(fed, CanonText(mode, fields[which[c]].text), CRLF);
      fed := fed + one;
      c := c + 1;
    }
    assert which[..c] == which;
  }

  lemma {:induction false} SameFields(mode: Mode, fields: seq<Field>, which: seq<nat>, others: seq<Field>, where: seq<nat>)
    requires |which| == |where|
    requires forall k :: 0 <= k < |which| ==> which[k] < |fields| && where[k] < |others| && others[where[k]] == fields[which[k]]
    ensures CanonFields(mode, fields, which) == CanonFields(mode, others, where)
    decreases |which|
  {
    if which != [] {
      SameFields(mode, fields, which[..|which| - 1], others, where[..|which| - 1]);
    }
  }

  /** dkim_lowerhdr. */
  function LowerHdr(text: string): (r: string) {
    if text == "" || text[0] == ':' then text else [Lower(text[0])] + LowerHdr(text[1..])
  }

  /** The signature field, in canonical form and without a CRLF. */
  method FeedSignature(mode: Mode, text: string) returns (fed: string)
    ensures fed == CanonText(mode, if mode.Relaxed? then LowerHdr(text) else text)
  {
    hide RelaxedHeader, LowerHdr;
    fed := CanonHeader(mode, if mode.Relaxed? then LowerHdr(text) else text, false);
    assert CanonText(mode, if mode.Relaxed? then LowerHdr(text) else text) + "" == fed;
  }

  /** Field names that can stand in an h= tag. */
  predicate Listable(fields: seq<Field>) {
    WellFormed(fields) && forall i :: 0 <= i < |fields| ==> Clean(fields[i].name) && ';' !in fields[i].name
  }

  /** The tags of a signature: those before the h= tag, this one if there is anything in it, and those after it. */
  function AllTags(before: seq<Tag>, value: string, after: seq<Tag>): (tags: seq<Tag>) {
    before + (if value == "" then [] else [Tag("h", value)]) + after
  }

  /** What the signature field adds to the hash. */
  function Signed(mode: Mode, text: string): (r: string) {
    CanonText(mode, if mode.Relaxed? then LowerHdr(text) else text)
  }

  lemma NamesListed(fields: seq<Field>, keep: seq<bool>)
    requires |fields| == |keep| && Listable(fields)
    requires |Joined(KeptNames(fields, keep, |fields|), ':')| < 4096
    ensures var names := KeptNames(fields, keep, |fields|);
            && FromNonEmpty(names) == names && ListedNames(Joined(names, ':')) == names
            && (Joined(names, ':') == "" <==> names == [])
            && Clean(Joined(names, ':')) && ';' !in Joined(names, ':')
            && forall k :: 0 < k < |Joined(names, ':')| ==> !ColonsAt(Joined(names, ':'), k)
  {
    hide Joined, ListedNames, FromNonEmpty;
    var names := KeptNames(fields, keep, |fields|);
    KeptWellFormed(fields, keep, |fields|);
    KeptListable(fields, keep, |fields|);
    assert forall name :: name in names ==> WellFormedName(name) && name != "";
    NoneEmpty(names);
    ListedJoined(names);
    JoinedClean(names);
  }

  lemma {:induction false} KeptListable(fields: seq<Field>, keep: seq<bool>, n: nat)
    requires n <= |fields| == |keep| && Listable(fields)
    ensures forall name :: name in KeptNames(fields, keep, n) ==> WellFormedName(name) && Clean(name) && ';' !in name
  {
    if n > 0 {
      KeptListable(fields, keep, n - 1);
    }
  }

  lemma {:induction false} JoinedClean(names: seq<string>)
    requires forall name :: name in names ==> WellFormedName(name) && Clean(name) && ';' !in name
    ensures var v := Joined(names, ':');
            && Clean(v) && ';' !in v && (v != "" ==> v[0] != ':')
            && forall k :: 0 < k < |v| ==> !ColonsAt(v, k)
  {
    hide Clean;
    ColonClean();
    if names == [] {
      JoinedNothing(':');
      NothingClean();
    } else {
      var n, rest := names[0], names[1..];
      assert n in names && forall name :: name in rest ==> name in names;
      assert n[0] in n;
      NameColons(n);
      if |names| > 1 {
        JoinedClean(rest);
        var w := Joined(rest, ':');
        assert rest[0] in rest;
        JoinedHead(rest);
        CleanBoth(n, [':'], w);
        var v := n + [':'] + w;
        assert Joined(names, ':') == v;
        forall k | 0 < k < |v|
          ensures !ColonsAt(v, k)
        {
          if k < |n| {
            assert v[k] == n[k] && n[k] in n;
          } else if k == |n| {
            assert v[k - 1] == n[k - 1] && n[k - 1] in n;
          } else {
            assert v[k] == w[k - |n| - 1] && (k > |n| + 1 ==> v[k - 1] == w[k - |n| - 2]);
            if k > |n| + 1 {
              assert !ColonsAt(w, k - |n| - 1);
            }
          }
        }
      }
    }
  }

  lemma ColonClean()
    ensures Clean([':'])
  {
  }

  lemma NothingClean()
    ensures Clean("")
  {
  }

  lemma JoinedHead(names: seq<string>)
    requires names != [] && names[0] != ""
    ensures Joined(names, ':') != "" && Joined(names, ':')[0] == names[0][0]
  {
  }

  lemma NameColons(n: string)
    requires WellFormedName(n)
    ensures n[0] != ':' && ':' !in n && forall k :: 0 < k < |n| ==> !ColonsAt(n, k)
  {
    assert n[0] in n;
    forall k | 0 < k < |n|
      ensures !ColonsAt(n, k)
    {
      assert n[k] in n;
    }
  }

  lemma CleanBoth(a: string, b: string, c: string)
    requires Clean(a) && Clean(b) && Clean(c)
    ensures Clean(a + b + c)
  {
  }

  lemma TagsListed(fields: seq<Field>, keep: seq<bool>, before: seq<Tag>, after: seq<Tag>)
    requires |fields| == |keep| && Listable(fields) && ParamsOk(before) && ParamsOk(after)
    requires |Joined(KeptNames(fields, keep, |fields|), ':')| < 4096
    ensures var tags := AllTags(before, Joined(KeptNames(fields, keep, |fields|), ':'), after); ParamsOk(tags) && TagsOk(tags)
    ensures ';' !in PREFIX && '=' !in PREFIX
  {
    hide Joined, ParamOk;
    var value := Joined(KeptNames(fields, keep, |fields|), ':');
    NamesListed(fields, keep);
    HTagOk(value);
    var tags := AllTags(before, value, after);
    forall i | 0 <= i < |tags|
      ensures ParamOk(tags[i])
    {
      var m := |tags| - |after|;
      if i >= m {
        assert tags[i] == after[i - m];
      }
    }
    TagsAreOk(tags);
  }

  lemma HTagOk(value: string)
    requires Clean(value) && ';' !in value
    ensures ParamOk(Tag("h", value))
  {
    DelimiterSpace();
    assert IsAlnum("h"[0]) && Clean("h") by { assert "h" == ['h']; }
  }

  lemma DelimiterSpace()
    ensures !Readable(DELIMITER)
  {
  }

  /** What the signer feeds to the hash of the headers: the fields chosen, and the signature field without a signature;
      and the signature field that is sent. */
  method FeedSigner(mode: Mode, fields: seq<Field>, keep: seq<bool>, before: seq<Tag>, after: seq<Tag>,
                    signature: seq<Octet>, margin: nat, initial: nat)
    returns (fed: string, emitted: string, ghost value: string)
    requires |fields| == |keep| && Listable(fields) && CaseBlind(fields, keep)
    requires |Joined(KeptNames(fields, keep, |fields|), ':')| < 4096
    requires ParamsOk(before) && ParamsOk(after)
    ensures value == Joined(KeptNames(fields, keep, |fields|), ':')
    ensures var tags := AllTags(before, value, after);
            && emitted == PREFIX + Render(margin, initial, |Encode(signature)|, Pieces(tags) + ["b=" + Encode(signature)])
            && fed == CanonFields(mode, fields, Select(fields, KeptNames(fields, keep, |fields|), {}))
                      + Signed(mode, StripB(emitted, '\0', '\0'))
  {
    hide Joined, KeptNames, Select, Encode, Render, Pieces, StripB, CanonFields, CanonText, AllTags, Marked, Indices;
    hide ListedNames, Listable, CaseBlind, ParamsOk, TagsOk, FromNonEmpty, LowerHdr, Clean;
    EncodeLength(signature);
    ghost var names := KeptNames(fields, keep, |fields|);
    NamesListed(fields, keep);
    SelectSmall(fields, names);
    SignerTakesAll(fields, keep);
    var hdrlist := NamesToSign(fields, keep);
    var flags := new bool[|fields|];
    var count, which := SelectHdrs(fields, flags, Some(hdrlist), |fields|);
    SameMarks(flags[..], keep);
    var h := PrintedNames(fields, flags);
    value := h;
    var tags := AllTags(before, h, after);
    TagsListed(fields, keep, before, after);
    var signed, verified;
    signed, emitted, verified := PrintSignStrip(PREFIX, tags, signature, margin, initial);
    fed := FeedFields(mode, fields, which);
    var last := FeedSignature(mode, signed);
    fed := fed + last;
  }

  /** What the verifier feeds to it: the fields that the h= tag chooses among those that arrive, and the signature field
      less its signature; nothing if the signature field does not parse. */
  method FeedVerifier(mode: Mode, fields: seq<Field>, emitted: string) returns (fed: Option<string>)
    requires PREFIX <= emitted
    ensures var r := Process(Signature, emitted[|PREFIX| - 1..]);
            match r
            case Syntax => fed == None
            case Ok(plist) =>
              && Has(plist, "h")
              && fed == Some(CanonFields(mode, fields, Select(fields, ListedNames(Get(plist, "h").value), {}))
                             + Signed(mode, StripB(emitted, '\0', '\0')))
  {
    hide Process, Get, Select, ListedNames, CanonFields, CanonText, StripB, LowerHdr, Indices, Marked;
    var r := ProcessSet(Signature, emitted[|PREFIX| - 1..]);
    match r {
      case Syntax => fed := None;
      case Ok(plist) =>
        HasH(emitted[|PREFIX| - 1..]);
        var h := Get(plist, "h").value;
        ghost var names := ListedNames(h);
        SelectSmall(fields, names);
        var flags := new bool[|fields|];
        var count, which := SelectHdrs(fields, flags, Some(h), |fields|);
        var all := FeedFields(mode, fields, which);
        var text := RemoveSignature(emitted);
        var last := FeedSignature(mode, text);
        fed := Some(all + last);
    }
  }

  /** A signature without h= is refused. */
  lemma HasH(text: string)
    requires Process(Signature, text).Ok?
    ensures Has(Process(Signature, text).plist, "h")
  {
    hide ParseFrom, Defaults, Get, NumberOk;
    var str := UpToNul(text);
    var plist := ParseFrom(str, []).value;
    assert Has(plist, "h");
    DefaultsFill(Signature, plist, "h");
  }

  // ---------- The h= tag on its way ----------

  lemma {:induction false} PrintedAt(margin: nat, initial: nat, siglen: nat, tags: seq<Tag>, i: nat)
    requires i < |tags|
    ensures |PrintedTags(margin, initial, siglen, tags)| == |tags|
    ensures PrintedTags(margin, initial, siglen, tags)[i].name == tags[i].name
    ensures Unmerged(margin, initial, siglen, tags, i) ==>
              PrintedTags(margin, initial, siglen, tags)[i].value == tags[i].value
    decreases |tags|
  {
    hide OnNewLineAt, PrintedValue, Unmerged, Pieces, SigHeader.Piece, PrintedTags;
    LastPrinted(margin, initial, siglen, tags);
    var n := |tags| - 1;
    if i < n {
      PrintedAt(margin, initial, siglen, tags[..n], i);
      UnmergedBefore(margin, initial, siglen, tags, i);
    } else {
      UnmergedIs(margin, initial, siglen, tags, n);
    }
  }

  /** No tag is given twice, and none of them is h= or b=. */
  predicate Distinct(before: seq<Tag>, after: seq<Tag>) {
    Apart(before + [Tag("h", "")] + after + [Tag("b", "")])
  }

  lemma PartsApart(before: seq<Tag>, value: string, after: seq<Tag>, sig: string)
    requires Distinct(before, after) && value != ""
    ensures var tags := AllTags(before, value, after) + [Tag("b", sig)];
            && Apart(tags) && tags[|before|] == Tag("h", value) && |before| < |tags| - 1
            && tags[..|tags| - 1] == AllTags(before, value, after)
  {
    var tags := AllTags(before, value, after) + [Tag("b", sig)];
    var given := before + [Tag("h", "")] + after + [Tag("b", "")];
    assert |tags| == |given| && forall i :: 0 <= i < |tags| ==> tags[i].name == given[i].name;
  }

  /** The h= tag that is read is the one that was printed. */
  lemma HReturns(before: seq<Tag>, value: string, after: seq<Tag>, sig: string, margin: nat, initial: nat)
    requires Distinct(before, after) && value != "" && forall k :: 0 < k < |value| ==> !ColonsAt(value, k)
    ensures var tags := PrintedTags(margin, initial, |sig|, AllTags(before, value, after)) + [Tag("b", sig)];
            Get(AddAll(tags), "h") == Some(value)
  {
    hide PrintedTags, Latest, AddAll, Get, ColonsAt, Distinct, OnNewLineAt;
    var all := AllTags(before, value, after);
    PartsApart(before, value, after, sig);
    var given, m := all + [Tag("b", sig)], |before|;
    assert all[m] == given[m];
    PrintedAt(margin, initial, |sig|, all, m);
    assert Unmerged(margin, initial, |sig|, all, m);
    var printed := PrintedTags(margin, initial, |sig|, all);
    var tags := printed + [Tag("b", sig)];
    forall i | 0 <= i < |tags|
      ensures tags[i].name == given[i].name
    {
      if i < |all| {
        PrintedAt(margin, initial, |sig|, all, i);
      }
    }
    NamesKept(given, tags);
    assert tags[m] == printed[m];
    LatestAt(tags, m);
    LaterWins(tags, "h");
  }

  lemma NamesKept(given: seq<Tag>, tags: seq<Tag>)
    requires Apart(given) && |given| == |tags| && forall i :: 0 <= i < |tags| ==> tags[i].name == given[i].name
    ensures NamesApart(tags) && forall i, j :: 0 <= i < j < |tags| ==> tags[j].name != tags[i].name
  {
    assert forall i, j :: 0 <= i < j < |tags| ==> Fold(given[i].name) != Fold(given[j].name);
    assert forall i, j :: 0 <= i < j < |tags| ==> Fold(tags[i].name) != Fold(tags[j].name);
    forall i, j | 0 <= i < j < |tags|
      ensures tags[j].name != tags[i].name
    {
      assert Fold(given[i].name) != Fold(given[j].name);
    }
  }

  /** Without it there is none. */
  lemma HMissing(before: seq<Tag>, after: seq<Tag>, sig: string, margin: nat, initial: nat)
    requires Distinct(before, after)
    ensures Get(AddAll(PrintedTags(margin, initial, |sig|, AllTags(before, "", after)) + [Tag("b", sig)]), "h") == None
  {
    hide PrintedTags, AddAll, Get;
    var all := AllTags(before, "", after);
    var given := all + [Tag("b", sig)];
    var full := before + [Tag("h", "")] + after + [Tag("b", "")];
    var m := |before|;
    assert all == before + after;
    assert forall i :: 0 <= i < |given| ==> given[i].name == full[if i < m then i else i + 1].name;
    assert full[m].name == "h";
    var tags := PrintedTags(margin, initial, |sig|, all) + [Tag("b", sig)];
    PrintedCount(margin, initial, |sig|, all);
    forall i | 0 <= i < |given|
      ensures tags[i].name == given[i].name
    {
      if i < |all| {
        PrintedAt(margin, initial, |sig|, all, i);
      }
    }
    forall i, j | 0 <= i < j < |given|
      ensures Fold(given[i].name) != Fold(given[j].name)
    {
      var a, b := if i < m then i else i + 1, if j < m then j else j + 1;
      assert Fold(full[a].name) != Fold(full[b].name);
    }
    forall i | 0 <= i < |given|
      ensures given[i].name != "h"
    {
      var a := if i < m then i else i + 1;
      assert Fold(full[if a < m then a else m].name) != Fold(full[if a < m then m else a].name);
    }
    NamesKept(given, tags);
    NoneLatest(tags, "h");
    LaterWins(tags, "h");
  }

  /** The parameters of the signature field: the tags as given, in order, and then the signature. */
  function Listed(before: seq<Tag>, value: string, after: seq<Tag>, sig: string): (plist: seq<Param>) {
    AddAll(AllTags(before, value, after) + [Tag("b", sig)])
  }

  /** No tag loses anything on its way, at any margin. */
  lemma PrintedWhole(before: seq<Tag>, value: string, after: seq<Tag>, siglen: nat, margin: nat, initial: nat)
    requires Distinct(before, after) && forall k :: 0 < k < |value| ==> !ColonsAt(value, k)
    ensures PrintedTags(margin, initial, siglen, AllTags(before, value, after)) == AllTags(before, value, after)
  {
    hide PrintedTags, ColonsAt, OnNewLineAt;
    var all := AllTags(before, value, after);
    forall i | 0 <= i < |all|
      ensures Unmerged(margin, initial, siglen, all, i)
    {
      OtherNames(before, value, after, i);
    }
    PrintedSame(margin, initial, siglen, all);
  }

  lemma OtherNames(before: seq<Tag>, value: string, after: seq<Tag>, i: nat)
    requires Distinct(before, after) && i < |AllTags(before, value, after)|
    ensures AllTags(before, value, after)[i] == Tag("h", value) || AllTags(before, value, after)[i].name != "h"
  {
    var all, full, m := AllTags(before, value, after), before + [Tag("h", "")] + after + [Tag("b", "")], |before|;
    var k := if i < m || value != "" then i else i + 1;
    assert all[i].name == full[k].name && full[m].name == "h";
    assert k < m ==> Fold(full[k].name) != Fold(full[m].name);
    assert k > m ==> Fold(full[m].name) != Fold(full[k].name);
  }

  /** The verifier can read the signature field exactly when it has the tags it must have, and then it reads the h= tag
      that the signer printed. */
  lemma HRead(emitted: string, value: string, before: seq<Tag>, after: seq<Tag>, sig: string, margin: nat, initial: nat)
    requires ParamsOk(AllTags(before, value, after)) && Distinct(before, after) && Clean(sig) && ';' !in sig
    requires forall k :: 0 < k < |value| ==> !ColonsAt(value, k)
    requires emitted == PREFIX + Render(margin, initial, |sig|, Pieces(AllTags(before, value, after)) + ["b=" + sig])
    ensures var r := Process(Signature, emitted[|PREFIX| - 1..]);
            && (r.Ok? <==> TagList.Complete(Signature, Listed(before, value, after, sig)))
            && (r.Ok? && Has(r.plist, "h") ==> value != "" && Get(r.plist, "h") == Some(value))
  {
    hide Process, Render, Pieces, PrintedTags, AddAll, Get, Defaults, TagList.Complete, Find, AllTags, ParamsOk, Clean, Distinct, ColonsAt;
    var text := Render(margin, initial, |sig|, Pieces(AllTags(before, value, after)) + ["b=" + sig]);
    var plist := Listed(before, value, after, sig);
    assert emitted[|PREFIX| - 1..] == " " + text;
    OneSpace();
    PrintThenParse(" ", margin, initial, AllTags(before, value, after), sig);
    PrintedWhole(before, value, after, |sig|, margin, initial);
    DefaultsFill(Signature, plist, "h");
    if value == "" {
      HMissing(before, after, sig, margin, initial);
    } else {
      HReturns(before, value, after, sig, margin, initial);
    }
  }

  lemma OneSpace()
    ensures AllSpace(" ")
  {
  }

  /** The same fields, further down the message. */
  lemma SameChoice(mode: Mode, fields: seq<Field>, keep: seq<bool>, pre: seq<Field>)
    requires |fields| == |keep| && CaseBlind(fields, keep)
    ensures var names := KeptNames(fields, keep, |fields|);
            CanonFields(mode, fields, Select(fields, names, {})) == CanonFields(mode, pre + fields, Select(pre + fields, names, {}))
  {
    hide Select, KeptNames, CanonFields, CaseBlind, Balanced;
    var names := KeptNames(fields, keep, |fields|);
    KeptAreFound(fields, keep, |fields|);
    SelectShift(pre, fields, names, {});
    assert ShiftedSet({}, |pre|) == {};
    SameFields(mode, fields, Select(fields, names, {}), pre + fields, Select(pre + fields, names, {}));
  }

  /** Over the whole way: the signer chooses, canonicalizes and prints, fields are put in front of the message, and the
      verifier parses, chooses, strips and canonicalizes. It can do so exactly when the tags given are all that a signature
      must have, and then what comes to the hash of the verifier is, byte for byte, what came to the signer's. */
  method SignAndVerify(mode: Mode, fields: seq<Field>, keep: seq<bool>, before: seq<Tag>, after: seq<Tag>,
                       signature: seq<Octet>, margin: nat, initial: nat, pre: seq<Field>)
    returns (signed: string, verified: Option<string>)
    requires |fields| == |keep| && Listable(fields) && CaseBlind(fields, keep)
    requires |Joined(KeptNames(fields, keep, |fields|), ':')| < 4096
    requires ParamsOk(before) && ParamsOk(after) && Distinct(before, after)
    ensures verified.Some? ==> verified.value == signed
    ensures verified.Some? <==>
            TagList.Complete(Signature, Listed(before, Joined(KeptNames(fields, keep, |fields|), ':'), after, Encode(signature)))
  {
    hide *;
    var emitted;
    ghost var value;
    signed, emitted, value := FeedSigner(mode, fields, keep, before, after, signature, margin, initial);
    assert PREFIX <= emitted;
    verified := FeedVerifier(mode, pre + fields, emitted);
    NamesListed(fields, keep);
    TagsListed(fields, keep, before, after);
    SignatureClean(signature);
    HRead(emitted, value, before, after, Encode(signature), margin, initial);
    SameChoice(mode, fields, keep, pre);
  }

  lemma SignatureClean(signature: seq<Octet>)
    ensures Clean(Encode(signature)) && ';' !in Encode(signature)
  {
    hide Encode, IsAlphabet;
    EncodeClean(signature);
    NotLetters();
    EncodePlain(signature, ';');
  }
}
