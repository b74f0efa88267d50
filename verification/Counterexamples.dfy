/** Inputs on which the code does not do what one would like; in every case the module concerned says exactly which
    inputs these are. */
module Counterexamples {
  import opened Text
  import opened Mailbox
  import opened Addresses
  import opened SigHeader
  import opened PrintParse
  import CopiedHeaders
  import ResolverTime

  /** White space after the '@' of a bare address becomes part of the domain. */
  lemma SpaceAfterAt()
    ensures User(SplitFrom("a@ b", 0)) == Some("a") && Domain(SplitFrom("a@ b", 0)) != Some("b")
  {
    hide SplitFrom, User, Domain;
    var b3 := [Space(' ')];
    SpaceShown(b3);
    LetterIsPart("a");
    LetterIsPart("b");
    hide PartOk, Show, Address, Spaced;
    assert "a@ b" + "" == "a@ b";
    BareAddress([], "a", [], b3, "b", [], "");
  }

  lemma LetterIsPart(w: string)
    requires w == "a" || w == "b"
    ensures PartOk(w) && Atomic(w)
  {
    var i := Word(w);
    assert ItemOk(i) && ShowItem(i) == w;
  }

  lemma SpaceShown(b3: seq<Item>)
    requires b3 == [Space(' ')]
    ensures Blank(b3) && Spaced(b3) && Blank([]) && Address([], "a", [], b3, "b", []) == "a@ b"
  {
    assert Show(b3) == [' '] + Show(b3[1..]) && Show(b3[1..]) == "" && Show([]) == "";
    assert b3[0].Space?;
  }

  /** Two colons together in an h= that starts a new line: one of them is lost. This concerns the printer alone; the
      names of fields that a signer has chosen never give two colons together (EndToEnd.NamesListed), but a list of
      fields to sign always, which is not part of this model, may hold an empty name. */
  lemma ColonsLost()
    ensures PrintedTags(1, 1, 0, [Tag("v", "1"), Tag("h", "a::b")]) != [Tag("v", "1"), Tag("h", "a::b")]
  {
    var tags := [Tag("v", "1"), Tag("h", "a::b")];
    var pvs := Pieces(tags[..1]);
    assert Piece(tags[0]) == "v=1;";
    assert tags[..1] == [Tag("v", "1")] && pvs == ["v=1;"] && pvs[..0] == [];
    assert OnNewLineAt(1, 1, 0, pvs, Piece(tags[1]));
    assert ColonsAt("a::b", 2);
    assert !Unmerged(1, 1, 0, tags, 1);
    PrintedSame(1, 1, 0, tags);
  }

  // ---------- z= ----------

  /** A field one byte longer than the buffer. */
  const LONG: string := seq(CopiedHeaders.DKIM_MAXHEADER + 1, i => 'a')

  /** The copy of it is cut. */
  lemma CopyCut()
    ensures CopiedHeaders.AllAscii([LONG]) && CopiedHeaders.CopyOk(LONG)
    ensures CopiedHeaders.DecodeAll(Tokens(CopiedHeaders.PrintZ([LONG]), CopiedHeaders.BAR)) != Some([LONG])
  {
    hide CopiedHeaders.Staged, CopiedHeaders.PrintZ, CopiedHeaders.DecodeAll, CopiedHeaders.EncodeText, Tokens;
    EncodesLong(LONG);
    CopiedHeaders.CopiesComeBack([LONG]);
    assert !CopiedHeaders.Fits("", LONG);
    assert [LONG][0] == LONG && !CopiedHeaders.FitsAt([LONG], 0);
  }

  lemma {:induction false} EncodesLong(t: string)
    requires CopiedHeaders.Ascii(t)
    ensures |CopiedHeaders.EncodeText(t)| >= |t|
  {
    if t != "" {
      assert forall c :: c in t[1..] ==> c in t;
      EncodesLong(t[1..]);
    }
  }

  // ---------- Time ----------

  /** Half a second and half a second: over at the end of the second, while other intervals of a second are not. */
  lemma OverAtOnce()
    ensures ResolverTime.Elapsed(ResolverTime.TimeVal(0, 500000), ResolverTime.TimeVal(0, 500000), ResolverTime.TimeVal(1, 0))
    ensures !ResolverTime.Elapsed(ResolverTime.TimeVal(0, 0), ResolverTime.TimeVal(1, 0), ResolverTime.TimeVal(1, 0))
  {
    ResolverTime.ElapsedIs(ResolverTime.TimeVal(0, 500000), ResolverTime.TimeVal(0, 500000), ResolverTime.TimeVal(1, 0));
    ResolverTime.ElapsedIs(ResolverTime.TimeVal(0, 0), ResolverTime.TimeVal(1, 0), ResolverTime.TimeVal(1, 0));
  }
}
