/** Bodies, and ways to cut them, for which the hash is not that of the canonical form: each breaks a condition of
    BodyRun.HashBody. */
module BodyCounterexamples {
  import opened Text
  import opened BodySpec
  import opened BodyWindow
  import opened CrlfRepair
  import opened BodyCanon
  import opened BodyRun

  lemma Single(fix: bool, chunk: string)
    ensures Stream(fix, [chunk]) == Piece(fix, '\0', chunk) && Concat([chunk]) == chunk
    ensures [chunk][..1] == [chunk] && [chunk][..0] == []
  {
    assert Stream(fix, [chunk]) == "" + Piece(fix, '\0', chunk) == Piece(fix, '\0', chunk) by {
      StreamNothing(fix);
      StreamTake(fix, [chunk], 0);
    }
    assert Concat([chunk]) == "" + chunk == chunk by {
      ConcatNothing();
      ConcatTake([chunk], 0);
    }
  }

  lemma Double(fix: bool, a: string, b: string)
    ensures Stream(fix, [a, b]) == Piece(fix, '\0', a) + Piece(fix, Last(Piece(fix, '\0', a)), b) && Concat([a, b]) == a + b
    ensures [a, b][..1] == [a] && [a, b][..2] == [a, b]
  {
    hide Piece, Last;
    Single(fix, a);
    assert [a, b][..1] == [a] && [a, b][..2] == [a, b];
    StreamTake(fix, [a, b], 1);
    ConcatTake([a, b], 1);
  }

  /** One byte more; a way to read a short text. */
  lemma Then(s: string, x: char, t: string)
    requires s + [x] == t && Streamable(s) && (x == '\n' <==> Last(s) == '\r')
    ensures Streamable(t) && Last(t) == x && Parse(t) == Feed(Parse(s), x)
  {
    hide Streamable, Last, Parse;
    ParseSnoc(s, x);
    StreamSnoc(s, x);
  }

  lemma Start()
    ensures Streamable("") && Last("") == '\0' && Parse("") == Pos([], "", false)
  {
  }

  /** Two spaces and a CR end a chunk. */
  lemma SpilledCut()
    ensures Paired(Concat(["a  \r", "\n"])) && !NoSpill(false, ["a  \r", "\n"], -1)
  {
    hide SpillCut, Paired, Concat, Stream;
    var chunks := ["a  \r", "\n"];
    Double(false, "a  \r", "\n");
    Single(false, "a  \r");
    assert "a  \r" + "\n" == "a  \r\n";
    ShortBody();
    assert SpillAt(false, chunks, 0);
  }

  lemma ShortBody()
    ensures Paired("a  \r\n") && SpillCut("a  \r", 4)
  {
    hide Streamable, Last, Parse;
    Start();
    Then("", 'a', "a");
    Then("a", ' ', "a ");
    Then("a ", ' ', "a  ");
    Then("a  ", '\r', "a  \r");
    Then("a  \r", '\n', "a  \r\n");
  }

  /** An empty line and then one of white space, at the end. */
  lemma SpacedTail()
    ensures Paired(Concat(["a\r\n\r\n \r\n"])) && !TailFits(false, ["a\r\n\r\n \r\n"], -1)
  {
    hide Paired, Concat, Stream, Parse, TailOk, Canonical;
    Single(false, "a\r\n\r\n \r\n");
    SpacedLines();
    SpacedIsBad();
  }

  /** One byte more, and the position it leads to. */
  lemma On(s: string, q: Pos, x: char, t: string, r: Pos)
    requires s + [x] == t && Streamable(s) && (x == '\n' <==> Last(s) == '\r') && Parse(s) == q && Feed(q, x) == r
    ensures Streamable(t) && Last(t) == x && Parse(t) == r
  {
    hide *;
    Then(s, x, t);
  }

  lemma OneLine()
    ensures Streamable("a\r\n") && Last("a\r\n") == '\n' && Parse("a\r\n") == Pos(["a"], "", false)
  {
    hide Streamable, Last, Parse;
    Start();
    On("", Pos([], "", false), 'a', "a", Pos([], "a", false));
    On("a", Pos([], "a", false), '\r', "a\r", Pos([], "a", true));
    On("a\r", Pos([], "a", true), '\n', "a\r\n", Pos(["a"], "", false));
  }

  lemma TwoLines()
    ensures Streamable("a\r\n\r") && Last("a\r\n\r") == '\r' && Parse("a\r\n\r") == Pos(["a"], "", true)
    ensures Streamable("a\r\n\r\n") && Last("a\r\n\r\n") == '\n' && Parse("a\r\n\r\n") == Pos(["a", ""], "", false)
  {
    hide Streamable, Last, Parse;
    OneLine();
    On("a\r\n", Pos(["a"], "", false), '\r', "a\r\n\r", Pos(["a"], "", true));
    On("a\r\n\r", Pos(["a"], "", true), '\n', "a\r\n\r\n", Pos(["a", ""], "", false));
  }

  lemma SpacedLines()
    ensures Paired("a\r\n\r\n \r\n") && Parse("a\r\n\r\n \r\n") == Pos(["a", "", " "], "", false)
  {
    hide Streamable, Last, Parse;
    TwoLines();
    On("a\r\n\r\n", Pos(["a", ""], "", false), ' ', "a\r\n\r\n ", Pos(["a", ""], " ", false));
    On("a\r\n\r\n ", Pos(["a", ""], " ", false), '\r', "a\r\n\r\n \r", Pos(["a", ""], " ", true));
    On("a\r\n\r\n \r", Pos(["a", ""], " ", true), '\n', "a\r\n\r\n \r\n", Pos(["a", "", " "], "", false));
  }

  lemma SpacedIsBad()
    ensures !TailOk(["a", "", " "] + [""])
  {
    var lines := ["a", "", " "];
    assert lines[2][0] == ' ' && lines[1] == "" && IsLwsp(' ');
    assert BodySpec.Blank(lines[2]) && BodySpec.Blank(lines[1]);
    NoTail(lines);
    TailExtends(lines);
  }

  /** A body without a line of text: its first line is hashed. */
  lemma NoText()
    ensures Paired(Concat(["\r\n"])) && !TailFits(false, ["\r\n"], -1)
  {
    hide Paired, Concat, Stream, Parse, TailOk, Canonical;
    Single(false, "\r\n");
    ShortEmpty();
  }

  lemma ShortEmpty()
    ensures Paired("\r\n") && Parse("\r\n") == Pos([""], "", false) && !TailOk([""] + [""])
  {
    hide Streamable, Last, Parse;
    Start();
    Then("", '\r', "\r");
    Then("\r", '\n', "\r\n");
    assert forall i :: 0 <= i < 2 ==> ([""] + [""])[i] == "";
  }

  /** With the repair: a bare CR at a cut, in the blank lines at the end. */
  lemma EarlyBreak()
    ensures !NoEarly(Simple, true, ["a\r\n\r", "\r\n"], -1)
  {
    hide Concat, Stream, Parse, AtBlank, FixFrom;
    var chunks := ["a\r\n\r", "\r\n"];
    Double(true, "a\r\n\r", "\r\n");
    Single(true, "a\r\n\r");
    EarlyFixed();
    assert chunks[..|chunks|] == chunks;
    assert EarlyBy(Simple, true, chunks, 1, 2);
  }

  lemma EarlyFixed()
    ensures Piece(true, '\0', "a\r\n\r") == "a\r\n\r" && AtBlank(Simple, Parse("a\r\n\r")) && Last("a\r\n\r") == '\r'
    ensures Piece(true, '\r', "\r\n") == "\n\r\n" && OnlyBreaks("\n\r\n")
  {
    hide Streamable, Last, Parse, FixFrom, FixByte;
    TwoLines();
    LineOutSimple("");
    NoneRead();
    assert "" + "a\r\n\r" == "a\r\n\r";
    FixKeeps("", "a\r\n\r");
    EmptyLineFixed();
  }

  lemma EmptyLineFixed()
    ensures Piece(true, '\r', "\r\n") == "\n\r\n"
  {
    hide Streamable, Last, Parse, FixFrom, FixByte;
    Start();
    Then("", '\r', "\r");
    Then("\r", '\n', "\r\n");
    assert "" + "\r\n" == "\r\n" && "\n" + "\r\n" == "\n\r\n" && ['\r'] + "\n" == "\r\n";
    FixKeeps("", "\r\n");
    FixFirst('\0', '\r', "\n");
    FixFirst('\r', '\r', "\n");
    FixByteIs('\0', '\r', true, '\n');
    FixByteIs('\r', '\r', true, '\n');
  }

  /** With the repair: a bare CR at the very end. In the simple form the repair is not hashed either, when part of the
      body has been. */
  lemma BareEnd()
    ensures !TailFits(true, ["a\r"], -1)
    ensures EndFits(true, ["a\r"], -1) && !EndFits(true, ["a", "\r"], -1)
  {
    hide Stream, Concat, Parse, Last, Streamable, Out, Piece, Quiet, AtBlank, Canonical;
    BareEndRead();
    BareEndOut();
    Single(true, "a\r");
    Double(true, "a", "\r");
    Single(true, "a");
    NoneRead();
    assert "a" + "\r" == "a\r";
    var chunks := ["a", "\r"];
    assert chunks[..|chunks|] == chunks && ["a\r"][..1] == ["a\r"];
    assert WrittenAt(true, chunks, 1);
    assert !WrittenAt(true, ["a\r"], 0);
  }

  lemma NoneRead()
    ensures Stream(true, []) == "" && Last("") == '\0'
  {
  }

  lemma BareEndRead()
    ensures Piece(true, '\0', "a\r") == "a\r" && Parse("a\r") == Pos([], "a", true) && Last("a\r") == '\r'
    ensures Piece(true, '\0', "a") == "a" && Piece(true, 'a', "\r") == "\r" && Last("a") == 'a'
  {
    hide Streamable, Last, Parse, FixFrom;
    Start();
    Then("", 'a', "a");
    Then("a", '\r', "a\r");
    assert "" + "a\r" == "a\r" && "" + "a" == "a" && "" + "\r" == "\r";
    FixKeeps("", "a\r");
    FixKeeps("", "a");
    FixKeeps("a", "\r");
  }

  lemma BareEndOut()
    ensures Out(Simple, Pos([], "a", true)) == "a" && !AtBlank(Simple, Pos([], "a", true)) && !BodySpec.Blank("a")
    ensures Quiet("\r") && !Quiet("a\r")
  {
    LineOutSimple("a");
    EmitNothing(Simple);
    var q := Pos([], "a", true);
    assert q.lines[..0] == [] && "" + "a" == "a";
    assert WithoutCr("a\r") == "a" && 'a' in "a";
  }

  /** A cut right after a bare CR: the text that dkim_canon_fixcrlf makes of the first chunk lacks an LF, which
      dkim_canon_bodychunk supplies when the next chunk comes. */
  lemma CutAfterBareCr()
    ensures FixRun('\0', ["\r", "x"]) != Repair("\rx") == Stream(true, ["\r", "x"])
  {
    hide Stream, Concat, FixFrom;
    var chunks := ["\r", "x"];
    assert chunks[1..] == ["x"] && chunks[1..][1..] == [];
    assert BareCuts('\r', ["x"]) == 1 + BareCuts('x', []);
    FixRunRepairs(chunks);
    Double(true, "\r", "x");
    assert "\r" + "x" == "\rx";
    StreamRepairs(chunks);
  }
}
