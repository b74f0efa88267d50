/** What sections 3.4.3 and 3.4.4 of RFC 4871 ask of a message body, and how far a prefix of it determines the answer. */
module BodySpec {
  import opened Text

  datatype Mode = Simple | Relaxed

  // ---------- The specification, on whole bodies ----------

  /** Section 3.4.4, first step: white space at the end of a line goes. */
  function StripRight(line: string): (r: string) {
    if line == [] || !IsLwsp(line[|line| - 1]) then line else StripRight(line[..|line| - 1])
  }

  function DropLwsp(line: string): (r: string)
    ensures |r| <= |line|
  {
    if line != [] && IsLwsp(line[0]) then DropLwsp(line[1..]) else line
  }

  /** Section 3.4.4, second step: every run of white space becomes one space. */
  function Collapse(line: string): (r: string)
    decreases |line|
  {
    if line == [] then []
    else if IsLwsp(line[0]) then " " + Collapse(DropLwsp(line))
    else [line[0]] + Collapse(line[1..])
  }

  function LineOut(mode: Mode, line: string): (r: string) {
    if mode.Simple? then line else Collapse(StripRight(line))
  }

  lemma EmptyLine(mode: Mode)
    ensures LineOut(mode, []) == []
  {
  }

  function MapLines(mode: Mode, lines: seq<string>): (r: seq<string>)
    ensures |r| == |lines|
    ensures forall i :: 0 <= i < |lines| ==> r[i] == LineOut(mode, lines[i])
  {
    seq(|lines|, i requires 0 <= i < |lines| => LineOut(mode, lines[i]))
  }

  /** The text with the given lines, each ended by CRLF. */
  function Unlines(lines: seq<string>): (r: string) {
    if lines == [] then [] else Unlines(lines[..|lines| - 1]) + lines[|lines| - 1] + CRLF
  }

  function DropTrailingEmpty(lines: seq<string>): (r: seq<string>)
    ensures r <= lines
  {
    if lines != [] && lines[|lines| - 1] == [] then DropTrailingEmpty(lines[..|lines| - 1]) else lines
  }

  /** Section 3.4.4 as a whole. */
  function RelaxedBody(lines: seq<string>): (r: string) {
    Unlines(DropTrailingEmpty(MapLines(Relaxed, lines)))
  }

  function StripCrlfs(body: string): (r: string) {
    if |body| >= 2 && body[|body| - 2..] == CRLF then StripCrlfs(body[..|body| - 2]) else body
  }

  /** Section 3.4.3: the trailing run of CRLFs becomes exactly one. */
  function SimpleBody(body: string): (r: string) {
    StripCrlfs(body) + CRLF
  }

  /** Section 3.4.5: an l= tag (-1 when absent) keeps that many bytes of the canonical body. */
  function Cut(limit: int, s: string): (r: string) {
    if 0 <= limit < |s| then s[..limit] else s
  }

  // ---------- Reading a body byte by byte ----------

  /** A prefix of a body: its complete lines, the line being read, and whether a CR awaits its LF. */
  datatype Pos = Pos(lines: seq<string>, cur: string, cr: bool)

  function Feed(q: Pos, x: char): (r: Pos) {
    if x == '\n' then Pos(q.lines + [q.cur], [], false)
    else if x == '\r' then Pos(q.lines, q.cur, true)
    else Pos(q.lines, q.cur + [x], false)
  }

  function Parse(s: string): (q: Pos) {
    if s == [] then Pos([], [], false) else Feed(Parse(s[..|s| - 1]), s[|s| - 1])
  }

  lemma ParseSnoc(s: string, x: char)
    ensures Parse(s + [x]) == Feed(Parse(s), x)
  {
    assert (s + [x])[..|s|] == s;
  }

  function Last(s: string): (c: char) {
    if s == [] then '\0' else s[|s| - 1]
  }

  /** A prefix of a body in which every CR and LF belongs to a CRLF. */
  predicate Streamable(s: string) {
    s == [] || (Streamable(s[..|s| - 1]) && (s[|s| - 1] == '\n' <==> Last(s[..|s| - 1]) == '\r'))
  }

  lemma {:induction false} StreamableMeans(s: string)
    ensures Streamable(s) <==>
            (s != [] ==> s[0] != '\n') && forall i :: 0 < i < |s| ==> PairAt(s, i)
  {
    if s != [] {
      var t := s[..|s| - 1];
      StreamableMeans(t);
      assert forall i :: 0 < i < |t| ==> PairAt(s, i) == PairAt(t, i);
      if |s| > 1 {
        assert PairAt(s, |s| - 1) <==> (s[|s| - 1] == '\n' <==> Last(t) == '\r');
      }
    }
  }

  predicate PairAt(s: string, i: nat)
    requires 0 < i < |s|
  {
    s[i] == '\n' <==> s[i - 1] == '\r'
  }

  /** Every CR and every LF is part of a CRLF. */
  predicate Paired(s: string) {
    Streamable(s) && Last(s) != '\r'
  }

  /** The text with the LF that a CR at its end is waiting for. */
  function Complete(s: string): (t: string) {
    if Last(s) == '\r' then s + ['\n'] else s
  }

  lemma CompleteIsPaired(s: string)
    requires Streamable(s)
    ensures Paired(Complete(s)) && Complete(s)[..|s|] == s && Parse(Complete(s)).cr == false
    ensures Last(s) == '\r' ==> Parse(Complete(s)) == Feed(Parse(s), '\n')
  {
    hide Parse, Rebuilt, CleanPos;
    if Last(s) == '\r' {
      assert (s + ['\n'])[..|s|] == s;
      ParseSnoc(s, '\n');
    }
    ParseRebuilds(Complete(s));
  }

  predicate CleanLine(line: string) {
    '\r' !in line && '\n' !in line
  }

  predicate CleanPos(q: Pos) {
    CleanLine(q.cur) && forall line :: line in q.lines ==> CleanLine(line)
  }

  lemma {:induction false} StreamablePrefix(s: string, i: nat)
    requires Streamable(s) && i <= |s|
    ensures Streamable(s[..i])
  {
    if i == |s| {
      assert s[..i] == s;
    } else {
      StreamablePrefix(s[..|s| - 1], i);
      assert s[..|s| - 1][..i] == s[..i];
    }
  }

  /** The text read up to a position. */
  function Rebuilt(q: Pos): (s: string) {
    Unlines(q.lines) + q.cur + (if q.cr then "\r" else "")
  }

  /** One byte on from a position between lines or in one; a CR must be followed by its LF. */
  lemma FeedRebuilds(q: Pos, x: char)
    requires CleanPos(q) && (x == '\n' <==> q.cr)
    ensures CleanPos(Feed(q, x)) && Rebuilt(Feed(q, x)) == Rebuilt(q) + [x]
  {
    var r := Feed(q, x);
    if x == '\n' {
      assert r.lines[..|q.lines|] == q.lines;
      assert "\r" + ['\n'] == CRLF;
      Associative(Unlines(q.lines) + q.cur, "\r", ['\n']);
      assert Unlines(r.lines) + [] + "" == Unlines(r.lines);
    } else if x == '\r' {
      assert Rebuilt(q) == Unlines(q.lines) + q.cur;
    } else {
      Associative(Unlines(q.lines), q.cur, [x]);
    }
  }

  /** Reading loses nothing: the text read so far can be written back from the position. */
  lemma {:induction false} ParseRebuilds(s: string)
    requires Streamable(s)
    ensures CleanPos(Parse(s)) && s == Rebuilt(Parse(s))
    ensures Parse(s).cr <==> Last(s) == '\r'
    ensures Last(s) == '\n' <==> s != [] && Parse(s).cur == [] && !Parse(s).cr
    ensures !Parse(s).cr && Parse(s).cur != [] ==> Last(s) == Last(Parse(s).cur)
  {
    hide Rebuilt, CleanPos;
    if s == [] {
      ParseNothing();
    } else {
      var t, x := s[..|s| - 1], s[|s| - 1];
      assert s == t + [x];
      ParseRebuilds(t);
      FeedRebuilds(Parse(t), x);
    }
  }

  lemma ParseNothing()
    ensures CleanPos(Parse("")) && Rebuilt(Parse("")) == ""
  {
  }

  // ---------- What the streaming code has let go of after a prefix ----------

  /** Blank lines at the end that are still held back: the first line of a body never is,
      and white space on a line releases the blank lines before it. */
  function Pending(mode: Mode, lines: seq<string>): (n: nat)
    ensures n <= |lines|
  {
    if |lines| <= 1 || LineOut(mode, lines[|lines| - 1]) != [] then 0
    else if lines[|lines| - 1] == [] then Pending(mode, lines[..|lines| - 1]) + 1
    else 1
  }

  function Held(mode: Mode, q: Pos): (n: nat)
    ensures n <= |q.lines|
  {
    if q.cur == [] then Pending(mode, q.lines) else 0
  }

  /** The canonical form of complete lines, without dropping any. */
  function Emit(mode: Mode, lines: seq<string>): (r: string) {
    if lines == [] then [] else Emit(mode, lines[..|lines| - 1]) + LineOut(mode, lines[|lines| - 1]) + CRLF
  }

  function Out(mode: Mode, q: Pos): (r: string) {
    Emit(mode, q.lines[..|q.lines| - Held(mode, q)]) + LineOut(mode, q.cur)
  }

  function Crlfs(n: nat): (r: string)
    ensures |r| == 2 * n
  {
    if n == 0 then [] else Crlfs(n - 1) + CRLF
  }

  lemma EmitSnoc(mode: Mode, lines: seq<string>, line: string)
    ensures Emit(mode, lines + [line]) == Emit(mode, lines) + LineOut(mode, line) + CRLF
  {
    assert (lines + [line])[..|lines|] == lines;
  }

  lemma {:induction false} EmitIsUnlines(mode: Mode, lines: seq<string>)
    ensures Emit(mode, lines) == Unlines(MapLines(mode, lines))
  {
    if lines != [] {
      EmitIsUnlines(mode, lines[..|lines| - 1]);
      var m := MapLines(mode, lines);
      assert m[..|lines| - 1] == MapLines(mode, lines[..|lines| - 1]);
    }
  }

  lemma CrlfsSnoc(n: nat)
    ensures Crlfs(0) == "" && Crlfs(n) + CRLF == Crlfs(n + 1)
  {
  }

  lemma {:induction false} PendingAreBlank(mode: Mode, lines: seq<string>)
    ensures Emit(mode, lines) == Emit(mode, lines[..|lines| - Pending(mode, lines)]) + Crlfs(Pending(mode, lines))
  {
    hide Emit, Crlfs, LineOut;
    var n := Pending(mode, lines);
    CrlfsSnoc(0);
    if n == 0 {
      assert lines[..|lines|] == lines;
    } else {
      var init, last := lines[..|lines| - 1], lines[|lines| - 1];
      assert lines == init + [last];
      EmitSnoc(mode, init, last);
      assert Emit(mode, init) + [] == Emit(mode, init);
      if last == [] {
        EmptyLine(mode);
        var m := Pending(mode, init);
        PendingAreBlank(mode, init);
        assert init[..|init| - m] == lines[..|lines| - n];
        CrlfsSnoc(m);
        Associative(Emit(mode, init[..|init| - m]), Crlfs(m), CRLF);
      } else {
        assert "" + CRLF == CRLF;
      }
    }
  }

  lemma {:induction false} CollapseSnoc(line: string, x: char)
    requires !IsLwsp(x)
    ensures Collapse(line + [x]) == if line != [] && IsLwsp(line[|line| - 1])
                                    then Collapse(StripRight(line)) + [' ', x]
                                    else Collapse(line) + [x]
    decreases |line|, 1
  {
    hide Collapse, StripRight, DropLwsp, IsLwsp;
    if line == [] {
      CollapseText(x, []);
      CollapseNothing();
      assert [] + [x] == [x] && [x] + [] == [x];
    } else if !IsLwsp(line[0]) {
      var rest := line[1..];
      assert line + [x] == [line[0]] + (rest + [x]) && line == [line[0]] + rest;
      CollapseText(line[0], rest + [x]);
      CollapseText(line[0], rest);
      CollapseSnoc(rest, x);
      if IsLwsp(line[|line| - 1]) {
        StripTail(line);
        var s := StripRight(line);
        assert s == [line[0]] + s[1..];
        CollapseText(line[0], s[1..]);
        Associative([line[0]], Collapse(s[1..]), [' ', x]);
      } else {
        Associative([line[0]], Collapse(rest), [x]);
      }
    } else {
      CollapseSpace(line, x);
    }
  }

  lemma CollapseNothing()
    ensures Collapse([]) == []
  {
  }

  lemma CollapseText(c: char, rest: string)
    requires !IsLwsp(c)
    ensures Collapse([c] + rest) == [c] + Collapse(rest)
  {
    assert ([c] + rest)[1..] == rest;
  }

  lemma CollapseBlank(line: string)
    requires line != [] && IsLwsp(line[0])
    ensures Collapse(line) == " " + Collapse(DropLwsp(line)) && |DropLwsp(line)| < |line|
  {
  }

  lemma CollapseSpace(line: string, x: char)
    requires line != [] && IsLwsp(line[0]) && !IsLwsp(x)
    ensures Collapse(line + [x]) == if IsLwsp(line[|line| - 1])
                                    then Collapse(StripRight(line)) + [' ', x]
                                    else Collapse(line) + [x]
    decreases |line|, 0
  {
    hide Collapse, StripRight, DropLwsp, IsLwsp;
    var d := DropLwsp(line);
    DropSnoc(line, x);
    CollapseBlank(line + [x]);
    CollapseBlank(line);
    CollapseSnoc(d, x);
    if d == [] {
      AllLwspStrips(line);
      CollapseNothing();
      BlankToEnd(line);
      assert " " + ([] + [x]) == [] + [' ', x];
    } else {
      DropIsSuffix(line);
      assert d[|d| - 1] == line[|line| - 1];
      if IsLwsp(line[|line| - 1]) {
        StripDrop(line);
        CollapseBlank(StripRight(line));
        Associative(" ", Collapse(StripRight(d)), [' ', x]);
      } else {
        Associative(" ", Collapse(d), [x]);
      }
    }
  }

  lemma BlankToEnd(line: string)
    requires line != [] && DropLwsp(line) == []
    ensures IsLwsp(line[|line| - 1])
  {
    if |line| > 1 {
      BlankToEnd(line[1..]);
    }
  }

  lemma StripTail(line: string)
    requires line != [] && !IsLwsp(line[0])
    ensures StripRight(line) != [] && StripRight(line)[0] == line[0]
    ensures StripRight(line)[1..] == StripRight(line[1..])
  {
    if IsLwsp(line[|line| - 1]) {
      StripTail(line[..|line| - 1]);
      assert line[1..][..|line| - 2] == line[..|line| - 1][1..];
    }
  }

  lemma DropSnoc(line: string, x: char)
    requires !IsLwsp(x)
    ensures DropLwsp(line + [x]) == DropLwsp(line) + [x]
  {
    if line != [] {
      assert (line + [x])[1..] == line[1..] + [x];
    }
  }

  lemma {:induction false} DropIsSuffix(line: string)
    ensures DropLwsp(line) == line[|line| - |DropLwsp(line)|..]
    ensures DropLwsp(line) != [] ==> !IsLwsp(DropLwsp(line)[0])
  {
    if line != [] && IsLwsp(line[0]) {
      DropIsSuffix(line[1..]);
      var n := |line[1..]| - |DropLwsp(line[1..])|;
      assert line[1..][n..] == line[n + 1..];
    } else {
      assert line[0..] == line;
    }
  }

  lemma AllLwspStrips(line: string)
    requires DropLwsp(line) == []
    ensures StripRight(line) == []
  {
    if line != [] {
      AllLwspStrips(line[1..]);
      StripAll(line);
    }
  }

  lemma StripAll(line: string)
    requires line != [] && IsLwsp(line[0]) && StripRight(line[1..]) == []
    ensures StripRight(line) == []
  {
    if |line| > 1 {
      if IsLwsp(line[|line| - 1]) {
        assert line[1..][..|line| - 2] == line[..|line| - 1][1..];
        StripAll(line[..|line| - 1]);
      }
    }
  }

  lemma StripDrop(line: string)
    requires DropLwsp(line) != []
    ensures StripRight(line) != [] && DropLwsp(StripRight(line)) == StripRight(DropLwsp(line))
    ensures IsLwsp(line[0]) ==> IsLwsp(StripRight(line)[0])
  {
    if IsLwsp(line[0]) {
      StripDrop(line[1..]);
      StripKeepsHead(line);
      assert StripRight(line)[1..] == StripRight(line[1..]);
    } else {
      StripTail(line);
    }
  }

  lemma StripKeepsHead(line: string)
    requires line != [] && StripRight(line[1..]) != []
    ensures StripRight(line) == [line[0]] + StripRight(line[1..])
  {
    if IsLwsp(line[|line| - 1]) {
      assert line[1..][..|line| - 2] == line[..|line| - 1][1..];
      StripKeepsHead(line[..|line| - 1]);
    }
  }

  /** How the output of a line grows as the line does. */
  lemma LineOutSnoc(line: string, x: char)
    ensures LineOut(Relaxed, line + [x]) ==
            if IsLwsp(x) then LineOut(Relaxed, line)
            else if line != [] && IsLwsp(line[|line| - 1]) then LineOut(Relaxed, line) + [' ', x]
            else LineOut(Relaxed, line) + [x]
  {
    assert (line + [x])[..|line|] == line;
    if !IsLwsp(x) {
      CollapseSnoc(line, x);
    }
  }

  // ---------- One byte further ----------

  lemma PendingSnoc(mode: Mode, lines: seq<string>, line: string)
    ensures Pending(mode, lines + [line]) == if lines == [] || LineOut(mode, line) != [] then 0
                                             else if line == [] then Pending(mode, lines) + 1
                                             else 1
  {
    assert (lines + [line])[..|lines|] == lines;
  }

  lemma StepLf(mode: Mode, q: Pos)
    ensures var r := Feed(q, '\n');
            if q.lines != [] && LineOut(mode, q.cur) == []
            then Held(mode, r) == Held(mode, q) + 1 && Out(mode, r) == Out(mode, q)
            else Held(mode, r) == 0 && Out(mode, r) == Out(mode, q) + CRLF
  {
    hide LineOut, Emit, Pending;
    EmptyLine(mode);
    PendingSnoc(mode, q.lines, q.cur);
    var r := Feed(q, '\n');
    var kept := q.lines[..|q.lines| - Held(mode, q)];
    assert Emit(mode, kept) + [] == Emit(mode, kept);
    if q.lines != [] && LineOut(mode, q.cur) == [] {
      assert r.lines[..|r.lines| - Held(mode, r)] == kept;
    } else {
      EmitSnoc(mode, q.lines, q.cur);
      assert r.lines[..|r.lines|] == r.lines && q.lines[..|q.lines|] == q.lines;
      HeldIsBlank(mode, q);
      assert Emit(mode, r.lines) + [] == Emit(mode, r.lines);
    }
  }

  lemma StepCr(mode: Mode, q: Pos)
    ensures Out(mode, Feed(q, '\r')) == Out(mode, q) && Held(mode, Feed(q, '\r')) == Held(mode, q)
  {
    hide LineOut, Pending, Emit;
  }

  /** A byte of text releases the blank lines held back and then adds what it adds to its line. */
  lemma StepText(mode: Mode, q: Pos, x: char, delta: string)
    requires x != '\r' && x != '\n'
    requires LineOut(mode, q.cur + [x]) == LineOut(mode, q.cur) + delta
    ensures Held(mode, Feed(q, x)) == 0
    ensures Out(mode, Feed(q, x)) == Out(mode, q) + Crlfs(Held(mode, q)) + delta
  {
    hide LineOut, Emit, Crlfs, Pending;
    EmptyLine(mode);
    CrlfsSnoc(0);
    assert q.lines[..|q.lines|] == q.lines;
    var kept, blanks := Emit(mode, q.lines[..|q.lines| - Held(mode, q)]), Crlfs(Held(mode, q));
    if q.cur == [] {
      PendingAreBlank(mode, q.lines);
      assert kept + blanks + delta == kept + "" + blanks + delta;
    } else {
      assert kept + LineOut(mode, q.cur) + "" == kept + LineOut(mode, q.cur);
      Associative(kept, LineOut(mode, q.cur), delta);
    }
  }

  function Delta(mode: Mode, line: string, x: char): (delta: string)
    ensures LineOut(mode, line + [x]) == LineOut(mode, line) + delta
  {
    LineOutSnoc(line, x);
    if mode.Simple? then [x]
    else if IsLwsp(x) then []
    else if line != [] && IsLwsp(line[|line| - 1]) then [' ', x]
    else [x]
  }

  /** Output once produced is never taken back. */
  lemma OutGrows(mode: Mode, s: string, x: char)
    ensures Out(mode, Parse(s)) <= Out(mode, Parse(s + [x]))
  {
    ParseSnoc(s, x);
    var q := Parse(s);
    if x == '\n' {
      StepLf(mode, q);
    } else if x == '\r' {
      StepCr(mode, q);
    } else {
      StepText(mode, q, x, Delta(mode, q.cur, x));
    }
  }

  lemma {:induction false} OutMonotone(mode: Mode, s: string, i: nat)
    requires i <= |s|
    ensures Out(mode, Parse(s[..i])) <= Out(mode, Parse(s))
    decreases |s| - i
  {
    if i == |s| {
      assert s[..i] == s;
    } else {
      assert s[..i + 1] == s[..i] + [s[i]];
      OutGrows(mode, s[..i], s[i]);
      OutMonotone(mode, s, i + 1);
    }
  }

  /** The current line has produced nothing yet, and is not the first line. */
  predicate AtBlank(mode: Mode, q: Pos) {
    q.lines != [] && LineOut(mode, q.cur) == []
  }

  lemma StreamableInit(s: string, x: char)
    ensures Streamable(s + [x]) ==> Streamable(s)
  {
    assert (s + [x])[..|s|] == s;
  }

  lemma Nothing(mode: Mode)
    ensures Out(mode, Parse("")) == "" && Held(mode, Parse("")) == 0 && !AtBlank(mode, Parse(""))
  {
    assert Parse("").lines[..0] == [];
  }

  lemma Advance(mode: Mode, s: string, x: char)
    requires Streamable(s + [x])
    ensures Streamable(s)
    ensures Parse(s + [x]) == Feed(Parse(s), x)
    ensures Parse(s).cr <==> Last(s) == '\r'
    ensures Parse(s).cr <==> x == '\n'
    ensures Held(mode, Parse(s)) > 0 ==> AtBlank(mode, Parse(s))
    ensures !Parse(s).cr && Parse(s).cur != [] ==> Last(s) == Last(Parse(s).cur)
    ensures !Parse(s).cr && Parse(s).cur == [] ==> !IsLwsp(Last(s))
    ensures IsLwsp(Last(s)) ==> Held(mode, Parse(s)) == 0
  {
    hide Parse, Pending, LineOut, Rebuilt;
    var t := s + [x];
    assert t[..|t| - 1] == s && t[|t| - 1] == x;
    ParseSnoc(s, x);
    ParseRebuilds(s);
    HeldIsBlank(mode, Parse(s));
  }

  /** LF: the line is complete, and is held back if it is blank. */
  lemma ReadLf(mode: Mode, s: string)
    requires Streamable(s + ['\n'])
    ensures var q, r := Parse(s), Parse(s + ['\n']);
            AtBlank(mode, r) && LineOut(mode, r.cur) == [] &&
            if AtBlank(mode, q)
            then Held(mode, r) == Held(mode, q) + 1 && Out(mode, r) == Out(mode, q)
            else Held(mode, q) == Held(mode, r) == 0 && Out(mode, r) == Out(mode, q) + CRLF
  {
    hide LineOut, Held, Out, Parse;
    Advance(mode, s, '\n');
    EmptyLine(mode);
    StepLf(mode, Parse(s));
  }

  /** CR: nothing more is known. */
  lemma ReadCr(mode: Mode, s: string)
    requires Streamable(s + ['\r'])
    ensures var q, r := Parse(s), Parse(s + ['\r']);
            Held(mode, r) == Held(mode, q) && Out(mode, r) == Out(mode, q) && r.cur == q.cur && r.lines == q.lines
  {
    hide LineOut, Held, Out, Parse;
    Advance(mode, s, '\r');
    StepCr(mode, Parse(s));
  }

  /** Any other byte releases the blank lines and adds what it adds to its line. */
  lemma ReadText(mode: Mode, s: string, x: char)
    requires Streamable(s + [x]) && x != '\r' && x != '\n'
    ensures var q, r := Parse(s), Parse(s + [x]);
            var delta := Added(mode, Last(s), x);
            Held(mode, r) == 0 && r.lines == q.lines
            && Out(mode, r) == Out(mode, q) + Crlfs(Held(mode, q)) + delta
            && LineOut(mode, r.cur) == LineOut(mode, q.cur) + delta
  {
    hide LineOut, Held, Out, Parse;
    Advance(mode, s, x);
    var q := Parse(s);
    assert Delta(mode, q.cur, x) == Added(mode, Last(s), x);
    StepText(mode, q, x, Delta(mode, q.cur, x));
  }

  lemma HeldIsBlank(mode: Mode, q: Pos)
    ensures Held(mode, q) > 0 ==> AtBlank(mode, q)
  {
  }

  function Added(mode: Mode, last: char, x: char): (delta: string) {
    if mode.Simple? then [x]
    else if IsLwsp(x) then []
    else if IsLwsp(last) then [' ', x]
    else [x]
  }

  // ---------- What the streaming code makes of a whole body ----------

  lemma {:induction false} SimpleOut(lines: seq<string>)
    requires lines != [] && forall line :: line in lines ==> CleanLine(line)
    ensures Emit(Simple, lines) == Unlines(lines)
    ensures Emit(Simple, lines[..|lines| - Pending(Simple, lines)]) == StripCrlfs(Unlines(lines)) + CRLF
  {
    var init, last := lines[..|lines| - 1], lines[|lines| - 1];
    assert lines == init + [last];
    var text := Unlines(init) + last;
    assert Unlines(lines) == text + CRLF;
    assert (text + CRLF)[..|text|] == text;
    assert StripCrlfs(text + CRLF) == StripCrlfs(text);
    if init == [] {
      assert lines[..1] == lines;
      LineKept([], last);
    } else {
      SimpleOut(init);
      if last == [] {
        assert text == Unlines(init);
        assert init[..|init| - Pending(Simple, init)] == lines[..|lines| - Pending(Simple, lines)];
      } else {
        assert lines[..|lines|] == lines;
        LineKept(Unlines(init), last);
      }
    }
  }

  lemma LineKept(before: string, line: string)
    requires CleanLine(line) && (line == [] ==> before == [])
    ensures StripCrlfs(before + line) == before + line
  {
    var s := before + line;
    if line != [] {
      assert s[|s| - 1] == line[|line| - 1];
      assert s[|s| - 1] in line;
    }
  }

  predicate Blank(line: string) {
    forall c :: c in line ==> IsLwsp(c)
  }

  lemma {:induction false} BlankOut(line: string)
    ensures LineOut(Relaxed, line) == [] <==> Blank(line)
  {
    if line != [] {
      var init, x := line[..|line| - 1], line[|line| - 1];
      assert line == init + [x];
      LineOutSnoc(init, x);
      BlankOut(init);
    }
  }

  /** There is a line of text; the line after it may hold white space, the others after it are exactly empty. */
  predicate TailOk(lines: seq<string>) {
    lines == [] ||
    exists i :: 0 <= i < |lines| && !Blank(lines[i]) && TailAfter(lines, i)
  }

  predicate TailAfter(lines: seq<string>, i: nat)
    requires i < |lines|
  {
    (i + 1 < |lines| ==> Blank(lines[i + 1])) && forall j :: i + 1 < j < |lines| ==> lines[j] == []
  }

  lemma {:induction false} HeldAtEnd(lines: seq<string>)
    ensures |DropTrailingEmpty(MapLines(Relaxed, lines))| == |lines| - Pending(Relaxed, lines) <==> TailOk(lines)
  {
    hide LineOut;
    EmptyLine(Relaxed);
    if lines != [] {
      var init, last := lines[..|lines| - 1], lines[|lines| - 1];
      var m := MapLines(Relaxed, lines);
      assert m[..|lines| - 1] == MapLines(Relaxed, init);
      BlankOut(last);
      HeldAtEnd(init);
      if !Blank(last) {
        assert TailAfter(lines, |lines| - 1);
      } else if init != [] {
        BlankOut(init[|init| - 1]);
        if last == [] {
          TailExtends(init);
          assert init + [[]] == lines;
        } else {
          assert MapLines(Relaxed, init)[|init| - 1] == LineOut(Relaxed, init[|init| - 1]);
          if !Blank(init[|init| - 1]) {
            assert !Blank(lines[|lines| - 2]) && TailAfter(lines, |lines| - 2);
          } else {
            NoTail(lines);
          }
        }
      }
    }
  }

  /** Two blank lines at the end, of which the last is not empty. */
  lemma NoTail(lines: seq<string>)
    requires |lines| >= 2 && Blank(lines[|lines| - 2]) && Blank(lines[|lines| - 1]) && lines[|lines| - 1] != []
    ensures !TailOk(lines)
  {
    hide Blank;
    forall i | 0 <= i < |lines| && !Blank(lines[i])
      ensures !TailAfter(lines, i)
    {
      assert i < |lines| - 2;
    }
  }

  lemma TailExtends(init: seq<string>)
    requires init != []
    ensures TailOk(init + [[]]) <==> TailOk(init)
  {
    var lines := init + [[]];
    if TailOk(init) {
      var i :| 0 <= i < |init| && !Blank(init[i]) && TailAfter(init, i);
      assert lines[i] == init[i] && TailAfter(lines, i);
    }
    if TailOk(lines) {
      var i :| 0 <= i < |lines| && !Blank(lines[i]) && TailAfter(lines, i);
      assert forall j :: 0 <= j < |init| ==> init[j] == lines[j];
      assert TailAfter(init, i);
    }
  }

  lemma {:induction false} EmitStrict(mode: Mode, lines: seq<string>, a: nat, b: nat)
    requires a < b <= |lines|
    ensures Emit(mode, lines[..a]) < Emit(mode, lines[..b])
  {
    hide LineOut;
    assert lines[..b][..b - 1] == lines[..b - 1];
    if a + 1 < b {
      EmitStrict(mode, lines, a, b - 1);
    }
  }

  /** The relaxed output of complete lines starts with the one section 3.4.4 asks for, and is this one exactly when
      the tail is well kept. */
  lemma RelaxedOut(lines: seq<string>)
    ensures var out := Emit(Relaxed, lines[..|lines| - Pending(Relaxed, lines)]);
            (out == RelaxedBody(lines) <==> TailOk(lines)) && RelaxedBody(lines) <= out
  {
    hide *;
    var kept := |DropTrailingEmpty(MapLines(Relaxed, lines))|;
    var e := |lines| - Pending(Relaxed, lines);
    HeldAtEnd(lines);
    KeptFewest(lines);
    RelaxedKept(lines, kept);
    if kept < e {
      EmitStrict(Relaxed, lines, kept, e);
    }
  }

  lemma RelaxedKept(lines: seq<string>, kept: nat)
    requires kept == |DropTrailingEmpty(MapLines(Relaxed, lines))| <= |lines|
    ensures RelaxedBody(lines) == Emit(Relaxed, lines[..kept])
  {
    hide LineOut, DropTrailingEmpty;
    var m := MapLines(Relaxed, lines);
    assert DropTrailingEmpty(m) <= m;
    assert DropTrailingEmpty(m) == m[..kept];
    assert m[..kept] == MapLines(Relaxed, lines[..kept]);
    EmitIsUnlines(Relaxed, lines[..kept]);
  }

  lemma {:induction false} KeptFewest(lines: seq<string>)
    ensures |DropTrailingEmpty(MapLines(Relaxed, lines))| <= |lines| - Pending(Relaxed, lines)
  {
    hide LineOut;
    if lines != [] {
      var init := lines[..|lines| - 1];
      EmptyLine(Relaxed);
      assert MapLines(Relaxed, lines)[..|lines| - 1] == MapLines(Relaxed, init);
      KeptFewest(init);
    }
  }

  /** Section 3.4.4 for any body; a last line without its line break keeps being without it. */
  function RelaxedText(q: Pos): (r: string) {
    if Blank(q.cur) then RelaxedBody(q.lines) else Unlines(MapLines(Relaxed, q.lines)) + LineOut(Relaxed, q.cur)
  }

  function Canonical(mode: Mode, body: string): (r: string) {
    if mode.Simple? then SimpleBody(body) else RelaxedText(Parse(body))
  }

  /** What the last lines must be like for the relaxed form to come out right. If the text ends in the middle of a
      line of text, it must not end in a CR; otherwise there is just the one line, or the end is as TailOk has it. */
  predicate TailKept(q: Pos) {
    if !Blank(q.cur) then !q.cr else q.lines == [] || TailOk(q.lines + [q.cur])
  }

  /** The simple output of any text: it lacks the last CRLF if the last line is not complete. */
  lemma WholeSimple(s: string)
    requires Streamable(s)
    ensures var q := Parse(s);
            SimpleBody(Complete(s)) == Out(Simple, q) + (if AtBlank(Simple, q) then "" else CRLF)
  {
    hide LineOut, Pending, Emit, StripCrlfs, Parse, Unlines, CleanLine;
    ParseRebuilds(s);
    var q := Parse(s);
    if q.cr {
      CompleteIsPaired(s);
      var lines := q.lines + [q.cur];
      assert Rebuilt(Feed(q, '\n')) == s + ['\n'] by { FeedRebuilds(q, '\n'); }
      assert Unlines(lines) + [] + "" == Unlines(lines);
      SimpleOut(lines);
      StepLf(Simple, q);
      OutBetween(Simple, Feed(q, '\n'));
    } else if q.cur == "" && q.lines != [] {
      assert s == Unlines(q.lines) + "" + "" == Unlines(q.lines);
      SimpleOut(q.lines);
      OutBetween(Simple, q);
    } else {
      UnendedLine(s);
    }
    LineOutSimple(q.cur);
    assert Out(Simple, q) + "" == Out(Simple, q);
  }

  lemma LineOutSimple(line: string)
    ensures LineOut(Simple, line) == line
  {
  }

  lemma OutBetween(mode: Mode, q: Pos)
    requires q.cur == ""
    ensures Out(mode, q) == Emit(mode, q.lines[..|q.lines| - Pending(mode, q.lines)])
  {
    EmptyLine(mode);
    var kept := Emit(mode, q.lines[..|q.lines| - Pending(mode, q.lines)]);
    assert kept + "" == kept;
  }

  lemma UnendedLine(s: string)
    requires Streamable(s) && !Parse(s).cr && (Parse(s).cur == "" ==> Parse(s).lines == [])
    ensures StripCrlfs(s) == s == Out(Simple, Parse(s))
  {
    hide StripCrlfs, Parse, Emit, CleanLine;
    ParseRebuilds(s);
    var q := Parse(s);
    assert s == Unlines(q.lines) + q.cur + "" == Unlines(q.lines) + q.cur;
    LineKept(Unlines(q.lines), q.cur);
    assert q.lines[..|q.lines|] == q.lines;
    if q.lines == [] {
      assert Emit(Simple, []) == "" by { EmitNothing(Simple); }
    } else {
      SimpleOut(q.lines);
    }
  }

  lemma EmitNothing(mode: Mode)
    ensures Emit(mode, []) == ""
  {
  }

  /** The relaxed output of any text: it lacks the last CRLF if the last line is one of text that ends in a CR, and
      else it starts with the form of section 3.4.4, and is this form exactly when the end is well kept. */
  lemma WholeRelaxed(s: string)
    requires Streamable(s)
    ensures var q, r := Parse(s), Canonical(Relaxed, Complete(s));
            if q.cr && !Blank(q.cur) then r == Out(Relaxed, q) + CRLF
            else r <= Out(Relaxed, q) && (r == Out(Relaxed, q) <==> TailKept(q))
    ensures AtBlank(Relaxed, Parse(s)) ==> Canonical(Relaxed, Complete(s)) <= Out(Relaxed, Parse(s))
  {
    hide LineOut, Pending, Emit, RelaxedBody, Parse, TailOk, Blank;
    var q := Parse(s);
    ParseRebuilds(s);
    CompleteIsPaired(s);
    BlankOut(q.cur);
    EmptyIsBlank();
    if !Blank(q.cur) {
      EmitIsUnlines(Relaxed, q.lines);
      assert q.lines[..|q.lines|] == q.lines;
      EmptyLine(Relaxed);
      if q.cr {
        TextLast(q.lines, q.cur);
      }
    } else {
      BlankLast(q);
    }
  }

  lemma EmptyIsBlank()
    ensures Blank("")
  {
  }

  lemma TextLast(lines: seq<string>, last: string)
    requires !Blank(last)
    ensures RelaxedBody(lines + [last]) == Emit(Relaxed, lines) + LineOut(Relaxed, last) + CRLF
  {
    hide LineOut, Emit, Unlines;
    BlankOut(last);
    var m := MapLines(Relaxed, lines + [last]);
    assert m[|m| - 1] == LineOut(Relaxed, last);
    EmitIsUnlines(Relaxed, lines + [last]);
    EmitSnoc(Relaxed, lines, last);
  }

  /** A text that ends in a blank line, whether this line is complete or not. */
  lemma BlankLast(q: Pos)
    requires Blank(q.cur)
    ensures var r := RelaxedBody(q.lines);
            r == RelaxedBody(q.lines + [q.cur]) && r <= Out(Relaxed, q) && (r == Out(Relaxed, q) <==> TailKept(q))
  {
    hide LineOut, Emit, Unlines, Pending, TailOk, Blank;
    var lines := q.lines + [q.cur];
    BlankOut(q.cur);
    BlankEnds(q.lines, q.cur);
    if q.lines == [] {
      OneBlank(q);
    } else {
      RelaxedOut(lines);
      StepLf(Relaxed, q);
      OutBetween(Relaxed, Feed(q, '\n'));
    }
  }

  lemma BlankEnds(lines: seq<string>, last: string)
    requires LineOut(Relaxed, last) == ""
    ensures RelaxedBody(lines) == RelaxedBody(lines + [last])
  {
    hide LineOut, Unlines;
    var m := MapLines(Relaxed, lines + [last]);
    assert m[|m| - 1] == "" && m[..|m| - 1] == MapLines(Relaxed, lines);
  }

  lemma OneBlank(q: Pos)
    requires q.lines == [] && LineOut(Relaxed, q.cur) == ""
    ensures RelaxedBody(q.lines) == "" == Out(Relaxed, q)
  {
    hide LineOut;
    assert q.lines[..0] == [] && MapLines(Relaxed, []) == [];
  }

  // ---------- Where output appears ----------

  predicate OnlyBreaks(s: string) {
    forall c :: c in s ==> c == '\r' || c == '\n'
  }

  /** Blank lines held back stay so as long as nothing but line breaks follows, and else they come out first. */
  lemma {:induction false} Released(mode: Mode, s: string, n: nat)
    requires n <= |s| && Streamable(s)
    ensures var a, b := Parse(s[..n]), Parse(s);
            if Held(mode, a) == 0 || !OnlyBreaks(s[n..])
            then Out(mode, a) + Crlfs(Held(mode, a)) <= Out(mode, b)
            else Out(mode, b) == Out(mode, a) && Held(mode, b) >= Held(mode, a)
  {
    hide Parse, Out, Held, LineOut, Crlfs, AtBlank, OnlyBreaks;
    var a := Parse(s[..n]);
    CrlfsSnoc(0);
    assert Out(mode, a) + "" == Out(mode, a);
    if n == |s| {
      assert s[..n] == s && s[n..] == "";
      NoBreaks();
    } else {
      var t, x := s[..|s| - 1], s[|s| - 1];
      assert s == t + [x] && t[..n] == s[..n] && s[n..] == t[n..] + [x];
      Advance(mode, t, x);
      Released(mode, t, n);
      OutGrows(mode, t, x);
      OneMore(t[n..], x);
      if Held(mode, a) > 0 && OnlyBreaks(t[n..]) {
        if x == '\n' {
          ReadLf(mode, t);
        } else if x == '\r' {
          ReadCr(mode, t);
        } else {
          ReadText(mode, t, x);
          CrlfsPrefix(Held(mode, a), Held(mode, Parse(t)));
        }
      }
    }
  }

  lemma NoBreaks()
    ensures OnlyBreaks("")
  {
  }

  lemma OneMore(s: string, x: char)
    ensures OnlyBreaks(s + [x]) <==> OnlyBreaks(s) && (x == '\r' || x == '\n')
  {
    if OnlyBreaks(s + [x]) {
      assert forall c :: c in s ==> c in s + [x];
      assert x in s + [x];
    }
  }

  lemma CrlfsPrefix(m: nat, n: nat)
    requires m <= n
    ensures Crlfs(m) <= Crlfs(n)
  {
    if m < n {
      CrlfsPrefix(m, n - 1);
    }
  }

  lemma CrlfsFirst(n: nat)
    requires n > 0
    ensures CRLF <= Crlfs(n)
  {
    CrlfsPrefix(1, n);
    assert Crlfs(1) == Crlfs(0) + CRLF == CRLF;
  }

  /** After a CR the next thing to come out, if anything does, is a CRLF. */
  lemma AfterReturn(mode: Mode, s: string, n: nat)
    requires Streamable(s) && 0 < n < |s| && s[n - 1] == '\r'
    ensures var a, b := Out(mode, Parse(s[..n])), Out(mode, Parse(s)); b == a || a + CRLF <= b
  {
    hide *;
    StreamablePrefix(s, n + 1);
    Prefixes(s, n);
    AfterLf(mode, s[..n], s);
  }

  lemma Prefixes(s: string, n: nat)
    requires 0 < n < |s| && Streamable(s[..n + 1]) && s[n - 1] == '\r'
    ensures Streamable(s[..n] + ['\n']) && s[..n] + ['\n'] <= s
  {
    var t := s[..n + 1];
    assert t == s[..n] + [s[n]] && t[..n] == s[..n];
    assert Last(s[..n]) == '\r';
  }

  lemma AfterLf(mode: Mode, t: string, s: string)
    requires Streamable(t + ['\n']) && Streamable(s) && t + ['\n'] <= s
    ensures var a, b := Out(mode, Parse(t)), Out(mode, Parse(s)); b == a || a + CRLF <= b
  {
    hide *;
    var u := t + ['\n'];
    assert s[..|u|] == u;
    ReadLf(mode, t);
    Released(mode, s, |u|);
    var h := Held(mode, Parse(u));
    if h > 0 {
      CrlfsFirst(h);
    } else {
      OutMonotone(mode, s, |u|);
    }
  }

  /** Once the limit is reached, later output does not matter. */
  lemma CutPrefix(limit: int, a: string, b: string)
    requires a <= b && 0 <= limit <= |a|
    ensures Cut(limit, a) == Cut(limit, b)
  {
  }
}
