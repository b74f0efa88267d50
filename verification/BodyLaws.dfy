/** The canonical forms of sections 3.4.3 and 3.4.4 of RFC 4871 by their bytes, for any body taken apart into lines, and any
    line into words. */
module BodyLaws {
  import opened Text
  import opened Spacing
  import opened BodySpec
  import opened CrlfRepair

  const BLANKS: char -> bool := (c: char) => BlankByte(c)

  lemma OnlyBlanks(s: string)
    ensures Only(BLANKS, s) <==> BodySpec.Blank(s)
    ensures Free(BLANKS, s) <==> forall c :: c in s ==> !IsLwsp(c)
  {
    forall c
      ensures BLANKS(c) <==> IsLwsp(c)
    {
      SpaceIs(c);
    }
  }

  // ---------- One line, relaxed ----------

  lemma {:induction false} CollapseWord(w: string, rest: string)
    requires forall c :: c in w ==> !IsLwsp(c)
    ensures Collapse(w + rest) == w + Collapse(rest)
  {
    hide IsLwsp, Collapse;
    if w == "" {
      assert w + rest == rest && "" + Collapse(rest) == Collapse(rest);
    } else {
      assert w[0] in w && forall c :: c in w[1..] ==> c in w;
      assert w + rest == [w[0]] + (w[1..] + rest) && w == [w[0]] + w[1..];
      CollapseWord(w[1..], rest);
      CollapseText(w[0], w[1..] + rest);
      Associative([w[0]], w[1..], Collapse(rest));
    }
  }

  lemma CollapseGap(g: string, rest: string)
    requires g != "" && BodySpec.Blank(g) && (rest != "" ==> !IsLwsp(rest[0]))
    ensures Collapse(g + rest) == " " + Collapse(rest)
  {
    hide Collapse, IsLwsp;
    assert g[0] in g;
    CollapseBlank(g + rest);
    DropGap(g, rest);
  }

  lemma {:induction false} DropGap(g: string, rest: string)
    requires BodySpec.Blank(g) && (rest != "" ==> !IsLwsp(rest[0]))
    ensures DropLwsp(g + rest) == rest
  {
    if g == "" {
      assert g + rest == rest;
    } else {
      assert g[0] in g && forall c :: c in g[1..] ==> c in g;
      assert (g + rest)[1..] == g[1..] + rest;
      DropGap(g[1..], rest);
    }
  }

  /** The last gap goes. */
  lemma {:induction false} StripGap(text: string, g: string)
    requires BodySpec.Blank(g) && (text != "" ==> !IsLwsp(text[|text| - 1]))
    ensures StripRight(text + g) == text
  {
    var t := text + g;
    if g == "" {
      assert t == text;
    } else {
      assert g[|g| - 1] in g && forall c :: c in g[..|g| - 1] ==> c in g;
      assert t[..|t| - 1] == text + g[..|g| - 1] && t[|t| - 1] == g[|g| - 1];
      StripGap(text, g[..|g| - 1]);
    }
  }

  /** All words, with all gaps but the last. */
  function Inside(words: seq<string>, gaps: seq<string>): (s: string) {
    if words == [] || gaps == [] then "" else if |words| == 1 then words[0] else words[0] + gaps[0] + Inside(words[1..], gaps[1..])
  }

  lemma {:induction false} InsideOut(words: seq<string>, gaps: seq<string>)
    requires Parted(BLANKS, words, gaps) && words != []
    ensures var s, n := Inside(words, gaps), |gaps| - 1;
            && Spread(words, gaps) == s + gaps[n] && BodySpec.Blank(gaps[n])
            && s != "" && !IsLwsp(s[0]) && !IsLwsp(s[|s| - 1]) && Collapse(s) == Joined(words, ' ')
    decreases |words|
  {
    hide Collapse, IsLwsp, BLANKS;
    PartedRest(BLANKS, words, gaps);
    OnlyBlanks(words[0]);
    OnlyBlanks(gaps[0]);
    assert words[0][0] in words[0] && words[0][|words[0]| - 1] in words[0];
    if |words| == 1 {
      assert words[1..] == [] && words[0] + gaps[0] + "" == words[0] + gaps[0];
      assert words[0] + "" == words[0];
      CollapseWord(words[0], "");
      CollapseNothing();
    } else {
      InsideOut(words[1..], gaps[1..]);
      var s := Inside(words[1..], gaps[1..]);
      Associative(words[0] + gaps[0], s, gaps[|gaps| - 1]);
      Associative(words[0], gaps[0], s);
      CollapseWord(words[0], gaps[0] + s);
      CollapseGap(gaps[0], s);
      Associative(words[0], " ", Joined(words[1..], ' '));
      assert [' '] == " ";
    }
  }

  /** A line is words with gaps between them, of bytes 9, 11, 12 and 32. Its relaxed form is the words with one space between
      any two, and one in front of them if the line starts with a gap. */
  lemma LineIs(first: string, words: seq<string>, gaps: seq<string>)
    requires Only(BLANKS, first) && Parted(BLANKS, words, gaps)
    ensures LineOut(Relaxed, first + Spread(words, gaps))
         == if words == [] then "" else (if first == "" then "" else " ") + Joined(words, ' ')
  {
    hide Collapse, IsLwsp, BLANKS, StripRight, Spread, Inside, Only, Free;
    OnlyBlanks(first);
    if words == [] {
      assert Spread(words, gaps) == "" by { SpreadNone(gaps); }
      StripGap("", first);
      assert "" + first == first == first + "";
      CollapseNothing();
    } else {
      InsideOut(words, gaps);
      var s, g := Inside(words, gaps), gaps[|gaps| - 1];
      Associative(first, s, g);
      assert (first + s)[|first + s| - 1] == s[|s| - 1];
      StripGap(first + s, g);
      if first == "" {
        assert first + s == s && "" + Joined(words, ' ') == Joined(words, ' ');
      } else {
        CollapseGap(first, s);
      }
    }
  }

  lemma SpreadNone(gaps: seq<string>)
    ensures Spread([], gaps) == ""
  {
  }

  // ---------- A body of lines ----------

  /** The text of these lines, each ended by bytes 13 and 10. */
  function Written(lines: seq<string>): (s: string) {
    if lines == [] then "" else lines[0] + "\r\n" + Written(lines[1..])
  }

  lemma {:induction false} WrittenSnoc(lines: seq<string>, line: string)
    ensures Written(lines + [line]) == Written(lines) + line + "\r\n"
  {
    if lines == [] {
      assert [] + [line] == [line] && [line][1..] == [];
      assert line + "\r\n" + "" == "" + line + "\r\n";
    } else {
      assert (lines + [line])[1..] == lines[1..] + [line];
      WrittenSnoc(lines[1..], line);
      assert lines[0] + "\r\n" + (Written(lines[1..]) + line + "\r\n") == lines[0] + "\r\n" + Written(lines[1..]) + line + "\r\n";
    }
  }

  lemma {:induction false} UnlinesIs(lines: seq<string>)
    ensures Unlines(lines) == Written(lines)
  {
    if lines != [] {
      var n := |lines| - 1;
      UnlinesIs(lines[..n]);
      assert lines == lines[..n] + [lines[n]];
      WrittenSnoc(lines[..n], lines[n]);
    }
  }

  predicate NoBreaks(line: string) {
    forall c :: c in line ==> c as int != 13 && c as int != 10
  }

  /** Reading such a text gives these lines. */
  lemma {:induction false} ReadWritten(lines: seq<string>)
    requires forall line :: line in lines ==> NoBreaks(line)
    ensures Parse(Written(lines)) == Pos(lines, "", false)
  {
    hide Parse;
    if lines == [] {
      ParseStart();
    } else {
      var n := |lines| - 1;
      var before, line := Written(lines[..n]), lines[n];
      assert lines == lines[..n] + [line] && forall l :: l in lines[..n] ==> l in lines;
      ReadWritten(lines[..n]);
      WrittenSnoc(lines[..n], line);
      assert line in lines;
      ReadLine(before, line);
      ParseSnoc(before + line, '\r');
      ParseSnoc(before + line + ['\r'], '\n');
      assert before + line + "\r\n" == before + line + ['\r'] + ['\n'];
    }
  }

  lemma ParseStart()
    ensures Parse("") == Pos([], "", false)
  {
  }

  lemma {:induction false} ReadLine(before: string, line: string)
    requires NoBreaks(line) && Parse(before).cur == "" && !Parse(before).cr
    ensures Parse(before + line) == Pos(Parse(before).lines, line, false)
  {
    hide Parse;
    if line == "" {
      assert before + line == before;
    } else {
      var init, x := line[..|line| - 1], line[|line| - 1];
      assert line == init + [x] && x in line && forall c :: c in init ==> c in line;
      ReadLine(before, init);
      ParseSnoc(before + init, x);
      Associative(before, init, [x]);
    }
  }

  function Outs(lines: seq<string>): (r: seq<string>)
    ensures |r| == |lines| && forall i :: 0 <= i < |lines| ==> r[i] == LineOut(Relaxed, lines[i])
  {
    MapLines(Relaxed, lines)
  }

  /** The relaxed form of a body: the relaxed forms of its lines, up to the last that is not empty, each with its line
      break. */
  lemma RelaxedBodyIs(lines: seq<string>, n: nat)
    requires forall line :: line in lines ==> NoBreaks(line)
    requires n <= |lines| && (n > 0 ==> LineOut(Relaxed, lines[n - 1]) != "")
    requires forall i :: n <= i < |lines| ==> LineOut(Relaxed, lines[i]) == ""
    ensures Canonical(Relaxed, Written(lines)) == Written(Outs(lines)[..n])
  {
    hide LineOut, DropTrailingEmpty;
    ReadWritten(lines);
    DropIs(Outs(lines), n);
    UnlinesIs(Outs(lines)[..n]);
  }

  /** A body whose last line has no line break: this line counts if its relaxed form is not empty. */
  lemma UnendedIs(lines: seq<string>, last: string)
    requires NoBreaks(last) && forall line :: line in lines ==> NoBreaks(line)
    ensures Canonical(Relaxed, Written(lines) + last)
         == if LineOut(Relaxed, last) == "" then Canonical(Relaxed, Written(lines))
            else Written(Outs(lines)) + LineOut(Relaxed, last)
  {
    hide LineOut, RelaxedBody, Parse, BodySpec.Blank, Written;
    ReadWritten(lines);
    ReadLine(Written(lines), last);
    BlankOut(last);
    BlankOut("");
    EmptyIsBlank();
    UnlinesIs(Outs(lines));
  }

  lemma {:induction false} DropIs(m: seq<string>, n: nat)
    requires n <= |m| && (n > 0 ==> m[n - 1] != "") && forall i :: n <= i < |m| ==> m[i] == ""
    ensures DropTrailingEmpty(m) == m[..n]
  {
    if n < |m| {
      DropIs(m[..|m| - 1], n);
      assert m[..|m| - 1][..n] == m[..n];
    } else {
      assert m[..n] == m;
    }
  }

  /** The simple form of a body: its trailing line breaks, if any, become one. */
  lemma {:induction false} SimpleBodyIs(text: string, breaks: nat)
    requires !(|text| >= 2 && text[|text| - 2] as int == 13 && text[|text| - 1] as int == 10)
    ensures SimpleBody(text + Written(seq(breaks, i => ""))) == text + "\r\n"
    decreases breaks
  {
    var w := Written(seq(breaks, i => ""));
    StripBreaks(text, breaks);
    assert StripCrlfs(text + w) == text;
  }

  lemma {:induction false} StripBreaks(text: string, breaks: nat)
    requires !(|text| >= 2 && text[|text| - 2] as int == 13 && text[|text| - 1] as int == 10)
    ensures StripCrlfs(text + Written(seq(breaks, i => ""))) == text
  {
    hide Written;
    var empties := seq(breaks, i => "");
    if breaks == 0 {
      assert empties == [] && text + "" == text;
      assert Written([]) == "" by { WrittenNone(); }
      if |text| >= 2 {
        var end := text[|text| - 2..];
        assert end[0] == text[|text| - 2] && end[1] == text[|text| - 1];
      }
    } else {
      var fewer := seq(breaks - 1, i => "");
      assert empties == fewer + [""];
      WrittenSnoc(fewer, "");
      var t := text + Written(empties);
      assert t == text + Written(fewer) + CRLF;
      assert t[..|t| - 2] == text + Written(fewer) && t[|t| - 2..] == CRLF;
      StripBreaks(text, breaks - 1);
    }
  }

  lemma WrittenNone()
    ensures Written([]) == ""
  {
  }

  /** A limit keeps that many bytes, or all there are. */
  lemma CutIs(limit: int, s: string)
    requires limit >= -1
    ensures Cut(limit, s) <= s
    ensures |Cut(limit, s)| == if limit == -1 || |s| <= limit then |s| else limit
  {
  }

  // ---------- The repair ----------

  /** A line that ends in CRLF, in LF or in CR comes out with CRLF, and what follows is repaired on its own. */
  lemma {:induction false} RepairIs(line: string, rest: string)
    requires NoBreaks(line)
    ensures Repair(line) == line
    ensures Repair(line + "\r\n" + rest) == line + "\r\n" + Repair(rest)
    ensures Repair(line + "\n" + rest) == line + "\r\n" + Repair(rest)
    ensures (rest != "" ==> rest[0] as int != 10) ==> Repair(line + "\r" + rest) == line + "\r\n" + Repair(rest)
  {
    hide Repair;
    if line == "" {
      RepairNothing();
      RepairEnd(rest);
      assert "" + "\r\n" == "\r\n" && "" + "\n" == "\n" && "" + "\r" == "\r";
    } else {
      var x, l := line[0], line[1..];
      assert line == [x] + l && x in line && forall c :: c in l ==> c in line;
      RepairIs(l, rest);
      RepairStep(x, l);
      RepairOn(x, l, "\r\n", rest);
      RepairOn(x, l, "\n", rest);
      RepairOn(x, l, "\r", rest);
      assert [x] + (l + "\r\n" + Repair(rest)) == line + "\r\n" + Repair(rest);
    }
  }

  lemma RepairEnd(rest: string)
    ensures Repair("\r\n" + rest) == "\r\n" + Repair(rest) && Repair("\n" + rest) == "\r\n" + Repair(rest)
    ensures (rest != "" ==> rest[0] as int != 10) ==> Repair("\r" + rest) == "\r\n" + Repair(rest)
  {
    hide Repair;
    RepairStep('\r', ['\n'] + rest);
    assert (['\n'] + rest)[1..] == rest && "\r\n" + rest == ['\r'] + (['\n'] + rest);
    RepairStep('\n', rest);
    RepairStep('\r', rest);
  }

  lemma RepairOn(x: char, l: string, end: string, rest: string)
    requires x as int != 13 && x as int != 10
    ensures Repair([x] + l + end + rest) == [x] + Repair(l + end + rest)
  {
    hide Repair;
    assert [x] + l + end + rest == [x] + (l + end + rest);
    RepairStep(x, l + end + rest);
  }
}
