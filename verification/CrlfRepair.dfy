/** dkim_canon_fixcrlf: bare CRs and LFs become CRLF, one chunk at a time. */
module CrlfRepair {
  import opened Text
  import opened BodySpec

  /** What one byte turns into, given its neighbours; `more` tells whether `next` exists in this chunk. */
  function FixByte(prev: char, x: char, more: bool, next: char): (r: string) {
    if x == '\n' && prev != '\r' then CRLF
    else if x == '\r' && more && next != '\n' then CRLF
    else [x]
  }

  function FixFrom(prev: char, buf: string): (r: string)
    decreases |buf|
  {
    if buf == [] then []
    else FixByte(prev, buf[0], |buf| > 1, if |buf| > 1 then buf[1] else '\0') + FixFrom(buf[0], buf[1..])
  }

  lemma FixByteIs(prev: char, x: char, more: bool, next: char)
    ensures FixByte(prev, x, more, next) ==
            if (x == '\n' && prev != '\r') || (x == '\r' && more && next != '\n') then CRLF else [x]
  {
  }

  /** What the byte at p turns into. */
  function FixAt(prev: char, buf: string, p: nat): (r: string)
    requires p < |buf|
  {
    if (buf[p] == '\n' && prev != '\r') || (buf[p] == '\r' && p < |buf| - 1 && buf[p + 1] != '\n') then CRLF else [buf[p]]
  }

  lemma FixNext(prev: char, buf: string, p: nat)
    requires p < |buf|
    ensures FixFrom(prev, buf[p..]) == FixAt(prev, buf, p) + FixFrom(buf[p], buf[p + 1..])
  {
    var rest := buf[p..];
    assert rest[0] == buf[p] && rest[1..] == buf[p + 1..] && (|rest| > 1 ==> rest[1] == buf[p + 1]);
    FixByteIs(prev, buf[p], |rest| > 1, if |rest| > 1 then rest[1] else '\0');
  }

  method FixChunk(lastchar: char, buf: string) returns (out: string)
    ensures out == FixFrom(lastchar, buf)
  {
    hide FixByte, FixFrom;
    out := [];
    var prev := lastchar;
    var p := 0;
    assert buf[0..] == buf && out + FixFrom(prev, buf) == FixFrom(prev, buf);
    while p < |buf|
      invariant p <= |buf| && prev == if p == 0 then lastchar else buf[p - 1]
      invariant out + FixFrom(prev, buf[p..]) == FixFrom(lastchar, buf)
    {
      FixNext(prev, buf, p);
      Associative(out, FixAt(prev, buf, p), FixFrom(buf[p], buf[p + 1..]));
      if buf[p] == '\n' && prev != '\r' {
        out := out + CRLF;
      } else if buf[p] == '\r' {
        if p < |buf| - 1 && buf[p + 1] != '\n' {
          out := out + CRLF;
        } else {
          out := out + [buf[p]];
        }
      } else {
        out := out + [buf[p]];
      }
      prev := buf[p];
      p := p + 1;
    }
    assert buf[p..] == [];
    EmptyFix(prev);
    assert out + [] == out;
  }

  /** Where every CR and LF already belongs to a CRLF there is nothing to repair. */
  lemma {:induction false} FixKeeps(seen: string, buf: string)
    requires Streamable(seen + buf)
    ensures FixFrom(Last(seen), buf) == buf
    decreases |buf|
  {
    if buf != "" {
      var s := seen + [buf[0]];
      assert seen + buf == s + buf[1..];
      assert (seen + buf)[..|s|] == s;
      StreamablePrefix(seen + buf, |s|);
      assert s[..|seen|] == seen;
      if |buf| > 1 {
        var t := s + [buf[1]];
        assert (seen + buf)[..|t|] == t;
        StreamablePrefix(seen + buf, |t|);
        assert t[..|s|] == s;
      }
      FixKeeps(s, buf[1..]);
    }
  }

  // ---------- The repair of a whole string, and of its chunks ----------

  /** Every bare CR and bare LF becomes CRLF; existing pairs are kept. */
  function Repair(s: string): (r: string) {
    if s == "" then ""
    else if s[0] == '\r' then CRLF + Repair(if |s| > 1 && s[1] == '\n' then s[2..] else s[1..])
    else if s[0] == '\n' then CRLF + Repair(s[1..])
    else [s[0]] + Repair(s[1..])
  }

  lemma {:induction false} RepairTwice(s: string)
    ensures Repair(Repair(s)) == Repair(s)
    decreases |s|
  {
    if s != "" {
      var rest := if s[0] == '\r' && |s| > 1 && s[1] == '\n' then s[2..] else s[1..];
      RepairTwice(rest);
      var r := Repair(s);
      if s[0] == '\r' || s[0] == '\n' {
        assert r == CRLF + Repair(rest) && r[2..] == Repair(rest);
      } else {
        assert r == [s[0]] + Repair(rest) && r[1..] == Repair(rest);
      }
    }
  }

  /** The repairs of the chunks, each told the last byte before it. */
  function FixRun(prev: char, chunks: seq<string>): (r: string)
    decreases |chunks|
  {
    if chunks == [] then ""
    else FixFrom(prev, chunks[0]) + FixRun(if chunks[0] == "" then prev else Last(chunks[0]), chunks[1..])
  }

  /** How many cuts (the end counts as one) come right after a bare CR; prev is the byte before the first chunk. */
  function BareCuts(prev: char, chunks: seq<string>): (n: nat)
    decreases |chunks|
  {
    if chunks == [] then (if prev == '\r' then 1 else 0)
    else if chunks[0] == "" then BareCuts(prev, chunks[1..])
    else (if prev == '\r' && chunks[0][0] != '\n' then 1 else 0) + BareCuts(Last(chunks[0]), chunks[1..])
  }

  /** What is still to be written after a prefix that ended in prev, a CR having been written without its LF. */
  function Resume(prev: char, s: string): (r: string)
    decreases |s|
  {
    (if prev == '\r' && (s == "" || s[0] != '\n') then "\n" else "")
    + (if s == "" then ""
       else (if s[0] == '\n' && prev != '\r' then CRLF else [s[0]]) + Resume(s[0], s[1..]))
  }

  function Owed(prev: char, s: string): (r: string) {
    if prev == '\r' && (s == "" || s[0] != '\n') then "\n" else ""
  }

  function Written(prev: char, x: char): (r: string) {
    if x == '\n' && prev != '\r' then CRLF else [x]
  }

  lemma ResumeStep(prev: char, x: char, t: string)
    ensures Resume(prev, [x] + t) == Owed(prev, [x] + t) + (Written(prev, x) + Resume(x, t))
  {
    assert ([x] + t)[1..] == t;
  }

  lemma {:induction false} ResumeIsRepair(prev: char, s: string)
    ensures Resume(prev, s) == if prev != '\r' then Repair(s)
                               else "\n" + Repair(if s != "" && s[0] == '\n' then s[1..] else s)
    decreases |s|
  {
    hide Resume, Repair;
    if s == "" {
      ResumeNothing(prev);
    } else {
      var x, t := s[0], s[1..];
      assert s == [x] + t;
      ResumeStep(prev, x, t);
      RepairStep(x, t);
      ResumeIsRepair(x, t);
      if x == '\r' {
        var rest := if t != "" && t[0] == '\n' then t[1..] else t;
        Associative(Written(prev, x), "\n", Repair(rest));
        assert Written(prev, x) + "\n" == CRLF;
      }
      var r := Written(prev, x) + Resume(x, t);
      assert "" + r == r;
      if prev == '\r' && x == '\n' {
        assert Written(prev, x) == "\n";
      }
    }
  }

  lemma RepairStep(x: char, t: string)
    ensures Repair([x] + t) == if x == '\r' then CRLF + Repair(if t != "" && t[0] == '\n' then t[1..] else t)
                               else (if x == '\n' then CRLF else [x]) + Repair(t)
  {
    var s := [x] + t;
    assert s[1..] == t && (t != "" ==> s[1] == t[0] && s[2..] == t[1..]);
  }

  lemma ResumeNothing(prev: char)
    ensures Resume(prev, "") == (if prev == '\r' then "\n" + Repair("") else Repair(""))
  {
  }

  lemma FixStep(prev: char, x: char, t: string)
    ensures FixFrom(prev, [x] + t) == Written(prev, x) + (if t == "" then "" else Owed(x, t)) + FixFrom(x, t)
  {
    var s := [x] + t;
    assert s[1..] == t && (t != "" ==> s[1] == t[0]);
    FixByteIs(prev, x, t != "", if t != "" then t[0] else '\0');
    assert "\r" + "\n" == CRLF;
    assert Written(prev, x) + "" == Written(prev, x);
  }

  lemma {:induction false} ResumeChunk(prev: char, chunk: string, rest: string)
    requires chunk != ""
    ensures Resume(prev, chunk + rest) == Owed(prev, chunk) + (FixFrom(prev, chunk) + Resume(Last(chunk), rest))
    decreases |chunk|
  {
    hide Resume, FixFrom, Owed, Written;
    var x, t := chunk[0], chunk[1..];
    assert chunk == [x] + t && chunk + rest == [x] + (t + rest);
    ResumeStep(prev, x, t + rest);
    FixStep(prev, x, t);
    OwedHead(prev, x, t, rest);
    if t == "" {
      assert t + rest == rest;
      assert FixFrom(prev, chunk) == Written(prev, x) by {
        EmptyFix(x);
        assert Written(prev, x) + "" + "" == Written(prev, x);
      }
    } else {
      ResumeChunk(x, t, rest);
      calc {
        Written(prev, x) + Resume(x, t + rest);
        Written(prev, x) + (Owed(x, t) + (FixFrom(x, t) + Resume(Last(t), rest)));
        Written(prev, x) + Owed(x, t) + FixFrom(x, t) + Resume(Last(t), rest);
        FixFrom(prev, chunk) + Resume(Last(chunk), rest);
      }
    }
  }

  lemma EmptyFix(x: char)
    ensures FixFrom(x, "") == ""
  {
  }

  lemma OwedHead(prev: char, x: char, t: string, rest: string)
    ensures Owed(prev, [x] + t) == Owed(prev, [x] + (t + rest))
  {
  }

  lemma {:induction false} RunResumes(prev: char, chunks: seq<string>)
    ensures |FixRun(prev, chunks)| + BareCuts(prev, chunks) == |Resume(prev, Concat(chunks))|
    ensures BareCuts(prev, chunks) == 0 ==> FixRun(prev, chunks) == Resume(prev, Concat(chunks))
    decreases |chunks|
  {
    hide FixFrom, Resume, Concat;
    if chunks == [] {
      NothingResumes(prev);
    } else {
      EmptyFix(prev);
      ConcatCons(chunks);
      var rest := chunks[1..];
      if chunks[0] == "" {
        RunResumes(prev, rest);
        assert "" + Concat(rest) == Concat(rest) && "" + FixRun(prev, rest) == FixRun(prev, rest);
      } else {
        RunResumes(Last(chunks[0]), rest);
        ResumeChunk(prev, chunks[0], Concat(rest));
        assert "" + (FixFrom(prev, chunks[0]) + Resume(Last(chunks[0]), Concat(rest)))
            == FixFrom(prev, chunks[0]) + Resume(Last(chunks[0]), Concat(rest));
      }
    }
  }

  /** Repairing chunk by chunk repairs the whole string exactly when no cut comes right after a bare CR. */
  lemma FixRunRepairs(chunks: seq<string>)
    ensures FixRun('\0', chunks) == Repair(Concat(chunks)) <==> BareCuts('\0', chunks) == 0
  {
    RunResumes('\0', chunks);
    ResumeIsRepair('\0', Concat(chunks));
  }

  lemma NothingResumes(prev: char)
    ensures Resume(prev, Concat([])) == if prev == '\r' then "\n" else ""
  {
  }

  // ---------- What dkim_canon_bodychunk makes of it ----------

  /** What the automaton reads of a chunk: with the repair, a CR that the chunk before ended in gets its LF first. */
  function Piece(fix: bool, prev: char, chunk: string): (r: string) {
    if !fix then chunk else if chunk == "" then "" else Owed(prev, chunk) + FixFrom(prev, chunk)
  }

  function Stream(fix: bool, chunks: seq<string>): (r: string) {
    if chunks == [] then ""
    else
      var before := Stream(fix, chunks[..|chunks| - 1]);
      before + Piece(fix, Last(before), chunks[|chunks| - 1])
  }

  lemma StreamNothing(fix: bool)
    ensures Stream(fix, []) == ""
  {
  }

  lemma StreamTake(fix: bool, chunks: seq<string>, i: nat)
    requires i < |chunks|
    ensures Stream(fix, chunks[..i + 1]) ==
            Stream(fix, chunks[..i]) + Piece(fix, Last(Stream(fix, chunks[..i])), chunks[i])
  {
    assert chunks[..i + 1][..i] == chunks[..i];
  }

  lemma {:induction false} StreamPrefix(fix: bool, chunks: seq<string>, i: nat)
    requires i <= |chunks|
    ensures Stream(fix, chunks[..i]) <= Stream(fix, chunks)
    decreases |chunks| - i
  {
    if i == |chunks| {
      assert chunks[..i] == chunks;
    } else {
      StreamTake(fix, chunks, i);
      StreamPrefix(fix, chunks, i + 1);
    }
  }

  lemma {:induction false} StreamPlain(chunks: seq<string>)
    ensures Stream(false, chunks) == Concat(chunks)
  {
    if chunks != [] {
      StreamPlain(chunks[..|chunks| - 1]);
    }
  }

  lemma FixFirst(prev: char, x: char, t: string)
    ensures FixFrom(prev, [x] + t) ==
            FixByte(prev, x, t != "", if t != "" then t[0] else '\0') + FixFrom(x, t)
  {
    assert ([x] + t)[1..] == t;
  }

  /** The repair of a chunk leaves no bare LF, and a bare CR only at its end. */
  lemma {:induction false} FixStreams(s: string, prev: char, buf: string)
    requires Streamable(s) && (buf != "" ==> (Last(s) == '\r' <==> prev == '\r' && buf[0] == '\n'))
    ensures Streamable(s + FixFrom(prev, buf)) && (buf != "" ==> Last(s + FixFrom(prev, buf)) == Last(buf))
    decreases |buf|
  {
    hide FixFrom, FixByte, Streamable;
    if buf == "" {
      EmptyFix(prev);
      assert s + "" == s;
    } else {
      var x, t := buf[0], buf[1..];
      var next := if t != "" then t[0] else '\0';
      assert buf == [x] + t;
      FixFirst(prev, x, t);
      FixByteIs(prev, x, t != "", next);
      var s' := s + FixByte(prev, x, t != "", next);
      StreamsOn(s, x, prev == '\r', t != "" && next != '\n');
      FixStreams(s', x, t);
      Associative(s, FixByte(prev, x, t != "", next), FixFrom(x, t));
      if t == "" {
        EmptyFix(x);
        assert s' + "" == s';
      }
    }
  }

  lemma StreamsOn(s: string, x: char, paired: bool, lone: bool)
    requires Streamable(s) && (Last(s) == '\r' <==> paired && x == '\n')
    ensures var s' := s + if (x == '\n' && !paired) || (x == '\r' && lone) then CRLF else [x];
            Streamable(s') && Last(s') == if x == '\r' && lone then '\n' else x
  {
    hide Streamable, Last;
    if (x == '\n' && !paired) || (x == '\r' && lone) {
      StreamSnoc(s, '\r');
      StreamSnoc(s + ['\r'], '\n');
      assert s + CRLF == s + ['\r'] + ['\n'];
    } else {
      StreamSnoc(s, x);
    }
  }

  lemma StreamSnoc(s: string, x: char)
    requires Streamable(s) && (x == '\n' <==> Last(s) == '\r')
    ensures Streamable(s + [x]) && Last(s + [x]) == x
  {
    assert (s + [x])[..|s|] == s;
  }

  lemma PieceStreams(s: string, chunk: string)
    requires Streamable(s)
    ensures var t := s + Piece(true, Last(s), chunk);
            Streamable(t) && Last(t) == if chunk == "" then Last(s) else Last(chunk)
  {
    hide FixFrom, Streamable, Last;
    var prev := Last(s);
    if chunk == "" {
      assert s + "" == s;
    } else if Owed(prev, chunk) == "\n" {
      StreamSnoc(s, '\n');
      FixStreams(s + ['\n'], prev, chunk);
      Associative(s, "\n", FixFrom(prev, chunk));
    } else {
      FixStreams(s, prev, chunk);
      assert "" + FixFrom(prev, chunk) == FixFrom(prev, chunk);
    }
  }

  lemma {:induction false} StreamStreams(chunks: seq<string>)
    ensures Streamable(Stream(true, chunks))
  {
    if chunks != [] {
      var init := chunks[..|chunks| - 1];
      StreamStreams(init);
      PieceStreams(Stream(true, init), chunks[|chunks| - 1]);
    }
  }

  lemma {:induction false} StreamResumes(chunks: seq<string>, rest: string)
    ensures Resume('\0', Concat(chunks) + rest) == Stream(true, chunks) + Resume(Last(Stream(true, chunks)), rest)
  {
    hide Resume, FixFrom, Owed, Last;
    if chunks == [] {
      assert Concat(chunks) + rest == rest && "" + Resume('\0', rest) == Resume('\0', rest);
      assert Last("") == '\0' by { NoLast(); }
    } else {
      var init, chunk := chunks[..|chunks| - 1], chunks[|chunks| - 1];
      var s := Stream(true, init);
      StreamResumes(init, chunk + rest);
      Associative(Concat(init), chunk, rest);
      StreamStreams(init);
      PieceStreams(s, chunk);
      if chunk == "" {
        assert "" + rest == rest && s + "" == s;
      } else {
        ResumeChunk(Last(s), chunk, rest);
        var owed, fixed, more := Owed(Last(s), chunk), FixFrom(Last(s), chunk), Resume(Last(chunk), rest);
        calc {
          s + (owed + (fixed + more));
          s + (owed + fixed) + more;
          Stream(true, chunks) + more;
        }
      }
    }
  }

  lemma NoLast()
    ensures Last("") == '\0'
  {
  }

  /** Over all the chunks of a body, wherever they are cut, the automaton reads the repaired body; only a bare CR at
      the very end does not get its LF. */
  lemma StreamRepairs(chunks: seq<string>)
    ensures Streamable(Stream(true, chunks)) && Complete(Stream(true, chunks)) == Repair(Concat(chunks))
    ensures Last(Stream(true, chunks)) == '\r' <==> Last(Concat(chunks)) == '\r'
  {
    hide Stream, Concat, Repair, Resume, Streamable;
    StreamStreams(chunks);
    StreamResumes(chunks, "");
    ResumeIsRepair('\0', Concat(chunks));
    var s := Stream(true, chunks);
    assert Concat(chunks) + "" == Concat(chunks);
    ResumeIsRepair(Last(s), "");
    assert Repair("") == "" by { RepairNothing(); }
    assert s + "" == s && "\n" + "" == ['\n'];
    StreamLast(chunks);
  }

  lemma RepairNothing()
    ensures Repair("") == ""
  {
  }

  lemma {:induction false} StreamLast(chunks: seq<string>)
    ensures Last(Stream(true, chunks)) == Last(Concat(chunks))
  {
    hide FixFrom, Owed, Piece;
    if chunks != [] {
      var init, chunk := chunks[..|chunks| - 1], chunks[|chunks| - 1];
      StreamLast(init);
      StreamStreams(init);
      PieceStreams(Stream(true, init), chunk);
      if chunk == "" {
        assert Concat(init) + "" == Concat(init);
      }
    }
  }
}
