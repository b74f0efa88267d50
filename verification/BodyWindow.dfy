/** The window the body automaton keeps into the current chunk: text of the current line not yet submitted. */
module BodyWindow {
  import opened Text
  import opened BodySpec

  /** A chunk (of the given length, the last part of `seen`) that ends in a CR after at least two bytes of white
      space, not all of them in earlier chunks. Ended there, the relaxed automaton hashes one of those bytes. */
  predicate SpillCut(seen: string, chunk: nat) {
    chunk >= 2 && |seen| >= 3 && seen[|seen| - 1] == '\r' && IsLwsp(seen[|seen| - 2]) && IsLwsp(seen[|seen| - 3])
  }

  /** p bytes into the chunk buf, with `sub` submitted (and a byte too many at the index `spilt` of it, if there is
      one), the window of wlen bytes at index start holds what is due: all of it, and the CR that ends the line. */
  ghost predicate WindowOk(mode: Mode, seen: string, sub: string, spilt: Option<nat>,
                           buf: string, p: nat, start: nat, wlen: nat)
  {
    var q := Parse(seen);
    && p <= |buf| && start + wlen <= p && p <= |seen| && seen[|seen| - p..] == buf[..p]
    && (if q.cr && p > 0 then
          && wlen > 0
          && Due(mode, q, sub, spilt, buf[start..start + wlen - 1])
          && (if mode.Relaxed? && SpillCut(seen, p)
              then wlen == 1 && start + 1 < p && IsLwsp(buf[start])
              else start + wlen == p)
        else
          && Due(mode, q, sub, spilt, buf[start..start + wlen])
          && (if mode.Relaxed? && p > 0 && IsLwsp(Last(seen))
              then wlen == 0 && (if |seen| >= 2 && IsLwsp(seen[|seen| - 2])
                                 then start < p && IsLwsp(buf[start])
                                 else start == p)
              else start + wlen == p))
  }

  ghost predicate Due(mode: Mode, q: Pos, sub: string, spilt: Option<nat>, window: string) {
    && |window| <= |LineOut(mode, q.cur)|
    && match spilt
       case None => sub + window == Out(mode, q)
       case Some(at) => at < |sub| && sub[..at] <= Out(mode, q) && IsLwsp(sub[at])
  }

  lemma Suffix(seen: string, buf: string, p: nat, x: char)
    requires p < |buf| && p <= |seen| && seen[|seen| - p..] == buf[..p] && x == buf[p]
    ensures (seen + [x])[|seen| + 1 - (p + 1)..] == buf[..p + 1]
    ensures p > 0 ==> Last(seen) == buf[p - 1]
  {
    if p > 0 {
      assert seen[|seen| - p..][p - 1] == buf[..p][p - 1];
    }
  }

  lemma WindowLf(mode: Mode, s: string, sub: string, spilt: Option<nat>, buf: string, p: nat, start: nat, wlen: nat)
    requires p < |buf| && buf[p] == '\n' && Streamable(s + ['\n'])
    requires WindowOk(mode, s, sub, spilt, buf, p, start, wlen)
    ensures var sub' := if AtBlank(mode, Parse(s)) then sub
                        else if wlen == 1 || p == 0 then sub + CRLF
                        else sub + buf[start..start + wlen + 1];
            WindowOk(mode, s + ['\n'], sub', spilt, buf, p + 1, p + 1, 0)
  {
    hide *;
    BeforeLf(mode, s, sub, spilt, buf, p, start, wlen);
    Suffix(s, buf, p, '\n');
    var window := if p == 0 then "" else buf[start..start + wlen - 1];
    DueLf(mode, s, sub, spilt, window);
    if p > 0 && wlen > 1 {
      LineSlice(buf, start, wlen);
      Associative(sub, window, CRLF);
    } else {
      assert window == "" && sub + "" == sub;
    }
    var sub' := if AtBlank(mode, Parse(s)) then sub else sub + window + CRLF;
    AfterLineEnd(mode, s + ['\n'], sub', spilt, buf, p + 1);
  }

  /** Before an LF the window, less the CR at its end, is due. */
  lemma BeforeLf(mode: Mode, s: string, sub: string, spilt: Option<nat>, buf: string, p: nat, start: nat, wlen: nat)
    requires p < |buf| && Streamable(s + ['\n']) && WindowOk(mode, s, sub, spilt, buf, p, start, wlen)
    ensures p <= |s| && start + wlen <= p && s[|s| - p..] == buf[..p]
    ensures p == 0 ==> Due(mode, Parse(s), sub, spilt, "")
    ensures p > 0 ==> wlen > 0 && Due(mode, Parse(s), sub, spilt, buf[start..start + wlen - 1])
    ensures p > 0 && wlen > 1 ==> start + wlen == p && buf[p - 1] == '\r'
  {
    hide Parse, Out, LineOut, Held, Streamable, SpillCut, Due;
    Advance(mode, s, '\n');
    if p == 0 {
      assert buf[start..start + wlen] == "";
    } else {
      assert Last(s) == s[|s| - p..][p - 1] == buf[p - 1];
    }
  }

  lemma LineSlice(buf: string, start: nat, wlen: nat)
    requires 0 < wlen && start + wlen < |buf| && buf[start + wlen - 1] == '\r' && buf[start + wlen] == '\n'
    ensures buf[start..start + wlen + 1] == buf[start..start + wlen - 1] + CRLF
  {
  }

  lemma DueLf(mode: Mode, s: string, sub: string, spilt: Option<nat>, window: string)
    requires Streamable(s + ['\n']) && Due(mode, Parse(s), sub, spilt, window)
    ensures Due(mode, Parse(s + ['\n']), if AtBlank(mode, Parse(s)) then sub else sub + window + CRLF, spilt, "")
  {
    hide Parse, Out, LineOut, Held, Streamable;
    ReadLf(mode, s);
    if AtBlank(mode, Parse(s)) {
      assert window == "";
    }
  }

  /** Between lines the window is empty. */
  lemma AfterLineEnd(mode: Mode, s: string, sub: string, spilt: Option<nat>, buf: string, p: nat)
    requires 0 < p <= |buf| && p <= |s| && s[|s| - p..] == buf[..p] && buf[p - 1] == '\n' && Streamable(s)
    requires Due(mode, Parse(s), sub, spilt, "")
    ensures WindowOk(mode, s, sub, spilt, buf, p, p, 0)
  {
    hide *;
    SameLast(s, buf, p);
    LwspCr();
    ParseRebuilds(s);
    NoWindow(mode, s, sub, spilt, buf, p);
  }

  lemma SameLast(s: string, buf: string, p: nat)
    requires 0 < p <= |buf| && p <= |s| && s[|s| - p..] == buf[..p]
    ensures Last(s) == buf[p - 1]
  {
    assert s[|s| - p..][p - 1] == s[|s| - 1];
  }

  lemma NoWindow(mode: Mode, s: string, sub: string, spilt: Option<nat>, buf: string, p: nat)
    requires p <= |buf| && p <= |s| && s[|s| - p..] == buf[..p] && !Parse(s).cr && !IsLwsp(Last(s))
    requires Due(mode, Parse(s), sub, spilt, "")
    ensures WindowOk(mode, s, sub, spilt, buf, p, p, 0)
  {
    hide Parse, Due, SpillCut, Last, IsLwsp;
    assert buf[p..p] == "";
  }

  lemma WindowEmpty(mode: Mode, s: string, sub: string, spilt: Option<nat>, buf: string, p: nat, start: nat, wlen: nat)
    requires WindowOk(mode, s, sub, spilt, buf, p, start, wlen)
    ensures AtBlank(mode, Parse(s)) && !Parse(s).cr ==> wlen == 0
  {
  }

  lemma SpillGrows(s: string, p: nat)
    ensures SpillCut(s + ['\r'], p + 1) <==> p > 0 && |s| >= 2 && IsLwsp(Last(s)) && IsLwsp(s[|s| - 2])
  {
  }

  lemma WindowCr(mode: Mode, s: string, sub: string, spilt: Option<nat>, buf: string, p: nat, start: nat, wlen: nat)
    requires p < |buf| && buf[p] == '\r' && Streamable(s + ['\r'])
    requires WindowOk(mode, s, sub, spilt, buf, p, start, wlen)
    ensures WindowOk(mode, s + ['\r'], sub, spilt, buf, p + 1, start, wlen + 1)
  {
    hide *;
    BeforeCr(mode, s, sub, spilt, buf, p, start, wlen);
    var window := buf[start..start + wlen];
    Suffix(s, buf, p, '\r');
    DueCr(mode, s, sub, spilt, window);
    AfterCr(mode, s + ['\r'], sub, spilt, buf, p + 1, start, wlen + 1);
  }

  /** Before a CR the window is due, and if the CR makes a SpillCut it is empty and starts with white space. */
  lemma BeforeCr(mode: Mode, s: string, sub: string, spilt: Option<nat>, buf: string, p: nat, start: nat, wlen: nat)
    requires p < |buf| && buf[p] == '\r' && Streamable(s + ['\r'])
    requires WindowOk(mode, s, sub, spilt, buf, p, start, wlen)
    ensures p <= |s| && start + wlen <= p && s[|s| - p..] == buf[..p]
    ensures Due(mode, Parse(s), sub, spilt, buf[start..start + wlen])
    ensures Parse(s + ['\r']).cr
    ensures if mode.Relaxed? && SpillCut(s + ['\r'], p + 1) then wlen == 0 && start < p && IsLwsp(buf[start]) else start + wlen == p
  {
    hide Parse, Out, LineOut, Held, Streamable, SpillCut, Due;
    Advance(mode, s, '\r');
    SpillGrows(s, p);
  }

  lemma AfterCr(mode: Mode, s: string, sub: string, spilt: Option<nat>, buf: string, p: nat, start: nat, wlen: nat)
    requires 0 < p <= |buf| && p <= |s| && 0 < wlen && start + wlen <= p && s[|s| - p..] == buf[..p] && Parse(s).cr
    requires Due(mode, Parse(s), sub, spilt, buf[start..start + wlen - 1])
    requires if mode.Relaxed? && SpillCut(s, p) then wlen == 1 && start + 1 < p && IsLwsp(buf[start]) else start + wlen == p
    ensures WindowOk(mode, s, sub, spilt, buf, p, start, wlen)
  {
    hide Parse, Due, SpillCut, IsLwsp;
  }

  lemma DueCr(mode: Mode, s: string, sub: string, spilt: Option<nat>, window: string)
    requires Streamable(s + ['\r']) && Due(mode, Parse(s), sub, spilt, window)
    ensures Due(mode, Parse(s + ['\r']), sub, spilt, window)
  {
    hide Parse, Out, LineOut, Held, Streamable;
    ReadCr(mode, s);
  }

  lemma LwspCr()
    ensures !IsLwsp('\r') && !IsLwsp('\n') && !IsLwsp('\0')
  {
  }

  /** The window goes out. */
  lemma DueTaken(mode: Mode, q: Pos, sub: string, spilt: Option<nat>, window: string)
    requires Due(mode, q, sub, spilt, window)
    ensures Due(mode, q, sub + window, spilt, "") && Due(mode, q, sub + window + "", spilt, "")
  {
    hide Out, LineOut;
    assert sub + window + "" == sub + window;
  }

  /** All of it has gone out. */
  lemma DueAll(mode: Mode, q: Pos, sub: string)
    requires Due(mode, q, sub, None, "")
    ensures sub == Out(mode, q)
  {
    hide Out, LineOut;
    assert sub + "" == sub;
  }

  /** And a byte too many. */
  lemma DueSpilled(mode: Mode, q: Pos, sub: string, spilt: Option<nat>, x: char)
    requires Due(mode, q, sub, spilt, "") && IsLwsp(x)
    ensures Due(mode, q, sub + [x], if spilt.None? then Some(|Out(mode, q)|) else spilt, "")
  {
    hide Out, LineOut;
  }

  /** On an empty line nothing is in the window. */
  lemma DueEmpty(mode: Mode, q: Pos, sub: string, spilt: Option<nat>, window: string)
    requires Due(mode, q, sub, spilt, window) && q.cur == ""
    ensures window == ""
  {
    hide Out;
    EmptyLine(mode);
  }

  /** A byte of text that joins the window; the blank lines held back go first. */
  lemma WindowText(mode: Mode, s: string, sub: string, spilt: Option<nat>, buf: string, p: nat, start: nat, wlen: nat)
    requires p < |buf| && buf[p] != '\n' && buf[p] != '\r' && Streamable(s + [buf[p]])
    requires WindowOk(mode, s, sub, spilt, buf, p, start, wlen)
    requires mode.Relaxed? ==> !IsLwsp(Last(s)) && !IsLwsp(buf[p])
    ensures WindowOk(mode, s + [buf[p]], sub + Crlfs(Held(mode, Parse(s))), spilt, buf, p + 1, start, wlen + 1)
  {
    hide Parse, Out, LineOut, Held, Streamable, SpillCut, Due, IsLwsp;
    var x := buf[p];
    Suffix(s, buf, p, x);
    Advance(mode, s, x);
    assert buf[start..start + wlen + 1] == buf[start..start + wlen] + [x];
    DueText(mode, s, x, sub, spilt, buf[start..start + wlen]);
    assert Last(s + [x]) == x;
  }

  lemma DueText(mode: Mode, s: string, x: char, sub: string, spilt: Option<nat>, window: string)
    requires x != '\n' && x != '\r' && Streamable(s + [x])
    requires mode.Relaxed? ==> !IsLwsp(Last(s)) && !IsLwsp(x)
    requires Due(mode, Parse(s), sub, spilt, window)
    ensures Due(mode, Parse(s + [x]), sub + Crlfs(Held(mode, Parse(s))), spilt, window + [x])
    ensures Parse(s + [x]) == Feed(Parse(s), x)
  {
    hide Parse, Out, LineOut, Held, Streamable;
    Advance(mode, s, x);
    ReadText(mode, s, x);
    if Held(mode, Parse(s)) > 0 {
      assert window == [];
    } else {
      assert sub + Crlfs(0) == sub;
    }
  }

  /** White space after text: the window goes out and a new one starts after this byte. */
  lemma WindowSpace(s: string, sub: string, spilt: Option<nat>, buf: string, p: nat, start: nat, wlen: nat)
    requires p < |buf| && IsLwsp(buf[p]) && !IsLwsp(Last(s)) && Streamable(s + [buf[p]])
    requires WindowOk(Relaxed, s, sub, spilt, buf, p, start, wlen)
    ensures WindowOk(Relaxed, s + [buf[p]], sub + Crlfs(Held(Relaxed, Parse(s))) + buf[start..start + wlen],
                     spilt, buf, p + 1, p + 1, 0)
  {
    hide Parse, Out, LineOut, Held, Streamable;
    var x := buf[p];
    Suffix(s, buf, p, x);
    Advance(Relaxed, s, x);
    ReadText(Relaxed, s, x);
    assert buf[p + 1..p + 1] == [];
    if Held(Relaxed, Parse(s)) > 0 {
      assert buf[start..start + wlen] == [];
    } else {
      assert sub + Crlfs(0) == sub;
    }
  }

  /** White space after white space changes nothing. */
  lemma WindowMoreSpace(s: string, sub: string, spilt: Option<nat>, buf: string, p: nat, start: nat, wlen: nat)
    requires p < |buf| && IsLwsp(buf[p]) && IsLwsp(Last(s)) && Streamable(s + [buf[p]])
    requires WindowOk(Relaxed, s, sub, spilt, buf, p, start, wlen)
    ensures WindowOk(Relaxed, s + [buf[p]], sub, spilt, buf, p + 1, start, wlen)
  {
    hide Parse, Out, LineOut, Held, Streamable;
    var x := buf[p];
    Suffix(s, buf, p, x);
    Advance(Relaxed, s, x);
    ReadText(Relaxed, s, x);
  }

  /** Text after white space: one space goes out and the window starts again at this byte. */
  lemma WindowWord(s: string, sub: string, spilt: Option<nat>, buf: string, p: nat, start: nat, wlen: nat)
    requires p < |buf| && !IsLwsp(buf[p]) && buf[p] != '\r' && buf[p] != '\n'
    requires IsLwsp(Last(s)) && Streamable(s + [buf[p]])
    requires WindowOk(Relaxed, s, sub, spilt, buf, p, start, wlen)
    ensures WindowOk(Relaxed, s + [buf[p]], sub + Crlfs(Held(Relaxed, Parse(s))) + " ",
                     spilt, buf, p + 1, p, 1)
  {
    hide Parse, Out, LineOut, Held, Streamable;
    var x := buf[p];
    Suffix(s, buf, p, x);
    Advance(Relaxed, s, x);
    ReadText(Relaxed, s, x);
    assert buf[p..p + 1] == [x];
    assert buf[start..start + wlen] == [];
    assert [' ', x] == " " + [x];
  }

  /** Everything a byte other than LF does to the simple form, in the terms of the code that reads it. */
  lemma SimpleStep(s: string, x: char, sub: string, spilt: Option<nat>, buf: string, p: nat, start: nat, wlen: nat)
    requires p < |buf| && buf[p] == x && x != '\n' && Streamable(s + [x])
    requires WindowOk(Simple, s, sub, spilt, buf, p, start, wlen)
    ensures Streamable(s) && Last(s) != '\r' && Last(s + [x]) == x
    ensures x == '\r' ==>
              && WindowOk(Simple, s + [x], sub, spilt, buf, p + 1, start, wlen + 1)
              && Held(Simple, Parse(s + [x])) == Held(Simple, Parse(s))
              && AtBlank(Simple, Parse(s + [x])) == AtBlank(Simple, Parse(s))
    ensures x != '\r' ==>
              && WindowOk(Simple, s + [x], sub + Crlfs(Held(Simple, Parse(s))), spilt, buf, p + 1, start, wlen + 1)
              && Held(Simple, Parse(s + [x])) == 0
              && !AtBlank(Simple, Parse(s + [x]))
  {
    hide Parse, Out, LineOut, Held, Streamable, WindowOk;
    Advance(Simple, s, x);
    if x == '\r' {
      ReadCr(Simple, s);
      WindowCr(Simple, s, sub, spilt, buf, p, start, wlen);
    } else {
      ReadText(Simple, s, x);
      WindowText(Simple, s, sub, spilt, buf, p, start, wlen);
    }
  }

  /** The same for the relaxed form. */
  lemma RelaxedStep(s: string, x: char, sub: string, spilt: Option<nat>, buf: string, p: nat, start: nat, wlen: nat)
    requires p < |buf| && buf[p] == x && x != '\n' && Streamable(s + [x])
    requires WindowOk(Relaxed, s, sub, spilt, buf, p, start, wlen)
    ensures Streamable(s) && Last(s) != '\r' && Last(s + [x]) == x
    ensures x == '\r' ==>
              && WindowOk(Relaxed, s + [x], sub, spilt, buf, p + 1, start, wlen + 1)
              && Held(Relaxed, Parse(s + [x])) == Held(Relaxed, Parse(s))
              && AtBlank(Relaxed, Parse(s + [x])) == AtBlank(Relaxed, Parse(s))
              && (AtBlank(Relaxed, Parse(s)) ==> wlen == 0)
              && !IsLwsp(x)
    ensures x != '\r' ==> Held(Relaxed, Parse(s + [x])) == 0
    ensures x != '\r' && !IsLwsp(x) ==> !AtBlank(Relaxed, Parse(s + [x]))
    ensures IsLwsp(x) ==> x != '\r' && AtBlank(Relaxed, Parse(s + [x])) == AtBlank(Relaxed, Parse(s))
    ensures IsLwsp(Last(s)) ==> Held(Relaxed, Parse(s)) == 0
    ensures Held(Relaxed, Parse(s)) > 0 ==> AtBlank(Relaxed, Parse(s))
    ensures var sub' := sub + Crlfs(Held(Relaxed, Parse(s)));
            x != '\r' ==>
              if IsLwsp(Last(s)) && !IsLwsp(x) then
                WindowOk(Relaxed, s + [x], sub' + " ", spilt, buf, p + 1, p, 1)
              else if !IsLwsp(Last(s)) && IsLwsp(x) then
                start + wlen <= p &&
                WindowOk(Relaxed, s + [x], sub' + buf[start..start + wlen], spilt, buf, p + 1, p + 1, 0)
              else if IsLwsp(x) then
                WindowOk(Relaxed, s + [x], sub, spilt, buf, p + 1, start, wlen)
              else
                WindowOk(Relaxed, s + [x], sub', spilt, buf, p + 1, start, wlen + 1)
  {
    hide Parse, Out, LineOut, Held, Streamable, WindowOk;
    WindowBounds(Relaxed, s, sub, spilt, buf, p, start, wlen);
    Advance(Relaxed, s, x);
    if x == '\r' {
      ReadCr(Relaxed, s);
      WindowCr(Relaxed, s, sub, spilt, buf, p, start, wlen);
      WindowEmpty(Relaxed, s, sub, spilt, buf, p, start, wlen);
    } else {
      ReadText(Relaxed, s, x);
      if IsLwsp(x) && IsLwsp(Last(s)) {
        WindowMoreSpace(s, sub, spilt, buf, p, start, wlen);
      } else if IsLwsp(x) {
        WindowSpace(s, sub, spilt, buf, p, start, wlen);
      } else if IsLwsp(Last(s)) {
        WindowWord(s, sub, spilt, buf, p, start, wlen);
      } else {
        WindowText(Relaxed, s, sub, spilt, buf, p, start, wlen);
      }
    }
  }

  lemma WindowBounds(mode: Mode, s: string, sub: string, spilt: Option<nat>, buf: string, p: nat, start: nat, wlen: nat)
    requires WindowOk(mode, s, sub, spilt, buf, p, start, wlen)
    ensures p <= |buf| && start + wlen <= p
  {
  }

  /** A CR that ended the chunk before gets its LF: the line is complete. */
  lemma LoneLf(mode: Mode, s: string, sub: string, spilt: Option<nat>)
    requires Streamable(s) && Last(s) == '\r' && Due(mode, Parse(s), sub, spilt, "")
    ensures var q, r := Parse(s), Parse(s + ['\n']);
            Streamable(s + ['\n']) && AtBlank(mode, r) && Held(mode, r) == (if AtBlank(mode, q) then Held(mode, q) + 1 else 0)
    ensures !AtBlank(mode, Parse(s)) ==> Held(mode, Parse(s)) == 0
    ensures Due(mode, Parse(s + ['\n']), if AtBlank(mode, Parse(s)) then sub else sub + CRLF, spilt, "")
  {
    hide Parse, Out, LineOut, Held;
    assert (s + ['\n'])[..|s|] == s;
    ReadLf(mode, s);
    assert sub + "" == sub;
  }

  lemma WindowFull(s: string, sub: string, spilt: Option<nat>, buf: string, p: nat, start: nat, wlen: nat)
    requires WindowOk(Simple, s, sub, spilt, buf, p, start, wlen)
    ensures start + wlen == p
  {
    hide Parse, Due, SpillCut, IsLwsp;
  }

  /** At the end of a chunk the window goes out, less a CR at its end: then nothing is due, unless the chunk
      ended in a SpillCut, and then one byte too many is out. */
  lemma WindowCloses(mode: Mode, s: string, sub: string, spilt: Option<nat>, buf: string, start: nat, wlen: nat)
    requires Streamable(s) && WindowOk(mode, s, sub, spilt, buf, |buf|, start, wlen)
    ensures var n := if wlen > 0 && buf[start + wlen - 1] == '\r' then wlen - 1 else wlen;
            Due(mode, Parse(s), sub + buf[start..start + n],
                if mode.Relaxed? && SpillCut(s, |buf|) && spilt.None? then Some(|Out(mode, Parse(s))|) else spilt, "")
    ensures Last(s) == '\n' || s == "" ==> wlen == 0
    ensures Held(mode, Parse(s)) > 0 ==> Parse(s).cur == ""
    ensures Parse(s).cur == "" ==> wlen == 0 || (wlen == 1 && buf[start] == '\r')
  {
    hide Parse, Out, LineOut, Held, Streamable, Due, SpillCut, IsLwsp;
    HeldHere(mode, Parse(s));
    if Parse(s).cur == "" {
      HeldEmpty(mode, s, |buf|);
    }
    ParseRebuilds(s);
    var q, p := Parse(s), |buf|;
    LwspCr();
    if buf != "" {
      assert Last(s) == s[|s| - p..][p - 1] == buf[p - 1];
    }
    if q.cr && p > 0 {
      var window := buf[start..start + wlen - 1];
      if mode.Relaxed? && SpillCut(s, p) {
        assert window == "" && buf[start..start + 1] == [buf[start]];
        DueSpilled(mode, q, sub, spilt, buf[start]);
      } else {
        DueTaken(mode, q, sub, spilt, window);
      }
      if q.cur == "" {
        DueEmpty(mode, q, sub, spilt, window);
        assert |window| == 0 && start == p - 1;
      }
    } else {
      var window := buf[start..start + wlen];
      SpillNeedsCr(s, p);
      DueTaken(mode, q, sub, spilt, window);
      if q.cur == "" {
        DueEmpty(mode, q, sub, spilt, window);
      }
    }
  }

  lemma HeldHere(mode: Mode, q: Pos)
    ensures Held(mode, q) > 0 ==> q.cur == ""
  {
  }

  lemma HeldEmpty(mode: Mode, s: string, p: nat)
    requires Streamable(s) && Parse(s).cur == ""
    ensures mode.Relaxed? ==> !SpillCut(s, p)
  {
    hide Parse, Out, LineOut, Held, Streamable;
    if mode.Relaxed? && SpillCut(s, p) {
      var t := s[..|s| - 1];
      assert s == t + ['\r'];
      Advance(mode, t, '\r');
      ReadCr(mode, t);
    }
  }

  lemma SpillNeedsCr(s: string, p: nat)
    ensures SpillCut(s, p) ==> Last(s) == '\r' && p > 0
  {
  }
}
