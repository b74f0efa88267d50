/** A whole body through the canonicaliser, cut into any chunks: when the hash is that of the canonical form. */
module BodyRun {
  import opened Text
  import opened BodySpec
  import opened BodyWindow
  import opened CrlfRepair
  import opened BodyCanon

  // ---------- What may go wrong, in terms of the chunks ----------

  /** The body to be hashed: with the repair of bare CRs and LFs or without. */
  function Body(fix: bool, chunks: seq<string>): (r: string) {
    if fix then Repair(Concat(chunks)) else Concat(chunks)
  }

  /** An l= limit that ends within the first n bytes of the canonical form. */
  predicate Within(length: int, n: int) {
    0 <= length <= n
  }

  /** How much of the canonical form the first i chunks give. */
  function Reached(mode: Mode, fix: bool, chunks: seq<string>, i: nat): (n: nat)
    requires i <= |chunks|
  {
    |Out(mode, Parse(Stream(fix, chunks[..i])))|
  }

  /** Chunk i ends in two white space bytes and a CR. */
  predicate SpillAt(fix: bool, chunks: seq<string>, i: nat)
    requires i < |chunks|
  {
    SpillCut(Stream(fix, chunks[..i + 1]), |chunks[i]|)
  }

  /** Just before chunk i there is a CR without its LF, on a blank line, and only line breaks come between this place
      and the end of chunk k - 1. */
  predicate EarlyBy(mode: Mode, fix: bool, chunks: seq<string>, i: nat, k: nat)
    requires i < k <= |chunks|
  {
    var before, upto := Stream(fix, chunks[..i]), Stream(fix, chunks[..k]);
    && fix && chunks[i] != "" && chunks[i][0] != '\n' && Last(before) == '\r' && AtBlank(mode, Parse(before))
    && |before| <= |upto| && OnlyBreaks(upto[|before|..])
  }

  /** Up to the limit, no chunk ends in two white space bytes and a CR. */
  predicate NoSpill(fix: bool, chunks: seq<string>, length: int) {
    forall i :: 0 <= i < |chunks| && SpillAt(fix, chunks, i) ==> Within(length, Reached(Relaxed, fix, chunks, i + 1))
  }

  /** Up to the limit, no bare CR stands at a cut in the blank lines at the end. */
  predicate NoEarly(mode: Mode, fix: bool, chunks: seq<string>, length: int) {
    forall i :: 0 <= i < |chunks| && EarlyBy(mode, fix, chunks, i, |chunks|) ==>
                  Within(length, Reached(mode, fix, chunks, |chunks|))
  }

  /** Up to the limit, the last lines of a relaxed body are well kept. */
  predicate TailFits(fix: bool, chunks: seq<string>, length: int) {
    var q := Parse(Stream(fix, chunks));
    TailKept(q) || Within(length, |Canonical(Relaxed, Body(fix, chunks))| - if Blank(q.cur) then 0 else 2)
  }

  /** After chunk i nothing of the simple form is left to be submitted, and something has been; or this chunk is the
      first, and holds a line that fills the buffer, without its end. */
  predicate WrittenAt(fix: bool, chunks: seq<string>, i: nat)
    requires i < |chunks|
  {
    var before, after := Stream(fix, chunks[..i]), Stream(fix, chunks[..i + 1]);
    || (Quiet(Piece(fix, Last(before), chunks[i])) && Reached(Simple, fix, chunks, i + 1) > 0)
    || (before == "" && Parse(after).lines == [] && Reached(Simple, fix, chunks, i + 1) >= 4096)
  }

  /** Something has been hashed before the end of the body. */
  predicate Written(fix: bool, chunks: seq<string>) {
    || Reached(Simple, fix, chunks, |chunks|) > 4096
    || exists i :: 0 <= i < |chunks| && WrittenAt(fix, chunks, i)
  }

  /** A simple body ends in a CRLF, or the limit comes before its end, or nothing has been hashed before the end:
      dkim_canon_closebody then adds the CRLF. */
  predicate EndFits(fix: bool, chunks: seq<string>, length: int) {
    || AtBlank(Simple, Parse(Stream(fix, chunks)))
    || Within(length, Reached(Simple, fix, chunks, |chunks|))
    || !Written(fix, chunks)
  }

  // ---------- Reading chunk by chunk ----------

  ghost predicate SpiltIs(mode: Mode, fix: bool, chunks: seq<string>, k: nat, spilt: Option<nat>)
    requires k <= |chunks|
  {
    match spilt
    case None => mode.Relaxed? ==> forall j :: 0 <= j < k ==> !SpillAt(fix, chunks, j)
    case Some(at) => mode.Relaxed? && exists j :: 0 <= j < k && FirstSpill(fix, chunks, j) && at == Reached(mode, fix, chunks, j + 1)
  }

  predicate FirstSpill(fix: bool, chunks: seq<string>, j: nat)
    requires j < |chunks|
  {
    SpillAt(fix, chunks, j) && forall i :: 0 <= i < j ==> !SpillAt(fix, chunks, i)
  }

  ghost predicate AheadIs(mode: Mode, fix: bool, chunks: seq<string>, k: nat, ahead: nat)
    requires k <= |chunks|
  {
    ahead > 0 <==> exists j :: 0 <= j < k && EarlyBy(mode, fix, chunks, j, k)
  }

  ghost predicate KeptIs(fix: bool, chunks: seq<string>, k: nat, kept: bool, sub: string)
    requires k <= |chunks|
  {
    kept <==> |sub| <= DKIM_HASHBUFSIZE && forall i :: 0 <= i < k ==> !WrittenAt(fix, chunks, i)
  }

  lemma EarlyNext(mode: Mode, fix: bool, chunks: seq<string>, k: nat, ahead: nat, ahead': nat)
    requires k < |chunks| && AheadIs(mode, fix, chunks, k, ahead)
    requires var s := Stream(fix, chunks[..k]);
             ahead' > 0 <==>
               OnlyBreaks(Piece(fix, Last(s), chunks[k])) &&
               (ahead > 0 || (fix && chunks[k] != "" && Owed(Last(s), chunks[k]) != "" && AtBlank(mode, Parse(s))))
    ensures AheadIs(mode, fix, chunks, k + 1, ahead')
  {
    hide AtBlank, Parse, OnlyBreaks, Piece, Stream, EarlyBy;
    var s := Stream(fix, chunks[..k]);
    var piece := Piece(fix, Last(s), chunks[k]);
    StreamTake(fix, chunks, k);
    assert (s + piece)[|s|..] == piece;
    forall j | 0 <= j < k
      ensures EarlyBy(mode, fix, chunks, j, k + 1) <==> EarlyBy(mode, fix, chunks, j, k) && OnlyBreaks(piece)
    {
      EarlyStill(mode, fix, chunks, j, k);
    }
    EarlyHere(mode, fix, chunks, k);
    if ahead' > 0 && ahead > 0 {
      var j :| 0 <= j < k && EarlyBy(mode, fix, chunks, j, k);
      assert EarlyBy(mode, fix, chunks, j, k + 1);
    }
    if ahead' == 0 {
      var k' := k + 1;
      forall j | 0 <= j < k'
        ensures !EarlyBy(mode, fix, chunks, j, k')
      {
        assert j < k ==> EarlyBy(mode, fix, chunks, j, k) ==> ahead > 0;
      }
    }
  }

  lemma EarlyStill(mode: Mode, fix: bool, chunks: seq<string>, j: nat, k: nat)
    requires j < k < |chunks|
    ensures EarlyBy(mode, fix, chunks, j, k + 1) <==>
            EarlyBy(mode, fix, chunks, j, k) && OnlyBreaks(Piece(fix, Last(Stream(fix, chunks[..k])), chunks[k]))
  {
    hide AtBlank, Parse, OnlyBreaks, Piece, Stream;
    var b, s := Stream(fix, chunks[..j]), Stream(fix, chunks[..k]);
    var piece := Piece(fix, Last(s), chunks[k]);
    StreamTake(fix, chunks, k);
    StreamUpto(fix, chunks, j, k);
    assert (s + piece)[|b|..] == s[|b|..] + piece;
    BreaksBoth(s[|b|..], piece);
  }

  lemma EarlyHere(mode: Mode, fix: bool, chunks: seq<string>, k: nat)
    requires k < |chunks|
    ensures var s := Stream(fix, chunks[..k]);
            EarlyBy(mode, fix, chunks, k, k + 1) <==>
            fix && chunks[k] != "" && Owed(Last(s), chunks[k]) != "" && AtBlank(mode, Parse(s)) &&
            OnlyBreaks(Piece(fix, Last(s), chunks[k]))
  {
    hide AtBlank, Parse, OnlyBreaks, Piece, Stream;
    var s := Stream(fix, chunks[..k]);
    var piece := Piece(fix, Last(s), chunks[k]);
    StreamTake(fix, chunks, k);
    assert (s + piece)[|s|..] == piece;
  }

  lemma BreaksBoth(s: string, t: string)
    ensures OnlyBreaks(s + t) <==> OnlyBreaks(s) && OnlyBreaks(t)
  {
    if OnlyBreaks(s + t) {
      assert forall c :: c in s || c in t ==> c in s + t;
    }
  }

  lemma StreamUpto(fix: bool, chunks: seq<string>, j: nat, k: nat)
    requires j <= k <= |chunks|
    ensures Stream(fix, chunks[..j]) <= Stream(fix, chunks[..k])
  {
    assert chunks[..k][..j] == chunks[..j];
    StreamPrefix(fix, chunks[..k], j);
  }

  lemma SpiltNext(mode: Mode, fix: bool, chunks: seq<string>, k: nat, spilt: Option<nat>)
    requires k < |chunks| && SpiltIs(mode, fix, chunks, k, spilt)
    ensures SpiltIs(mode, fix, chunks, k + 1,
                    if mode.Relaxed? && SpillAt(fix, chunks, k) && spilt.None? then Some(Reached(mode, fix, chunks, k + 1)) else spilt)
  {
    hide SpillAt, Reached;
    if mode.Relaxed? && SpillAt(fix, chunks, k) && spilt.None? {
      assert FirstSpill(fix, chunks, k);
    }
  }

  /** After the first k chunks. */
  ghost predicate ReadOk(c: Canon, chunks: seq<string>, k: nat)
    requires k <= |chunks|
    reads c, c.hashbuf
  {
    && c.BufferOk() && c.BodyOk() && !c.done && c.seen == Stream(c.fixcrlf, chunks[..k])
    && SpiltIs(c.mode, c.fixcrlf, chunks, k, c.spilt) && AheadIs(c.mode, c.fixcrlf, chunks, k, c.ahead)
    && (c.mode.Simple? ==> KeptIs(c.fixcrlf, chunks, k, c.Kept(), c.submitted))
    && (c.mode.Simple? && Parse(c.seen).cur == "" ==> c.hashbuflen == 0)
  }

  /** In the simple form something has been submitted exactly when something is due. */
  lemma SubmittedSome(q: Pos, sub: string, ahead: nat)
    requires sub == Out(Simple, q) + Crlfs(ahead) && ahead <= Held(Simple, q)
    ensures sub == "" <==> Out(Simple, q) == ""
    ensures |Out(Simple, q)| <= |sub|
  {
    hide Out, Held, Crlfs;
    HeldHere(Simple, q);
    if ahead > 0 {
      SomeLines(q);
      LinesOut(q);
    } else {
      NoCrlfs(Out(Simple, q));
    }
  }

  lemma SomeLines(q: Pos)
    ensures Held(Simple, q) > 0 ==> q.lines != []
  {
  }

  lemma KeptNext(fix: bool, chunks: seq<string>, k: nat, kept: bool, kept': bool, sub: string, sub': string)
    requires k < |chunks| && KeptIs(fix, chunks, k, kept, sub) && |sub| <= |sub'|
    requires sub' == "" <==> Reached(Simple, fix, chunks, k + 1) == 0
    requires var before, after := Stream(fix, chunks[..k]), Stream(fix, chunks[..k + 1]);
             && (before == "" && Parse(after).lines == [] ==> |sub'| == Reached(Simple, fix, chunks, k + 1))
             && (kept' <==>
                   && kept && (Quiet(Piece(fix, Last(before), chunks[k])) ==> sub' == "") && |sub'| <= DKIM_HASHBUFSIZE
                   && (before == "" && Parse(after).lines == [] ==> |sub'| < DKIM_HASHBUFSIZE))
    ensures KeptIs(fix, chunks, k + 1, kept', sub')
  {
    hide Reached, Quiet, Piece, Parse, Stream;
    assert WrittenAt(fix, chunks, k) <==>
           (Quiet(Piece(fix, Last(Stream(fix, chunks[..k])), chunks[k])) && sub' != "")
           || (Stream(fix, chunks[..k]) == "" && Parse(Stream(fix, chunks[..k + 1])).lines == []
               && |sub'| >= DKIM_HASHBUFSIZE);
  }

  lemma Starts(c: Canon, chunks: seq<string>)
    requires c.BufferOk() && c.BodyOk() && !c.done
    requires c.submitted == "" && c.seen == "" && c.spilt == None && c.ahead == 0 && c.hashbuflen == 0
    ensures ReadOk(c, chunks, 0)
  {
    hide Parse, Due, LimitLaw;
    assert chunks[..0] == [];
  }

  /** One chunk more. */
  method ReadOne(c: Canon, chunks: seq<string>, k: nat)
    requires k < |chunks| && ReadOk(c, chunks, k) && c.remain != 0
    requires Streamable(Stream(c.fixcrlf, chunks[..k + 1]))
    modifies c, c.hashbuf
    ensures ReadOk(c, chunks, k + 1)
  {
    hide Parse, Out, LineOut, Held, AtBlank, Streamable, SpillCut, LimitLaw, Stream, Piece, Quiet, AheadIs, SpiltIs, KeptIs;
    hide Due, Crlfs, Owed, OnlyBreaks;
    ghost var s, sub, ahead, spilt, kept := c.seen, c.submitted, c.ahead, c.spilt, c.Kept();
    StreamTake(c.fixcrlf, chunks, k);
    StreamableFirst(s, Piece(c.fixcrlf, Last(s), chunks[k]));
    c.BodyChunk(chunks[k]);
    EarlyNext(c.mode, c.fixcrlf, chunks, k, ahead, c.ahead);
    SpiltNext(c.mode, c.fixcrlf, chunks, k, spilt);
    if c.mode.Simple? {
      DueAll(c.mode, Parse(c.seen), c.due);
      SubmittedSome(Parse(c.seen), c.submitted, c.ahead);
      KeptNext(c.fixcrlf, chunks, k, kept, c.Kept(), sub, c.submitted);
    }
  }

  lemma StreamableFirst(s: string, t: string)
    requires Streamable(s + t)
    ensures Streamable(s)
  {
    StreamablePrefix(s + t, |s|);
    assert (s + t)[..|s|] == s;
  }

  /** All the chunks; those after the limit has been reached change nothing, and k is how many came before. */
  method Run(c: Canon, chunks: seq<string>) returns (ghost k: nat)
    requires c.BufferOk() && c.BodyOk() && !c.done
    requires c.submitted == "" && c.seen == "" && c.spilt == None && c.ahead == 0 && c.hashbuflen == 0
    requires Streamable(Stream(c.fixcrlf, chunks))
    modifies c, c.hashbuf
    ensures k <= |chunks| && ReadOk(c, chunks, k) && (c.remain != 0 ==> k == |chunks|)
  {
    hide ReadOk, Stream, Streamable;
    Starts(c, chunks);
    k := 0;
    var i := 0;
    while i < |chunks|
      invariant k <= i <= |chunks| && ReadOk(c, chunks, k) && (c.remain != 0 ==> k == i)
    {
      if c.remain == 0 {
        StillRead(c, chunks, k);
        c.BodyChunk(chunks[i]);
      } else {
        StreamPrefix(c.fixcrlf, chunks, i + 1);
        StreamableUpto(Stream(c.fixcrlf, chunks), Stream(c.fixcrlf, chunks[..i + 1]));
        ReadOne(c, chunks, i);
        k := i + 1;
      }
      i := i + 1;
    }
  }

  lemma StillRead(c: Canon, chunks: seq<string>, k: nat)
    requires k <= |chunks| && ReadOk(c, chunks, k)
    ensures c.BufferOk() && c.BodyOk()
  {
  }

  lemma StreamableUpto(s: string, t: string)
    requires Streamable(s) && t <= s
    ensures Streamable(t)
  {
    StreamablePrefix(s, |t|);
    assert s[..|t|] == t;
  }

  // ---------- What has been submitted, and what should have been ----------

  /** What is known when reading stops, after the first k chunks; the limit may have been reached by then. */
  ghost predicate Stopped(mode: Mode, fix: bool, chunks: seq<string>, length: int, k: nat, sub: string, due: string,
                          ahead: nat, spilt: Option<nat>)
  {
    && length >= -1 && k <= |chunks| && Streamable(Stream(fix, chunks))
    && (k < |chunks| ==> 0 <= length <= |sub|)
    && var q := Parse(Stream(fix, chunks[..k]));
       && Due(mode, q, due, spilt, "") && sub == due + Crlfs(ahead) && ahead <= Held(mode, q)
       && SpiltIs(mode, fix, chunks, k, spilt) && AheadIs(mode, fix, chunks, k, ahead)
  }

  lemma {:induction false} ReachedMore(mode: Mode, fix: bool, chunks: seq<string>, i: nat, j: nat)
    requires i <= j <= |chunks|
    ensures Reached(mode, fix, chunks, i) <= Reached(mode, fix, chunks, j)
    ensures Out(mode, Parse(Stream(fix, chunks[..i]))) <= Out(mode, Parse(Stream(fix, chunks[..j])))
  {
    hide Out, Parse, Stream;
    var s, t := Stream(fix, chunks[..i]), Stream(fix, chunks[..j]);
    StreamUpto(fix, chunks, i, j);
    OutMonotone(mode, t, |s|);
    assert t[..|s|] == s;
  }

  /** A byte too many, before the limit: whatever else there is, it is seen. */
  lemma SpillShows(fix: bool, chunks: seq<string>, length: int, k: nat, sub: string, due: string, ahead: nat, at: nat)
    requires Stopped(Relaxed, fix, chunks, length, k, sub, due, ahead, Some(at)) && !Within(length, at)
    ensures !NoSpill(fix, chunks, length)
    ensures Cut(length, sub) != Cut(length, Canonical(Relaxed, Complete(Stream(fix, chunks))))
  {
    hide Parse, Out, Held, Stream, SpillCut, Crlfs, Canonical, IsLwsp, Streamable;
    var s := Stream(fix, chunks);
    var j :| 0 <= j < k && FirstSpill(fix, chunks, j) && at == Reached(Relaxed, fix, chunks, j + 1);
    assert SpillAt(fix, chunks, j) && !Within(length, Reached(Relaxed, fix, chunks, j + 1));
    var t := Stream(fix, chunks[..j + 1]);
    SpillEnds(t, |chunks[j]|);
    StreamPrefix(fix, chunks, j + 1);
    assert s[..|t|] == t;
    CanonicalAfter(s, |t|);
    assert at < |due| && sub[at] == due[at] && IsLwsp(due[at]);
    LwspCr();
    Differs(length, sub, Canonical(Relaxed, Complete(s)), at);
  }

  lemma SpillEnds(s: string, n: nat)
    requires SpillCut(s, n)
    ensures |s| > 2 && s[|s| - 1] == '\r'
  {
  }

  /** What follows a CR in the canonical form is the CRLF, or nothing. */
  lemma CanonicalAfter(s: string, n: nat)
    requires Streamable(s) && 0 < n <= |s| && s[n - 1] == '\r'
    ensures var r, at := Canonical(Relaxed, Complete(s)), |Out(Relaxed, Parse(s[..n]))|; |r| > at ==> r[at] == '\r'
  {
    hide Parse, Out, Streamable, Blank, TailKept, AtBlank, RelaxedText;
    var t := Complete(s);
    CompleteIsPaired(s);
    assert t[..n] == s[..n] by { assert t[..|s|][..n] == t[..n]; }
    assert t[n - 1] == '\r' by { assert t[..|s|][n - 1] == s[n - 1]; }
    if n < |t| {
      AfterReturn(Relaxed, t, n);
    }
    WholeRelaxed(t);
    assert Complete(t) == t;
  }

  lemma Differs(length: int, a: string, b: string, at: nat)
    requires length >= -1 && !Within(length, at) && at < |a| && (|b| > at ==> a[at] != b[at])
    ensures Cut(length, a) != Cut(length, b)
  {
    if |b| > at {
      assert Cut(length, a)[at] == a[at] && Cut(length, b)[at] == b[at];
    }
  }

  /** Without such a byte, what is hashed is the output for the whole text up to the limit; or else the limit, if any,
      is beyond this output, and all of it has been submitted, with the blank lines that came too early. */
  ghost predicate Settled(mode: Mode, fix: bool, chunks: seq<string>, length: int, sub: string, ahead: nat) {
    var out := Out(mode, Parse(Stream(fix, chunks)));
    if Within(length, |out|) then length <= |sub| && Cut(length, sub) == Cut(length, out)
    else
      && sub == out + Crlfs(ahead) && AheadIs(mode, fix, chunks, |chunks|, ahead)
      && (ahead > 0 ==> AtBlank(mode, Parse(Stream(fix, chunks))))
  }

  lemma Settle(mode: Mode, fix: bool, chunks: seq<string>, length: int, k: nat, sub: string, due: string, ahead: nat,
               spilt: Option<nat>)
    requires Stopped(mode, fix, chunks, length, k, sub, due, ahead, spilt)
    requires spilt.None? || Within(length, spilt.value)
    ensures Settled(mode, fix, chunks, length, sub, ahead)
  {
    hide Parse, Out, Held, Stream, Crlfs, Streamable, AtBlank, SpillAt, EarlyBy;
    var s, t := Stream(fix, chunks), Stream(fix, chunks[..k]);
    var out, part := Out(mode, Parse(s)), Out(mode, Parse(t));
    StreamPrefix(fix, chunks, k);
    assert s[..|t|] == t;
    OutMonotone(mode, s, |t|);
    if spilt.Some? {
      assert sub[..spilt.value] == due[..spilt.value];
      assert Cut(length, sub) == due[..spilt.value][..length];
    } else {
      DueAll(mode, Parse(t), due);
      SettleWhole(mode, fix, chunks, length, k, sub, ahead);
    }
  }

  lemma SettleWhole(mode: Mode, fix: bool, chunks: seq<string>, length: int, k: nat, sub: string, ahead: nat)
    requires k <= |chunks| && Streamable(Stream(fix, chunks)) && (k < |chunks| ==> 0 <= length <= |sub|)
    requires var q := Parse(Stream(fix, chunks[..k])); sub == Out(mode, q) + Crlfs(ahead) && ahead <= Held(mode, q)
    requires AheadIs(mode, fix, chunks, k, ahead)
    ensures Settled(mode, fix, chunks, length, sub, ahead)
  {
    hide Parse, Out, Held, Stream, Crlfs, Streamable, AtBlank, EarlyBy, OnlyBreaks;
    var s, t := Stream(fix, chunks), Stream(fix, chunks[..k]);
    var a, b := Parse(t), Parse(s);
    StreamPrefix(fix, chunks, k);
    assert s[..|t|] == t;
    Released(mode, s, |t|);
    HeldIsBlank(mode, b);
    if k == |chunks| {
      assert chunks[..k] == chunks;
    } else if Held(mode, a) == 0 || !OnlyBreaks(s[|t|..]) {
      CrlfsPrefix(ahead, Held(mode, a));
    } else {
      EarlyOn(mode, fix, chunks, k, ahead);
      if ahead == 0 {
        NoCrlfs(Out(mode, a));
      }
    }
  }

  lemma EarlyOn(mode: Mode, fix: bool, chunks: seq<string>, k: nat, ahead: nat)
    requires k <= |chunks| && AheadIs(mode, fix, chunks, k, ahead)
    requires var s, t := Stream(fix, chunks), Stream(fix, chunks[..k]); |t| <= |s| && OnlyBreaks(s[|t|..])
    ensures ahead > 0 ==> AheadIs(mode, fix, chunks, |chunks|, ahead)
  {
    hide Parse, Stream, AtBlank, OnlyBreaks;
    if ahead > 0 {
      var j :| 0 <= j < k && EarlyBy(mode, fix, chunks, j, k);
      var r, s, t := Stream(fix, chunks[..j]), Stream(fix, chunks), Stream(fix, chunks[..k]);
      assert chunks[..|chunks|] == chunks;
      StreamPrefix(fix, chunks, k);
      assert s[|r|..] == t[|r|..] + s[|t|..];
      BreaksBoth(t[|r|..], s[|t|..]);
      assert EarlyBy(mode, fix, chunks, j, |chunks|);
    }
  }

  /** No byte too many before the limit, of those that have been read or not. */
  lemma NoneSpilt(fix: bool, chunks: seq<string>, length: int, k: nat, sub: string, due: string, ahead: nat, spilt: Option<nat>)
    requires Stopped(Relaxed, fix, chunks, length, k, sub, due, ahead, spilt)
    requires spilt.None? || Within(length, spilt.value)
    ensures NoSpill(fix, chunks, length)
  {
    hide Parse, Out, Held, Stream, Crlfs, Streamable, AtBlank, SpillAt, EarlyBy, Reached;
    if spilt.Some? {
      var j :| 0 <= j < k && FirstSpill(fix, chunks, j) && spilt.value == Reached(Relaxed, fix, chunks, j + 1);
      forall i | 0 <= i < |chunks| && SpillAt(fix, chunks, i)
        ensures Within(length, Reached(Relaxed, fix, chunks, i + 1))
      {
        ReachedMore(Relaxed, fix, chunks, j + 1, i + 1);
      }
    } else {
      DueAll(Relaxed, Parse(Stream(fix, chunks[..k])), due);
      forall i | 0 <= i < |chunks| && SpillAt(fix, chunks, i)
        ensures Within(length, Reached(Relaxed, fix, chunks, i + 1))
      {
        UnreadSpill(fix, chunks, k, i, sub, ahead);
      }
    }
  }

  /** A byte too many that comes after the place where reading stopped comes after what has been submitted. */
  lemma UnreadSpill(fix: bool, chunks: seq<string>, k: nat, i: nat, sub: string, ahead: nat)
    requires k <= i < |chunks| && Streamable(Stream(fix, chunks)) && SpillAt(fix, chunks, i)
    requires var q := Parse(Stream(fix, chunks[..k])); sub == Out(Relaxed, q) + Crlfs(ahead) && ahead <= Held(Relaxed, q)
    ensures |sub| <= Reached(Relaxed, fix, chunks, i + 1)
  {
    hide Parse, Out, Held, Stream, Crlfs, Streamable, AtBlank, OnlyBreaks, SpillCut;
    var s, t := Stream(fix, chunks[..i + 1]), Stream(fix, chunks[..k]);
    StreamPrefix(fix, chunks, i + 1);
    StreamableUpto(Stream(fix, chunks), s);
    StreamUpto(fix, chunks, k, i + 1);
    assert s[..|t|] == t;
    Released(Relaxed, s, |t|);
    SpillHasSpace(fix, chunks, k, i);
    CrlfsPrefix(ahead, Held(Relaxed, Parse(t)));
  }

  lemma SpillHasSpace(fix: bool, chunks: seq<string>, k: nat, i: nat)
    requires k <= i < |chunks| && SpillAt(fix, chunks, i)
    ensures var s, t := Stream(fix, chunks[..i + 1]), Stream(fix, chunks[..k]); |t| < |s| && !OnlyBreaks(s[|t|..])
  {
    hide Stream, FixFrom, OnlyBreaks;
    var s, b, t := Stream(fix, chunks[..i + 1]), Stream(fix, chunks[..i]), Stream(fix, chunks[..k]);
    StreamTake(fix, chunks, i);
    StreamUpto(fix, chunks, k, i);
    FixLength(Last(b), chunks[i]);
    assert |s| >= |b| + 2;
    assert s[|t|..][|s| - 2 - |t|] == s[|s| - 2];
    SpaceNoBreak(s[|t|..], s[|s| - 2]);
  }

  lemma SpaceNoBreak(s: string, x: char)
    requires x in s && IsLwsp(x)
    ensures !OnlyBreaks(s)
  {
  }

  // ---------- When the hash is the right one ----------

  /** What the automaton reads, with the LF that a CR at its end lacks, is the body. */
  lemma StreamIsBody(fix: bool, chunks: seq<string>)
    requires fix || Paired(Concat(chunks))
    ensures Streamable(Stream(fix, chunks)) && Complete(Stream(fix, chunks)) == Body(fix, chunks)
  {
    hide Streamable, Last;
    if fix {
      StreamRepairs(chunks);
    } else {
      StreamPlain(chunks);
    }
  }

  lemma EarlySeen(mode: Mode, fix: bool, chunks: seq<string>, length: int, ahead: nat)
    requires AheadIs(mode, fix, chunks, |chunks|, ahead)
    ensures NoEarly(mode, fix, chunks, length) <==> Within(length, Reached(mode, fix, chunks, |chunks|)) || ahead == 0
  {
    hide EarlyBy, Reached;
    if ahead > 0 {
      var j :| 0 <= j < |chunks| && EarlyBy(mode, fix, chunks, j, |chunks|);
    }
  }

  lemma RelaxedVerdict(fix: bool, chunks: seq<string>, length: int, k: nat, sub: string, due: string, ahead: nat,
                       spilt: Option<nat>)
    requires Stopped(Relaxed, fix, chunks, length, k, sub, due, ahead, spilt) && (fix || Paired(Concat(chunks)))
    ensures Cut(length, sub) == Cut(length, Canonical(Relaxed, Body(fix, chunks))) <==>
            NoSpill(fix, chunks, length) && NoEarly(Relaxed, fix, chunks, length) && TailFits(fix, chunks, length)
  {
    hide Parse, Out, Held, Stream, Crlfs, Streamable, AtBlank, SpillAt, EarlyBy, Canonical, Body, TailOk, Blank;
    StreamIsBody(fix, chunks);
    if spilt.Some? && !Within(length, spilt.value) {
      SpillShows(fix, chunks, length, k, sub, due, ahead, spilt.value);
    } else {
      NoneSpilt(fix, chunks, length, k, sub, due, ahead, spilt);
      Settle(Relaxed, fix, chunks, length, k, sub, due, ahead, spilt);
      assert chunks[..|chunks|] == chunks;
      var q, r := Parse(Stream(fix, chunks)), Canonical(Relaxed, Body(fix, chunks));
      var out := Out(Relaxed, q);
      WholeRelaxed(Stream(fix, chunks));
      CutsAgree(length, out, r);
      if !Within(length, |out|) {
        EarlySeen(Relaxed, fix, chunks, length, ahead);
        if ahead > 0 {
          Longer(length, out, Crlfs(ahead), r);
        } else {
          NoCrlfs(out);
        }
      }
    }
  }

  /** Two texts of which one starts with the other, cut at the same limit. */
  lemma CutsAgree(length: int, a: string, b: string)
    requires length >= -1 && (a <= b || b <= a)
    ensures Cut(length, a) == Cut(length, b) <==> a == b || (Within(length, |a|) && Within(length, |b|))
  {
    if length == -1 || length > |a| || length > |b| {
      if Cut(length, a) == Cut(length, b) {
        assert |a| == |b|;
      }
    }
  }

  lemma Longer(length: int, a: string, more: string, b: string)
    requires length >= -1 && !Within(length, |a|) && more != "" && |b| <= |a|
    ensures Cut(length, a + more) != Cut(length, b)
  {
    assert |Cut(length, a + more)| > |a| >= |Cut(length, b)|;
  }

  lemma SimpleVerdict(fix: bool, chunks: seq<string>, length: int, k: nat, sub: string, due: string, ahead: nat,
                      wrote: bool)
    requires Stopped(Simple, fix, chunks, length, k, sub, due, ahead, None) && (fix || Paired(Concat(chunks)))
    requires k < |chunks| ==> length == 0 || wrote
    requires k == |chunks| && length != 0 && Parse(Stream(fix, chunks)).cur == "" ==> (wrote <==> sub != "")
    requires k == |chunks| && length != 0 ==> KeptIs(fix, chunks, k, !wrote, sub)
    ensures Cut(length, sub + if wrote then "" else CRLF) == Cut(length, Canonical(Simple, Body(fix, chunks))) <==>
            NoEarly(Simple, fix, chunks, length) && EndFits(fix, chunks, length)
  {
    hide Parse, Out, Held, Stream, Crlfs, Streamable, AtBlank, EarlyBy, Body, WrittenAt, SimpleBody;
    StreamIsBody(fix, chunks);
    Settle(Simple, fix, chunks, length, k, sub, due, ahead, None);
    assert chunks[..|chunks|] == chunks;
    var q, r := Parse(Stream(fix, chunks)), SimpleBody(Body(fix, chunks));
    var out := Out(Simple, q);
    WholeSimple(Stream(fix, chunks));
    assert sub + "" == sub;
    if Within(length, |out|) {
      CutPrefix(length, sub, sub + CRLF);
      CutPrefix(length, out, r);
    } else {
      EarlySeen(Simple, fix, chunks, length, ahead);
      if AtBlank(Simple, q) {
        BlankSimple(q);
        assert wrote by { if k == |chunks| { assert sub != ""; } }
        if ahead > 0 {
          Longer(length, out, Crlfs(ahead), r);
        } else {
          NoCrlfs(out);
        }
      } else {
        NoCrlfs(out);
        CutsAgree(length, out, out + CRLF);
      }
    }
  }

  lemma BlankSimple(q: Pos)
    requires AtBlank(Simple, q)
    ensures q.cur == "" && Out(Simple, q) != ""
  {
    LinesOut(q);
  }

  lemma AfterRun(c: Canon, chunks: seq<string>, k: nat)
    requires k <= |chunks| && ReadOk(c, chunks, k) && (c.remain != 0 ==> k == |chunks|)
    requires Streamable(Stream(c.fixcrlf, chunks)) && c.length >= -1
    ensures Stopped(c.mode, c.fixcrlf, chunks, c.length, k, c.submitted, c.due, c.ahead, c.spilt)
    ensures k < |chunks| ==> c.length == 0 || c.wrote != 0
    ensures c.mode.Simple? ==> c.spilt == None
    ensures c.mode.Simple? && c.length != 0 ==> KeptIs(c.fixcrlf, chunks, k, c.wrote == 0, c.submitted)
    ensures c.mode.Simple? && c.length != 0 && Parse(Stream(c.fixcrlf, chunks[..k])).cur == "" ==>
              (c.wrote != 0 <==> c.submitted != "")
  {
    hide Parse, Out, Held, Stream, Crlfs, Streamable, AtBlank, Due, AheadIs, SpiltIs, KeptIs, LimitLaw;
    StreamPrefix(c.fixcrlf, chunks, k);
    StreamableUpto(Stream(c.fixcrlf, chunks), c.seen);
    c.WroteFits();
    if c.length != 0 {
      c.WroteKept();
    }
  }

  /** One canonicalization, over a body cut into any chunks: dkim_canon_bodychunk for each of them, then
      dkim_canon_closebody. */
  method HashBody(mode: Mode, length: int, fixcrlf: bool, chunks: seq<string>) returns (hash: string, wrote: nat)
    requires length >= -1 && (fixcrlf || Paired(Concat(chunks)))
    ensures mode.Simple? ==>
              (hash == Cut(length, Canonical(mode, Body(fixcrlf, chunks))) <==>
               NoEarly(mode, fixcrlf, chunks, length) && EndFits(fixcrlf, chunks, length))
    ensures mode.Relaxed? ==>
              (hash == Cut(length, Canonical(mode, Body(fixcrlf, chunks))) <==>
               NoSpill(fixcrlf, chunks, length) && NoEarly(mode, fixcrlf, chunks, length) &&
               TailFits(fixcrlf, chunks, length))
    ensures wrote == |hash|
  {
    hide *;
    var c := new Canon(mode, length, fixcrlf);
    StreamIsBody(fixcrlf, chunks);
    ghost var k := Run(c, chunks);
    AfterRun(c, chunks, k);
    RunVerdict(c, chunks, k);
    ReadIsOk(c, chunks, k);
    c.CloseBody();
    hash, wrote := c.hash, c.wrote;
  }

  lemma ReadIsOk(c: Canon, chunks: seq<string>, k: nat)
    requires k <= |chunks| && ReadOk(c, chunks, k)
    ensures c.BufferOk() && !c.done
  {
  }

  lemma RunVerdict(c: Canon, chunks: seq<string>, k: nat)
    requires Stopped(c.mode, c.fixcrlf, chunks, c.length, k, c.submitted, c.due, c.ahead, c.spilt)
    requires c.fixcrlf || Paired(Concat(chunks))
    requires k < |chunks| ==> c.length == 0 || c.wrote != 0
    requires c.mode.Simple? ==> c.spilt == None
    requires c.mode.Simple? && c.length != 0 ==> KeptIs(c.fixcrlf, chunks, k, c.wrote == 0, c.submitted)
    requires c.mode.Simple? && c.length != 0 && Parse(Stream(c.fixcrlf, chunks[..k])).cur == "" ==>
               (c.wrote != 0 <==> c.submitted != "")
    ensures var right := Cut(c.length, c.submitted + if c.mode.Simple? && c.wrote == 0 then CRLF else "")
                         == Cut(c.length, Canonical(c.mode, Body(c.fixcrlf, chunks)));
            && (c.mode.Simple? ==> (right <==> NoEarly(c.mode, c.fixcrlf, chunks, c.length) && EndFits(c.fixcrlf, chunks, c.length)))
            && (c.mode.Relaxed? ==> (right <==> NoSpill(c.fixcrlf, chunks, c.length) &&
                                                NoEarly(c.mode, c.fixcrlf, chunks, c.length) &&
                                                TailFits(c.fixcrlf, chunks, c.length)))
  {
    hide *;
    assert chunks[..|chunks|] == chunks;
    assert c.submitted + "" == c.submitted;
    if c.mode.Simple? {
      BoundK(c.mode, c.fixcrlf, chunks, c.length, k, c.submitted, c.due, c.ahead, c.spilt);
      SimpleVerdict(c.fixcrlf, chunks, c.length, k, c.submitted, c.due, c.ahead, c.wrote != 0);
    } else {
      RelaxedVerdict(c.fixcrlf, chunks, c.length, k, c.submitted, c.due, c.ahead, c.spilt);
    }
  }

  lemma BoundK(mode: Mode, fix: bool, chunks: seq<string>, length: int, k: nat, sub: string, due: string, ahead: nat,
               spilt: Option<nat>)
    requires Stopped(mode, fix, chunks, length, k, sub, due, ahead, spilt)
    ensures k <= |chunks|
  {
  }

  /** A body that is empty or ends in a CRLF, with no cut between a bare CR and its repair: the simple hash is right. */
  lemma SimpleRight(fix: bool, chunks: seq<string>, length: int)
    requires Streamable(Stream(fix, chunks))
    requires Stream(fix, chunks) == "" || Last(Stream(fix, chunks)) == '\n'
    requires fix ==> BareCuts('\0', chunks) == 0
    ensures NoEarly(Simple, fix, chunks, length) && EndFits(fix, chunks, length)
  {
    hide Stream, Streamable, AtBlank, Parse, Out, OnlyBreaks, Quiet, Piece;
    var s := Stream(fix, chunks);
    forall i | 0 <= i < |chunks|
      ensures !EarlyBy(Simple, fix, chunks, i, |chunks|)
    {
      if fix && chunks[i] != "" && chunks[i][0] != '\n' {
        NoBareCut('\0', chunks, i);
        StreamLast(chunks[..i]);
      }
    }
    if s == "" {
      assert chunks[..|chunks|] == chunks;
      Nothing(Simple);
      forall i | 0 <= i < |chunks|
        ensures !WrittenAt(fix, chunks, i)
      {
        ReachedMore(Simple, fix, chunks, i + 1, |chunks|);
      }
    } else {
      EndsBlank(s);
    }
  }

  lemma EndsBlank(s: string)
    requires Streamable(s) && Last(s) == '\n'
    ensures AtBlank(Simple, Parse(s))
  {
    hide Parse;
    ParseRebuilds(s);
    EmptyLine(Simple);
    assert Unlines([]) == "";
  }

  function LastByte(prev: char, s: string): (c: char) {
    if s == "" then prev else Last(s)
  }

  lemma {:induction false} NoBareCut(prev: char, chunks: seq<string>, i: nat)
    requires BareCuts(prev, chunks) == 0 && i < |chunks| && chunks[i] != "" && chunks[i][0] != '\n'
    ensures LastByte(prev, Concat(chunks[..i])) != '\r'
    decreases i
  {
    hide Concat;
    if i == 0 {
      ConcatNothing();
      assert chunks[..0] == [];
    } else {
      var next := if chunks[0] == "" then prev else Last(chunks[0]);
      NoBareCut(next, chunks[1..], i - 1);
      ConcatCons(chunks[..i]);
      assert chunks[..i][1..] == chunks[1..][..i - 1];
    }
  }
}
