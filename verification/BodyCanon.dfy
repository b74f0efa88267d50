/** The streaming body canonicaliser: a write buffer that applies the l= limit, fed by a per-byte automaton. */
module BodyCanon {
  import opened Text
  import opened BodySpec
  import opened BodyWindow
  import opened CrlfRepair

  const DKIM_HASHBUFSIZE: nat := 4096

  lemma CutConcat(limit: int, a: string, b: string)
    requires limit >= -1
    ensures Cut(limit, a + b) ==
            Cut(limit, a) + Cut(if limit == -1 then -1 else limit - |Cut(limit, a)|, b)
  {
    if 0 <= limit {
      if |a| >= limit {
        assert (a + b)[..limit] == a[..limit];
      } else if |a + b| > limit {
        assert (a + b)[..limit] == a + b[..limit - |a|];
      }
    }
  }

  /** Bytes hashed, followed by bytes buffered, are the submissions in order; the hashed ones are cut at the limit. */
  ghost predicate LimitLaw(limit: int, hash: string, held: string, submitted: string) {
    && limit >= -1
    && |held| <= |submitted|
    && submitted[|submitted| - |held|..] == held
    && hash == Cut(limit, submitted[..|submitted| - |held|])
  }

  lemma LawHold(limit: int, hash: string, held: string, submitted: string, buf: string)
    requires LimitLaw(limit, hash, held, submitted)
    ensures LimitLaw(limit, hash, held + buf, submitted + buf)
  {
    var s := submitted + buf;
    assert s[..|s| - |held + buf|] == submitted[..|submitted| - |held|];
  }

  lemma LawHeld(limit: int, hash: string, held: string, submitted: string)
    requires LimitLaw(limit, hash, held, submitted)
    ensures |held| <= |submitted|
    ensures hash == "" && limit != 0 <==> held == submitted && limit != 0
  {
    if |held| == |submitted| {
      assert submitted[0..] == submitted;
    }
  }

  lemma LawKept(limit: int, hash: string, held: string, submitted: string)
    requires LimitLaw(limit, hash, held, submitted) && |held| == |submitted|
    ensures hash == ""
  {
  }

  lemma LawWrite(limit: int, hash: string, held: string, submitted: string)
    requires LimitLaw(limit, hash, held, submitted)
    ensures var hash' := hash + Cut(if limit == -1 then -1 else limit - |hash|, held);
            LimitLaw(limit, hash', "", submitted) && (limit >= 0 ==> |hash'| <= limit)
  {
    var m := |submitted| - |held|;
    CutConcat(limit, submitted[..m], submitted[m..]);
    assert submitted[..m] + submitted[m..] == submitted == submitted[..|submitted|];
  }

  lemma NoCrlfs(s: string)
    ensures s + Crlfs(0) == s
  {
  }

  lemma CrlfsAdd(s: string, m: nat, n: nat)
    ensures s + Crlfs(m) + Crlfs(n) == s + Crlfs(m + n)
  {
    if n > 0 {
      CrlfsAdd(s, m, n - 1);
      Associative(s + Crlfs(m), Crlfs(n - 1), CRLF);
      Associative(s, Crlfs(m + n - 1), CRLF);
    } else {
      NoCrlfs(s + Crlfs(m));
    }
  }

  /** The LF that a CR waits for, at the start of a chunk. */
  function Answered(first: bool, lastchar: char): (lf: string) {
    if first && lastchar == '\r' then "\n" else ""
  }

  function Before(fix: bool, lastchar: char, buf: string): (lf: string) {
    Answered(fix && buf != "" && buf[0] != '\n', lastchar)
  }

  /** What is read of a chunk, in terms of its repair. */
  lemma FixedPiece(fix: bool, prev: char, seen: string, chunk: string)
    ensures var buf, piece := if fix then FixFrom(prev, chunk) else chunk, Piece(fix, prev, chunk);
            && Before(fix, prev, buf) + buf == piece
            && (Before(fix, prev, buf) != "" <==> fix && chunk != "" && Owed(prev, chunk) != "")
            && (OnlyBreaks(buf) <==> OnlyBreaks(piece)) && (Quiet(buf) <==> Quiet(piece))
            && (SpillCut(seen + piece, |buf|) <==> SpillCut(seen + piece, |chunk|))
  {
    hide OnlyBreaks, SpillCut, FixFrom, Quiet;
    var buf, piece := if fix then FixFrom(prev, chunk) else chunk, Piece(fix, prev, chunk);
    if !fix {
      assert "" + buf == buf;
    } else if chunk == "" {
      EmptyFix(prev);
      assert "" + buf == buf;
    } else {
      FixedHead(prev, chunk);
      FixedSpill(prev, seen + Before(fix, prev, buf), chunk);
      Associative(seen, Before(fix, prev, buf), buf);
    }
  }

  lemma FixedHead(prev: char, chunk: string)
    requires chunk != ""
    ensures var buf := FixFrom(prev, chunk);
            && Before(true, prev, buf) == Owed(prev, chunk)
            && (OnlyBreaks(buf) <==> OnlyBreaks(Owed(prev, chunk) + buf))
            && (Quiet(buf) <==> Quiet(Owed(prev, chunk) + buf))
  {
    hide OnlyBreaks, Quiet, FixFrom;
    var buf := FixFrom(prev, chunk);
    FixHead(prev, chunk);
    BreaksOne(buf);
    QuietOne(buf);
    assert "" + buf == buf;
  }

  lemma FixedSpill(prev: char, seen: string, chunk: string)
    requires chunk != ""
    ensures var buf := FixFrom(prev, chunk); SpillCut(seen + buf, |buf|) <==> SpillCut(seen + buf, |chunk|)
  {
    hide SpillCut, FixFrom;
    FixLength(prev, chunk);
    if |chunk| == 1 {
      ShortFix(prev, chunk);
    }
    ShortSpill(seen, FixFrom(prev, chunk), |chunk|);
  }

  /** More than the buffer holds, or as much and a line break at the end. */
  predicate Over(s: string) {
    |s| > DKIM_HASHBUFSIZE || (|s| == DKIM_HASHBUFSIZE && Last(s) == '\n')
  }

  lemma OverGrows(s: string, t: string)
    requires s <= t && Over(s)
    ensures Over(t)
  {
    if |s| == |t| {
      assert s == t;
    }
  }

  lemma LargeIsOver(s: string)
    ensures |s| > DKIM_HASHBUFSIZE ==> Over(s)
  {
  }

  lemma OverLarge(s: string)
    ensures Over(s) ==> |s| >= DKIM_HASHBUFSIZE
  {
  }

  lemma LineBegins(buf: string)
    ensures buf[..0] == "" && InLine(buf, 0, 0, 0)
  {
  }

  lemma OverPiece(s: string, piece: string)
    requires |piece| >= DKIM_HASHBUFSIZE || |s + piece| > DKIM_HASHBUFSIZE
    requires piece != "" && piece[|piece| - 1] == '\n'
    ensures Over(s + piece)
  {
  }

  lemma InLineNext(buf: string, p: nat, start: nat, wlen: nat)
    requires p < |buf|
    ensures buf[p] != '\n' && InLine(buf, p, start, wlen) ==> InLine(buf, p + 1, start, wlen + 1)
    ensures buf[p] == '\n' ==> InLine(buf, p + 1, p + 1, 0)
  {
    if InLine(buf, p, start, wlen) {
      assert buf[start..p + 1] == buf[start..p] + [buf[p]];
    }
  }

  function WithoutCr(buf: string): (r: string) {
    if Last(buf) == '\r' then buf[..|buf| - 1] else buf
  }

  /** A chunk at whose end the simple automaton has nothing more to submit, and so empties its buffer. */
  predicate Quiet(chunk: string) {
    WithoutCr(chunk) == "" || Last(WithoutCr(chunk)) == '\n'
  }

  /** The simple automaton's window starts where the line does. */
  predicate InLine(buf: string, p: nat, start: nat, wlen: nat) {
    start + wlen == p <= |buf| && (start > 0 ==> buf[start - 1] == '\n') && '\n' !in buf[start..p]
  }

  lemma LastInLine(buf: string, start: nat, wlen: nat, n: nat)
    requires InLine(buf, |buf|, start, wlen)
    requires n == if wlen > 0 && buf[start + wlen - 1] == '\r' then wlen - 1 else wlen
    ensures start + n == |WithoutCr(buf)| && (n == 0 <==> Quiet(buf)) && (start > 0 ==> buf[start - 1] == '\n')
    ensures '\n' !in buf[start..start + n]
  {
    var b := WithoutCr(buf);
    assert forall i :: start <= i < |buf| ==> buf[i] in buf[start..|buf|];
    if n > 0 {
      assert Last(b) == b[start + n - 1] == buf[start + n - 1];
    }
  }

  /** When what goes out at the end of a chunk is all there is: it is the first, and a single line without an end. */
  lemma OnePiece(s0: string, first: string, buf: string, start: nat, n: nat, sub: string, a: nat)
    requires Streamable(s0 + first + buf) && start + n == |WithoutCr(buf)| && (start > 0 ==> buf[start - 1] == '\n')
    requires '\n' !in buf[start..start + n] && 0 < n <= |sub| && buf[start..start + n] == sub[|sub| - n..]
    requires (first == "" || first == "\n")
    requires var q := Parse(s0 + first + buf); a <= Held(Simple, q) && sub == Out(Simple, q) + Crlfs(a)
    ensures n == |sub| <==> s0 == "" && Parse(s0 + first + buf).lines == [] && |sub| > 0
  {
    hide Parse, Out, Held, Crlfs, Streamable;
    var s := s0 + first + buf;
    var q := Parse(s);
    ParseRebuilds(s);
    assert forall c :: c in Out(Simple, q) ==> c in sub;
    assert first != "" ==> s[|s0|] == '\n';
    assert start > 0 ==> s[|s0 + first| + start - 1] == '\n';
    if q.lines == [] {
      OneLineOut(s, a);
      assert s == sub || s == sub + "\r";
      assert '\n' !in s;
      assert |WithoutCr(buf)| == n && Last(s) == Last(buf);
    } else {
      LinesOut(q);
    }
  }

  lemma OneLineOut(s: string, a: nat)
    requires Streamable(s) && Parse(s).lines == [] && a <= Held(Simple, Parse(s))
    ensures a == 0 && '\n' !in Parse(s).cur
    ensures Out(Simple, Parse(s)) + Crlfs(a) == Parse(s).cur && s == Parse(s).cur + if Last(s) == '\r' then "\r" else ""
  {
    hide Parse;
    ParseRebuilds(s);
    var q := Parse(s);
    assert q.lines[..0] == [];
    assert Emit(Simple, []) == "" && Unlines([]) == "";
  }

  lemma LinesOut(q: Pos)
    requires q.lines != []
    ensures '\n' in Out(Simple, q)
  {
    var kept := q.lines[..|q.lines| - Held(Simple, q)];
    assert kept != [] by { HeldFewer(q.lines); }
    assert Emit(Simple, kept) == Emit(Simple, kept[..|kept| - 1]) + LineOut(Simple, kept[|kept| - 1]) + CRLF;
    assert CRLF[1] in CRLF;
  }

  lemma HeldFewer(lines: seq<string>)
    requires lines != []
    ensures Pending(Simple, lines) < |lines|
  {
  }

  lemma BreaksOne(s: string)
    ensures OnlyBreaks("\n" + s) <==> OnlyBreaks(s)
  {
    assert ("\n" + s)[1..] == s;
    if OnlyBreaks("\n" + s) {
      assert forall c :: c in s ==> c in "\n" + s;
    }
  }

  lemma QuietOne(s: string)
    requires s != ""
    ensures Quiet("\n" + s) <==> Quiet(s)
  {
    assert WithoutCr("\n" + s) == "\n" + WithoutCr(s);
  }

  lemma FixHead(prev: char, chunk: string)
    requires chunk != ""
    ensures FixFrom(prev, chunk) != "" && (prev == '\r' ==> (FixFrom(prev, chunk)[0] == '\n' <==> chunk[0] == '\n'))
  {
  }

  lemma {:induction false} FixLength(prev: char, chunk: string)
    ensures |FixFrom(prev, chunk)| >= |chunk|
    decreases |chunk|
  {
    if chunk != "" {
      FixLength(chunk[0], chunk[1..]);
    }
  }

  lemma ShortFix(prev: char, chunk: string)
    requires |chunk| == 1
    ensures FixFrom(prev, chunk) == if chunk[0] == '\n' && prev != '\r' then CRLF else chunk
  {
    EmptyFix(chunk[0]);
    assert chunk[1..] == "" && chunk == [chunk[0]];
  }

  lemma ShortSpill(seen: string, buf: string, n: nat)
    requires n <= |buf| && (n == 0 ==> buf == "") && (n == 1 ==> |buf| == 1 || buf == CRLF)
    ensures SpillCut(seen + buf, |buf|) <==> SpillCut(seen + buf, n)
  {
    if buf == CRLF {
      assert (seen + buf)[|seen| + 1] == '\n';
    }
  }

  lemma NothingDue(mode: Mode, length: int)
    requires length >= -1
    ensures LimitLaw(length, "", "", "") && Due(mode, Parse(""), "", None, "") && Last("") == '\0'
  {
    hide Parse, Out, LineOut, Held, AtBlank;
    Nothing(mode);
    assert ""[0..] == "" && ""[..0] == "";
  }

  class Canon {
    const mode: Mode
    const length: int              // canon_length: the l= limit, -1 when there is none
    const fixcrlf: bool            // repair bare CRs and LFs (when signing)
    const hashbuf: array<char>
    var hashbuflen: nat
    var remain: int
    var wrote: nat
    var hash: string               // the bytes fed to the hash so far
    var lastchar: char
    var blankline: bool
    var blanks: nat
    var done: bool
    ghost var submitted: string    // everything handed to Buffer
    ghost var seen: string         // every body byte the automaton has read, with the LFs that repair a CR at a cut
    ghost var due: string          // what should have been submitted,
    ghost var ahead: nat           // and how many blank lines have been submitted that should have been held back
    ghost var spilt: Option<nat>   // where a chunk that ended in a SpillCut has put a byte too many, the first time

    ghost predicate BufferOk()
      reads `hashbuflen, `hash, `submitted, `wrote, `remain, hashbuf
    {
      && hashbuflen <= hashbuf.Length == DKIM_HASHBUFSIZE
      && LimitLaw(length, hash, hashbuf[..hashbuflen], submitted)
      && wrote == |hash|
      && remain == (if length == -1 then -1 else length - wrote) >= -1
    }

    /** Nothing has left the buffer. */
    ghost predicate Kept()
      reads `hashbuflen, `submitted
    {
      hashbuflen == |submitted|
    }

    lemma KeptFits()
      requires BufferOk()
      ensures Kept() ==> |submitted| <= DKIM_HASHBUFSIZE
    {
    }

    lemma WroteFits()
      requires BufferOk()
      ensures wrote <= |submitted| && (remain == 0 ==> length == wrote) && (hashbuflen == 0 && length != 0 ==> (wrote == 0 <==> submitted == ""))
    {
    }

    lemma WroteKept()
      requires BufferOk() && length != 0
      ensures wrote == 0 <==> Kept()
    {
      hide LimitLaw;
      LawHeld(length, hash, hashbuf[..hashbuflen], submitted);
      if Kept() {
        LawKept(length, hash, hashbuf[..hashbuflen], submitted);
      }
    }

    constructor (mode: Mode, length: int, fixcrlf: bool)
      requires length >= -1
      ensures BufferOk() && BodyOk() && fresh(hashbuf)
      ensures this.mode == mode && this.length == length && this.fixcrlf == fixcrlf
      ensures submitted == [] && seen == [] && spilt == None && ahead == 0 && !done && hashbuflen == 0 && wrote == 0
    {
      hide Parse, Out, LineOut, Held, AtBlank, Streamable, Due, LimitLaw, Last;
      this.mode, this.length, this.fixcrlf := mode, length, fixcrlf;
      hashbuf := new char[DKIM_HASHBUFSIZE];
      hashbuflen, remain, wrote, hash := 0, length, 0, [];
      lastchar, blankline, blanks, done := '\0', false, 0, false;
      submitted, seen, due, ahead, spilt := [], [], [], 0, None;
      Nothing(mode);
      NothingDue(mode, length);
      new;
      assert hashbuf[..0] == "";
    }

    /** dkim_canon_write */
    method Write(buf: string)
      requires remain >= -1
      modifies `hash, `wrote, `remain
      ensures hash == old(hash) + Cut(old(remain), buf)
      ensures wrote == old(wrote) + |Cut(old(remain), buf)|
      ensures remain == if old(remain) == -1 then -1 else old(remain) - |Cut(old(remain), buf)|
    {
      var buflen := |buf|;
      if remain != -1 {
        buflen := if buflen < remain then buflen else remain;
      }
      if buflen == 0 {
        return;
      }
      hash := hash + buf[..buflen];
      wrote := wrote + buflen;
      if remain != -1 {
        remain := remain - buflen;
      }
    }

    method Drain()
      requires BufferOk()
      modifies `hash, `wrote, `remain, `hashbuflen
      ensures BufferOk() && hashbuflen == 0
    {
      LawWrite(length, hash, hashbuf[..hashbuflen], submitted);
      Write(hashbuf[..hashbuflen]);
      hashbuflen := 0;
      assert hashbuf[..0] == "";
    }

    /** dkim_canon_buffer: an empty submission means flush. */
    method Buffer(buf: string)
      requires BufferOk()
      modifies `hash, `wrote, `remain, `hashbuflen, `submitted, hashbuf
      ensures BufferOk()
      ensures submitted == old(submitted) + buf
      ensures buf == [] ==> hashbuflen == 0
      ensures Kept() <==> old(Kept()) && (buf == "" ==> submitted == "") &&
                          |submitted| <= DKIM_HASHBUFSIZE && |buf| < DKIM_HASHBUFSIZE
    {
      hide LimitLaw, Kept;
      KeptMeans();
      if buf == [] {
        if hashbuflen > 0 {
          Drain();
        }
        KeptMeans();
        return;
      }
      if hashbuflen + |buf| > hashbuf.Length {
        Drain();
      }
      KeptMeans();
      if |buf| >= hashbuf.Length {
        Pass(buf);
      } else {
        LawHold(length, hash, hashbuf[..hashbuflen], submitted, buf);
        submitted := submitted + buf;
        Cache(buf);
      }
      KeptMeans();
    }

    /** More than the buffer can ever hold goes out directly; the buffer is empty then. */
    method Pass(buf: string)
      requires BufferOk() && hashbuflen == 0
      modifies `hash, `wrote, `remain, `submitted
      ensures BufferOk() && submitted == old(submitted) + buf
    {
      hide LimitLaw;
      LawHold(length, hash, hashbuf[..hashbuflen], submitted, buf);
      submitted := submitted + buf;
      assert hashbuf[..hashbuflen] + buf == buf && hashbuf[..hashbuflen] == "";
      LawWrite(length, hash, buf, submitted);
      Write(buf);
    }

    lemma KeptMeans()
      requires BufferOk()
      ensures Kept() <==> hashbuflen == |submitted|
      ensures hashbuflen <= |submitted|
    {
      hide LimitLaw;
      LawHeld(length, hash, hashbuf[..hashbuflen], submitted);
    }

    method Cache(buf: string)
      requires hashbuflen + |buf| <= hashbuf.Length
      modifies `hashbuflen, hashbuf
      ensures hashbuflen == old(hashbuflen) + |buf|
      ensures hashbuf[..hashbuflen] == old(hashbuf[..hashbuflen]) + buf
    {
      forall i | 0 <= i < |buf| {
        hashbuf[hashbuflen + i] := buf[i];
      }
      hashbuflen := hashbuflen + |buf|;
    }

    /** dkim_canon_flushblanks */
    method FlushBlanks()
      requires BufferOk()
      modifies `hash, `wrote, `remain, `hashbuflen, `submitted, `blanks, hashbuf
      ensures BufferOk()
      ensures submitted == old(submitted) + Crlfs(old(blanks)) && blanks == 0
      ensures Kept() <==> old(Kept()) && |submitted| <= DKIM_HASHBUFSIZE
    {
      var c := 0;
      assert submitted == submitted + Crlfs(0);
      while c < blanks
        invariant 0 <= c <= blanks && blanks == old(blanks) && BufferOk()
        invariant submitted == old(submitted) + Crlfs(c)
        invariant Kept() <==> old(Kept()) && |submitted| <= DKIM_HASHBUFSIZE
      {
        Buffer(CRLF);
        c := c + 1;
      }
      blanks := 0;
    }

    // ---------- The automaton ----------

    /** What the fields say about the bytes read, as long as every CR and LF among them belongs to a CRLF. */
    ghost predicate FieldsOk()
      reads this
    {
      var q := Parse(seen);
      && lastchar == Last(seen)
      && blankline == AtBlank(mode, q)
      && blanks + ahead == Held(mode, q)
      && submitted == due + Crlfs(ahead)
      && (mode.Simple? ==> spilt == None)
      && (!fixcrlf ==> ahead == 0)
    }

    /** Between chunks: everything due has been submitted. */
    ghost predicate BodyOk()
      reads this
    {
      Streamable(seen) ==> FieldsOk() && Due(mode, Parse(seen), due, spilt, "")
    }

    /** Within a chunk, p bytes into it: the window of wlen bytes at index start is still to be submitted. */
    ghost predicate InChunk(buf: string, p: nat, start: nat, wlen: nat)
      reads this
    {
      && p <= |buf| && start + wlen <= p
      && (Streamable(seen) ==> FieldsOk() && WindowOk(mode, seen, due, spilt, buf, p, start, wlen))
    }

    /** The line break branch, the same in both forms. */
    method ReadNewline(buf: string, p: nat, start: nat, wlen: nat) returns (start': nat, wlen': nat)
      requires BufferOk() && p < |buf| && InChunk(buf, p, start, wlen) && buf[p] == '\n'
      modifies `hash, `wrote, `remain, `hashbuflen, `submitted, `due, `blanks, `blankline, `lastchar, `seen, hashbuf
      ensures BufferOk() && InChunk(buf, p + 1, start', wlen')
      ensures seen == old(seen) + [buf[p]]
      ensures Streamable(seen) ==> wlen' == 0 && start' == p + 1
      ensures old(submitted) <= submitted && (Kept() ==> old(Kept()))
      ensures mode.Simple? && Streamable(seen) ==> (old(Kept()) ==> Kept() || Over(submitted))
    {
      hide Parse, Out, LineOut, Held, Streamable, WindowOk, BufferOk, Crlfs, AtBlank, Over, Kept;
      ghost var s := seen;
      StreamableInit(s, '\n');
      if Streamable(s + ['\n']) {
        Advance(mode, s, '\n');
        ReadLf(mode, s);
        WindowLf(mode, s, due, spilt, buf, p, start, wlen);
        if mode.Simple? {
          WindowFull(s, due, spilt, buf, p, start, wlen);
        }
        NoCrlfs(due);
      }
      start', wlen' := start, wlen;
      if lastchar == '\r' {
        EndLine(buf, p, start, wlen);
        NoCrlfs(submitted);
        start' := p + 1;
        wlen' := 0;
        blankline := true;
      }
      lastchar := buf[p];
      seen := seen + [buf[p]];
    }

    /** A blank line is held back; any other is completed. */
    method EndLine(buf: string, p: nat, start: nat, wlen: nat)
      requires BufferOk() && start + wlen <= p < |buf| && buf[p] == '\n'
      modifies `hash, `wrote, `remain, `hashbuflen, `submitted, `due, `blanks, hashbuf
      ensures BufferOk()
      ensures blankline ==> blanks == old(blanks) + 1 && submitted == old(submitted) && due == old(due)
      ensures !blankline ==>
                && blanks == old(blanks)
                && submitted == due == old(submitted) + if wlen == 1 || p == 0 then CRLF else buf[start..start + wlen + 1]
      ensures old(submitted) <= submitted && (Kept() ==> old(Kept()))
      ensures start + wlen == p || wlen == 1 || p == 0 ==> (old(Kept()) ==> Kept() || Over(submitted))
    {
      hide BufferOk, Over, Kept;
      if blankline {
        blanks := blanks + 1;
      } else {
        var text := if wlen == 1 || p == 0 then CRLF else buf[start..start + wlen + 1];
        Buffer(text);
        if old(Kept()) && !Kept() && (start + wlen == p || text == CRLF) {
          OverPiece(old(submitted), text);
        }
        due := submitted;
      }
    }

    /** A CR that the chunk before ended in has gone unanswered: repair it, or hash it as it is. The line break goes
        out at once, even if the line is blank. */
    method LoneCr(buf: string, p: nat, start: nat, wlen: nat)
      requires BufferOk() && p < |buf| && InChunk(buf, p, start, wlen) && buf[p] != '\n'
      modifies `hash, `wrote, `remain, `hashbuflen, `submitted, `due, `ahead, `blankline, `lastchar, `seen, hashbuf
      ensures BufferOk() && (Streamable(seen + [buf[p]]) ==> InChunk(buf, p, start, wlen))
      ensures old(submitted) <= submitted && (Kept() <==> old(Kept()) && |submitted| <= DKIM_HASHBUFSIZE)
      ensures p > 0 || old(lastchar) != '\r' ==>
                unchanged(`submitted) && unchanged(`seen) && unchanged(`ahead) && unchanged(`blankline) && unchanged(`lastchar)
      ensures p == 0 && old(lastchar) == '\r' && fixcrlf ==>
                && submitted == old(submitted) + CRLF && lastchar == '\n' && blankline
                && seen == old(seen) + "\n" && ahead == old(ahead) + (if old(blankline) then 1 else 0)
      ensures p == 0 && old(lastchar) == '\r' && !fixcrlf ==>
                submitted == old(submitted) + "\r" && unchanged(`seen) && unchanged(`ahead)
    {
      hide Parse, Out, LineOut, Held, Streamable, WindowOk, BufferOk, AtBlank, Crlfs;
      ghost var s, x := seen, buf[p];
      KeptFits();
      StreamableInit(s, x);
      if p == 0 && lastchar == '\r' {
        if fixcrlf {
          InLineBefore(buf, start, wlen);
          RepairCut(buf);
          StreamableInit(seen, x);
        } else {
          if Streamable(s + [x]) {
            Advance(mode, s, x);
          }
          Buffer("\r");
        }
      }
    }

    lemma InLineBefore(buf: string, start: nat, wlen: nat)
      requires InChunk(buf, 0, start, wlen)
      ensures start == wlen == 0
    {
    }

    /** The repair of such a CR. */
    method RepairCut(buf: string)
      requires BufferOk() && buf != "" && InChunk(buf, 0, 0, 0) && lastchar == '\r' && fixcrlf
      modifies `hash, `wrote, `remain, `hashbuflen, `submitted, `due, `ahead, `blankline, `lastchar, `seen, hashbuf
      ensures BufferOk() && (Streamable(seen) ==> InChunk(buf, 0, 0, 0))
      ensures submitted == old(submitted) + CRLF && lastchar == '\n' && blankline
      ensures seen == old(seen) + "\n" && ahead == old(ahead) + (if old(blankline) then 1 else 0)
      ensures Kept() <==> old(Kept()) && |submitted| <= DKIM_HASHBUFSIZE
    {
      hide Parse, Out, LineOut, Held, Streamable, WindowOk, BufferOk, AtBlank, Crlfs, Kept;
      ghost var s := seen;
      StreamableInit(s, '\n');
      if Streamable(s) {
        AtStart(s, buf, 0, 0);
        LoneLf(mode, s, due, spilt);
        NoCrlfs(due);
        CrlfsSnoc(ahead);
        NextLine(s + ['\n'], if blankline then due else due + CRLF, buf);
      }
      Buffer(CRLF);
      if blankline {
        ahead := ahead + 1;
      } else {
        due := due + CRLF;
      }
      lastchar := '\n';
      blankline := true;
      seen := seen + ['\n'];
    }

    lemma AtStart(s: string, buf: string, start: nat, wlen: nat)
      requires WindowOk(mode, s, due, spilt, buf, 0, start, wlen)
      ensures start == wlen == 0 && Due(mode, Parse(s), due, spilt, "")
    {
      hide Parse, Due, IsLwsp;
      assert buf[0..0] == "";
    }

    lemma NextLine(s: string, sub: string, buf: string)
      requires Due(mode, Parse(s), sub, spilt, "")
      ensures WindowOk(mode, s, sub, spilt, buf, 0, 0, 0)
    {
      hide Parse, Due, IsLwsp;
      assert buf[0..0] == "" && s[|s|..] == "" == buf[..0];
    }

    /** Any blank lines held back go out before what follows them. */
    method Release()
      requires BufferOk()
      modifies `hash, `wrote, `remain, `hashbuflen, `submitted, `due, `ahead, `blanks, hashbuf
      ensures BufferOk()
      ensures submitted == due == old(submitted) + Crlfs(old(blanks)) && blanks == 0 && ahead == 0
      ensures Kept() <==> old(Kept()) && |submitted| <= DKIM_HASHBUFSIZE
    {
      if blanks > 0 {
        FlushBlanks();
      } else {
        NoCrlfs(submitted);
      }
      due, ahead := submitted, 0;
    }

    /** And something else after them. */
    method ReleaseThen(text: string)
      requires BufferOk()
      modifies `hash, `wrote, `remain, `hashbuflen, `submitted, `due, `ahead, `blanks, hashbuf
      ensures BufferOk()
      ensures submitted == due == old(submitted) + Crlfs(old(blanks)) + text && blanks == 0 && ahead == 0
    {
      hide BufferOk;
      Release();
      Buffer(text);
      due := submitted;
    }

    method SimpleByte(buf: string, p: nat, start: nat, wlen: nat) returns (start': nat, wlen': nat)
      requires BufferOk() && p < |buf| && InChunk(buf, p, start, wlen) && mode.Simple? && buf[p] != '\n'
      modifies `hash, `wrote, `remain, `hashbuflen, `submitted, `due, `ahead, `blanks, `blankline, `lastchar, `seen, hashbuf
      ensures BufferOk() && InChunk(buf, p + 1, start', wlen')
      ensures seen == old(seen) + Answered(p == 0 && fixcrlf, old(lastchar)) + [buf[p]]
      ensures Streamable(seen) ==> ahead == if buf[p] == '\r' then old(ahead + Early(p)) else 0
      ensures start' == start && wlen' == wlen + 1
      ensures old(submitted) <= submitted && (Kept() <==> old(Kept()) && |submitted| <= DKIM_HASHBUFSIZE)
    {
      hide Parse, Out, LineOut, Held, Streamable, WindowOk, BufferOk, AtBlank, Crlfs, InChunk, Kept;
      InBounds(buf, p, start, wlen);
      LoneCr(buf, p, start, wlen);
      NoCrlfs(old(seen));
      SimpleRest(buf, p, start, wlen);
      start', wlen' := start, wlen + 1;
    }

    /** The rest of it, after LoneCr. */
    method SimpleRest(buf: string, p: nat, start: nat, wlen: nat)
      requires BufferOk() && mode.Simple? && start + wlen <= p < |buf| && buf[p] != '\n'
      requires Streamable(seen + [buf[p]]) ==> InChunk(buf, p, start, wlen)
      modifies `hash, `wrote, `remain, `hashbuflen, `submitted, `due, `ahead, `blanks, `blankline, `lastchar, `seen, hashbuf
      ensures BufferOk() && InChunk(buf, p + 1, start, wlen + 1)
      ensures seen == old(seen) + [buf[p]]
      ensures Streamable(seen) ==> ahead == if buf[p] == '\r' then old(ahead) else 0
      ensures old(submitted) <= submitted && (Kept() <==> old(Kept()) && |submitted| <= DKIM_HASHBUFSIZE)
    {
      hide Parse, Out, LineOut, Held, Streamable, WindowOk, BufferOk, AtBlank, Crlfs;
      ghost var s, x := seen, buf[p];
      KeptFits();
      StreamableInit(s, x);
      if Streamable(s + [x]) {
        SimpleStep(s, x, due, spilt, buf, p, start, wlen);
        CrlfsAdd(due, ahead, blanks);
        NoCrlfs(due + Crlfs(Held(mode, Parse(s))));
      }
      if buf[p] != '\r' {
        Release();
        blankline := false;
      }
      lastchar := buf[p];
      seen := seen + [buf[p]];
    }

    /** Whether a blank line is submitted at the start of a chunk that should be held back. */
    ghost function Early(p: nat): (n: nat)
      reads this
    {
      if p == 0 && fixcrlf && lastchar == '\r' && blankline then 1 else 0
    }

    method RelaxedByte(buf: string, p: nat, start: nat, wlen: nat) returns (start': nat, wlen': nat)
      requires BufferOk() && p < |buf| && InChunk(buf, p, start, wlen) && mode.Relaxed? && buf[p] != '\n'
      modifies `hash, `wrote, `remain, `hashbuflen, `submitted, `due, `ahead, `blanks, `blankline, `lastchar, `seen, hashbuf
      ensures BufferOk() && InChunk(buf, p + 1, start', wlen')
      ensures seen == old(seen) + Answered(p == 0 && fixcrlf, old(lastchar)) + [buf[p]]
      ensures Streamable(seen) ==> ahead == if buf[p] == '\r' then old(ahead + Early(p)) else 0
    {
      hide Parse, Out, LineOut, Held, Streamable, WindowOk, BufferOk, AtBlank, Crlfs, InChunk, IsLwsp;
      InBounds(buf, p, start, wlen);
      LoneCr(buf, p, start, wlen);
      NoCrlfs(old(seen));
      start', wlen' := RelaxedRest(buf, p, start, wlen);
    }

    /** The rest of it, after LoneCr. */
    method RelaxedRest(buf: string, p: nat, start: nat, wlen: nat) returns (start': nat, wlen': nat)
      requires BufferOk() && mode.Relaxed? && start + wlen <= p < |buf| && buf[p] != '\n'
      requires Streamable(seen + [buf[p]]) ==> InChunk(buf, p, start, wlen)
      modifies `hash, `wrote, `remain, `hashbuflen, `submitted, `due, `ahead, `blanks, `blankline, `lastchar, `seen, hashbuf
      ensures BufferOk() && InChunk(buf, p + 1, start', wlen')
      ensures seen == old(seen) + [buf[p]]
      ensures Streamable(seen) ==> ahead == if buf[p] == '\r' then old(ahead) else 0
    {
      hide Parse, Out, LineOut, Held, Streamable, WindowOk, IsLwsp, BufferOk, AtBlank, Crlfs;
      ghost var s := seen;
      ghost var x := buf[p];
      StreamableInit(s, x);
      if Streamable(s + [x]) {
        RelaxedStep(s, x, due, spilt, buf, p, start, wlen);
        CrlfsAdd(due, ahead, blanks);
        NoCrlfs(due);
      }
      start', wlen' := start, wlen;
      if IsLwsp(lastchar) && !IsLwsp(buf[p]) && buf[p] != '\r' {
        ReleaseThen(" ");
        start', wlen' := p, 1;
        blankline := false;
      } else if !IsLwsp(lastchar) && IsLwsp(buf[p]) {
        ReleaseThen(buf[start..start + wlen]);
        start', wlen' := p + 1, 0;
      } else if IsLwsp(lastchar) && IsLwsp(buf[p]) {
      } else {
        wlen' := wlen + 1;
        if blankline && (wlen' > 1 || buf[p] != '\r') {
          Release();
          blankline := false;
        }
      }
      NoCrlfs(submitted);
      lastchar := buf[p];
      seen := seen + [buf[p]];
    }

    lemma InBounds(buf: string, p: nat, start: nat, wlen: nat)
      requires InChunk(buf, p, start, wlen)
      ensures start + wlen <= p <= |buf|
    {
    }

    method ReadByte(buf: string, p: nat, start: nat, wlen: nat) returns (start': nat, wlen': nat)
      requires BufferOk() && p < |buf| && InChunk(buf, p, start, wlen)
      modifies `hash, `wrote, `remain, `hashbuflen, `submitted, `due, `ahead, `blanks, `blankline, `lastchar, `seen, hashbuf
      ensures BufferOk() && InChunk(buf, p + 1, start', wlen')
      ensures seen == old(seen) + Answered(p == 0 && fixcrlf && buf[p] != '\n', old(lastchar)) + [buf[p]]
      ensures Streamable(seen) ==>
                (ahead > 0 <==> (buf[p] == '\r' || buf[p] == '\n') && old(ahead + if buf[p] != '\n' then Early(p) else 0) > 0)
      ensures mode.Simple? ==> (Streamable(seen) && InLine(buf, p, start, wlen) ==> InLine(buf, p + 1, start', wlen'))
      ensures mode.Simple? && Streamable(seen) ==> Filled(old(Kept()), old(submitted))
    {
      hide Parse, Out, LineOut, Held, AtBlank, Streamable, BufferOk, Crlfs, InLine, Over, InChunk;
      NoCrlfs(seen);
      StreamableInit(seen, buf[p]);
      InLineNext(buf, p, start, wlen);
      KeptFits();
      if buf[p] == '\n' {
        start', wlen' := ReadNewline(buf, p, start, wlen);
      } else if mode.Simple? {
        start', wlen' := SimpleByte(buf, p, start, wlen);
        LargeIsOver(submitted);
      } else {
        start', wlen' := RelaxedByte(buf, p, start, wlen);
      }
      if Over(old(submitted)) && mode.Simple? {
        OverGrows(old(submitted), submitted);
      }
    }

    /** Since the buffer was last known to be kept or not, with `before` submitted then. */
    ghost predicate Filled(kept: bool, before: string)
      reads this
    {
      before <= submitted && (Kept() ==> kept) && (kept ==> Kept() || Over(submitted)) && (Over(before) ==> Over(submitted))
    }

    lemma ChunkStarts(buf: string)
      requires BodyOk()
      ensures InChunk(buf, 0, 0, 0)
    {
      hide Parse, Out, LineOut, Held, AtBlank, Streamable, Crlfs, FieldsOk, WindowOk;
      if Streamable(seen) {
        NextLine(seen, due, buf);
      }
    }

    method ReadChunk(buf: string) returns (start: nat, wlen: nat)
      requires BufferOk() && BodyOk()
      modifies `hash, `wrote, `remain, `hashbuflen, `submitted, `due, `ahead, `blanks, `blankline, `lastchar, `seen, hashbuf
      ensures BufferOk() && InChunk(buf, |buf|, start, wlen)
      ensures seen == old(seen) + Before(fixcrlf, old(lastchar), buf) + buf
      ensures Streamable(seen) ==>
                (ahead > 0 <==> OnlyBreaks(buf) && old(ahead + if Before(fixcrlf, lastchar, buf) != "" && blankline then 1 else 0) > 0)
      ensures mode.Simple? && Streamable(seen) ==> InLine(buf, |buf|, start, wlen)
      ensures mode.Simple? && Streamable(seen) ==> Filled(old(Kept()), old(submitted))
    {
      hide Parse, Out, LineOut, Held, AtBlank, Streamable, BufferOk, Crlfs, OnlyBreaks, InLine, Over, Kept, InChunk, FieldsOk,
        BodyOk;
      ChunkStarts(buf);
      start, wlen := 0, 0;
      var p := 0;
      ghost var first := Before(fixcrlf, lastchar, buf);
      ghost var early := ahead + if first != "" && blankline then 1 else 0;
      NoBreaks();
      assert buf[..0] == "" && InLine(buf, 0, 0, 0) by { LineBegins(buf); }
      while p < |buf|
        invariant p <= |buf| && BufferOk() && InChunk(buf, p, start, wlen)
        invariant p == 0 ==> seen == old(seen) && ahead == old(ahead) && lastchar == old(lastchar) && blankline == old(blankline)
        invariant p > 0 ==> seen == old(seen) + first + buf[..p]
        invariant p > 0 && Streamable(seen) ==> (ahead > 0 <==> OnlyBreaks(buf[..p]) && early > 0)
        invariant mode.Simple? && Streamable(seen) ==> InLine(buf, p, start, wlen)
        invariant mode.Simple? && Streamable(seen) ==> Filled(old(Kept()), old(submitted))
      {
        assert buf[..p + 1] == buf[..p] + [buf[p]];
        OneMore(buf[..p], buf[p]);
        StreamableInit(seen, buf[p]);
        StreamableInit(seen, '\n');
        assert seen + "" == seen;
        if p == 0 {
          StreamableInit(seen + "\n", buf[p]);
        }
        start, wlen := ReadByte(buf, p, start, wlen);
        p := p + 1;
      }
      assert buf[..p] == buf;
    }

    /** dkim_canon_bodychunk, for this canonicalization. A finished one, or one whose limit is reached, skips it. */
    method BodyChunk(chunk: string)
      requires BufferOk() && BodyOk()
      modifies `hash, `wrote, `remain, `hashbuflen, `submitted, `due, `ahead, `blanks, `blankline, `lastchar, `seen, `spilt,
               hashbuf
      ensures BufferOk() && BodyOk()
      ensures done || old(remain) == 0 ==> unchanged(this) && unchanged(hashbuf)
      ensures !done && old(remain) != 0 ==> seen == old(seen) + Piece(fixcrlf, old(lastchar), chunk)
      ensures !done && old(remain) != 0 && Streamable(seen) ==>
                && spilt == (if mode.Relaxed? && SpillCut(seen, |chunk|) && old(spilt).None?
                             then Some(|Out(mode, Parse(seen))|) else old(spilt))
                && (ahead > 0 <==>
                      OnlyBreaks(Piece(fixcrlf, old(lastchar), chunk)) &&
                      (old(ahead) > 0 || (fixcrlf && chunk != "" && old(Owed(lastchar, chunk) != "" && blankline))))
      ensures !done && old(remain) != 0 && Streamable(seen) && mode.Simple? ==>
                && old(submitted) <= submitted && (Parse(seen).cur == "" ==> hashbuflen == 0)
                && (Kept() <==>
                      && old(Kept()) && (Quiet(Piece(fixcrlf, old(lastchar), chunk)) ==> submitted == "")
                      && |submitted| <= DKIM_HASHBUFSIZE
                      && (old(seen) == "" && Parse(seen).lines == [] ==> |submitted| < DKIM_HASHBUFSIZE))
    {
      hide Parse, Out, LineOut, Held, AtBlank, Streamable, LimitLaw, WindowOk, SpillCut, Due, FixFrom, Crlfs, OnlyBreaks;
      hide Quiet, BufferOk, InLine, BodyOk, InChunk, Kept, Over, Piece;
      if done || remain == 0 {
        return;
      }
      var buf := chunk;
      if fixcrlf {
        buf := FixChunk(lastchar, chunk);
      }
      FixedPiece(fixcrlf, lastchar, seen, chunk);
      Associative(seen, Before(fixcrlf, lastchar, buf), buf);
      var start, wlen := ReadChunk(buf);
      assert mode.Simple? && Streamable(seen) ==> InLine(buf, |buf|, start, wlen);
      CloseChunk(buf, start, wlen, old(seen), Before(fixcrlf, old(lastchar), buf), old(Kept()), old(submitted));
    }

    /** The end of a chunk: the window goes out, less a CR at its end. In front of it were s0, and the LF of an
        unanswered CR. */
    method CloseChunk(buf: string, start: nat, wlen: nat, ghost s0: string, ghost first: string, ghost kept: bool,
                      ghost before: string)
      requires BufferOk() && InChunk(buf, |buf|, start, wlen) && seen == s0 + first + buf && (first == "" || first == "\n")
      requires mode.Simple? && Streamable(seen) ==> InLine(buf, |buf|, start, wlen) && Filled(kept, before)
      modifies `hash, `wrote, `remain, `hashbuflen, `submitted, `due, `spilt, hashbuf
      ensures BufferOk() && BodyOk()
      ensures Streamable(seen) ==>
                spilt == if mode.Relaxed? && SpillCut(seen, |buf|) && old(spilt).None?
                         then Some(|Out(mode, Parse(seen))|) else old(spilt)
      ensures Streamable(seen) && mode.Simple? ==>
                && before <= submitted && (Parse(seen).cur == "" ==> hashbuflen == 0)
                && (Kept() <==> kept && (Quiet(buf) ==> submitted == "") && |submitted| <= DKIM_HASHBUFSIZE
                                && (s0 == "" && Parse(seen).lines == [] ==> |submitted| < DKIM_HASHBUFSIZE))
    {
      hide Parse, Out, LineOut, Held, AtBlank, Streamable, WindowOk, SpillCut, Due, BufferOk, Crlfs, Over, InLine, Quiet;
      var n := if wlen > 0 && buf[start + wlen - 1] == '\r' then wlen - 1 else wlen;
      if Streamable(seen) {
        WindowCloses(mode, seen, due, spilt, buf, start, wlen);
        NoCrlfs(due);
        NoCrlfs(due + buf[start..start + n]);
        assert due + "" == due && submitted + "" == submitted;
      }
      if mode.Relaxed? && SpillCut(seen, |buf|) && spilt.None? {
        spilt := Some(|Out(mode, Parse(seen))|);
      }
      ghost var sub := submitted;
      Buffer(buf[start..start + n]);
      due := due + buf[start..start + n];
      if Streamable(seen) && mode.Simple? {
        LastInLine(buf, start, wlen, n);
        if n > 0 {
          assert submitted == sub + buf[start..start + n];
          DueAll(mode, Parse(seen), due);
          OnePiece(s0, first, buf, start, n, submitted, ahead);
        }
        OverLarge(sub);
      }
    }

    /** dkim_canon_closebody, for this canonicalization. */
    method CloseBody()
      requires BufferOk()
      modifies `hash, `wrote, `remain, `hashbuflen, `submitted, `done, hashbuf
      ensures BufferOk() && done
      ensures old(done) ==> unchanged(this) && unchanged(hashbuf)
      ensures !old(done) ==>
                && hash == Cut(length, submitted) && wrote == |hash|
                && submitted == old(submitted) + if mode.Simple? && old(wrote) == 0 then CRLF else ""
    {
      if done {
        return;
      }
      if mode.Simple? && wrote == 0 {
        Buffer(CRLF);
      } else {
        assert submitted == submitted + "";
      }
      Buffer("");
      done := true;
      assert submitted[..|submitted|] == submitted;
    }
  }

  /** dkim_canon_minbody: how much more of the body is wanted, -1 for all of it. At 0, BodyChunk changes nothing
      any more. */
  method MinBody(canons: seq<Canon>) returns (minbody: int)
    requires forall c :: c in canons ==> c.BufferOk()
    ensures minbody == -1 <==> exists c :: c in canons && !c.done && c.remain == -1
    ensures minbody >= -1
    ensures minbody != -1 ==> forall c :: c in canons && !c.done ==> c.remain <= minbody
    ensures minbody > 0 ==> exists c :: c in canons && !c.done && c.remain == minbody
  {
    minbody := 0;
    for i := 0 to |canons|
      invariant minbody >= 0
      invariant forall k :: 0 <= k < i && !canons[k].done ==> 0 <= canons[k].remain <= minbody
      invariant minbody > 0 ==> exists k :: 0 <= k < i && !canons[k].done && canons[k].remain == minbody
    {
      var c := canons[i];
      assert c in canons;
      if c.done {
        continue;
      }
      if c.remain == -1 {
        return -1;
      }
      if minbody < c.remain {
        minbody := c.remain;
      }
    }
  }
}
