/** rfc2822_mailbox_split: the local part and the domain of an address, moved to the front of the text they are
    read from. */
module Mailbox {
  import opened Text

  const NUL: char := '\0'
  const SPECIALS: string := "<>@,;:\\\"/[]?="

  datatype Err = Paren | Quote | Square

  /** Neither special nor white space nor the start of a comment. */
  predicate IsAtomChar(c: char) {
    c != NUL && c !in SPECIALS && !IsSpace(c) && c != '('
  }

  // ---------- The specification: reading only, with the result kept apart ----------

  /** matching_paren: where the closing parenthesis is, or the end. */
  function Matching(s: string, p: nat, open: char, close: char, paren: nat): (q: nat)
    requires p <= |s| && paren > 0
    ensures p <= q <= |s|
    decreases |s| - p
  {
    if p == |s| then p
    else if s[p] == close then if paren == 1 then p else Matching(s, p + 1, open, close, paren - 1)
    else if s[p] == open then Matching(s, p + 1, open, close, paren + 1)
    else if s[p] == '\\' && p + 1 < |s| then Matching(s, p + 2, open, close, paren)
    else Matching(s, p + 1, open, close, paren)
  }

  datatype Skipped = NeverCloses | Skipped(p: nat, ws: bool)

  /** White space and comments; ws says that there was white space outside comments. */
  function Skip(s: string, p: nat, ws: bool): (r: Skipped)
    requires p <= |s|
    ensures r.Skipped? ==> p <= r.p <= |s|
    ensures r.Skipped? && r.p < |s| ==> !IsSpace(s[r.p]) && s[r.p] != '('
    ensures r.Skipped? && r.ws && !ws ==> p < r.p
    decreases |s| - p
  {
    if p < |s| && s[p] == '(' then
      var q := Matching(s, p + 1, '(', ')', 1);
      if q == |s| then NeverCloses else Skip(s, q + 1, ws)
    else if p < |s| && IsSpace(s[p]) then Skip(s, p + 1, true)
    else Skipped(p, ws)
  }

  function RunEnd(s: string, p: nat): (q: nat)
    requires p <= |s|
    ensures p <= q <= |s|
    decreases |s| - p
  {
    if p < |s| && IsAtomChar(s[p]) then RunEnd(s, p + 1) else p
  }

  datatype Special = Bad(err: Err) | Found(p: nat)

  /** rfc2822_first_special: '<', or the '@' before the first of ":;,", or that, or the end. */
  function FirstSpecial(s: string, p: nat, at: Option<nat>): (r: Special)
    requires p <= |s| && (at.Some? ==> at.value < p && s[at.value] == '@')
    ensures r.Found? ==> r.p <= |s| && (r.p < |s| ==> s[r.p] in "<:;,@")
    ensures r.Found? && r.p < |s| && s[r.p] != '@' ==> p <= r.p
    decreases |s| - p, 1
  {
    if p == |s| then Found(p)
    else
      match Skip(s, p, false)
      case NeverCloses => Bad(Paren)
      case Skipped(q, _) => SpecialFrom(s, q, at)
  }

  /** The same, from the start of a token. */
  function SpecialFrom(s: string, q: nat, at: Option<nat>): (r: Special)
    requires q <= |s| && (at.Some? ==> at.value < q && s[at.value] == '@')
    ensures r.Found? ==> r.p <= |s| && (r.p < |s| ==> s[r.p] in "<:;,@")
    ensures r.Found? && r.p < |s| && s[r.p] != '@' ==> q <= r.p
    decreases |s| - q, 0
  {
    if q == |s| then Found(q)
    else if s[q] == '"' then
      var m := Matching(s, q + 1, NUL, '"', 1);
      if m == |s| then Bad(Quote) else FirstSpecial(s, m + 1, at)
    else if s[q] == '[' then
      var m := Matching(s, q + 1, NUL, ']', 1);
      if m == |s| then Bad(Square) else FirstSpecial(s, m + 1, at)
    else if s[q] == '<' then Found(q)
    else if s[q] == ':' || s[q] == ';' || s[q] == ',' then Found(if at.Some? then at.value else q)
    else if s[q] == '@' then FirstSpecial(s, q + 1, Some(q))
    else if s[q] in SPECIALS || s[q] == NUL then FirstSpecial(s, q + 1, at)
    else FirstSpecial(s, RunEnd(s, q + 1), at)
  }

  datatype Token = TokenErr(err: Err) | TokenEnd | Token(kind: char, start: nat, end: nat, ws: bool)

  /** rfc2822_token: the token after white space and comments. */
  function NextToken(s: string, p: nat, ws: bool): (t: Token)
    requires p <= |s|
    ensures t.Token? ==> p <= t.start < t.end <= |s|
    ensures t.Token? && t.ws && !ws ==> p < t.start
  {
    match Skip(s, p, ws)
    case NeverCloses => TokenErr(Paren)
    case Skipped(q, ws') =>
      if q == |s| then TokenEnd
      else if s[q] == '"' then
        var m := Matching(s, q + 1, NUL, '"', 1);
        if m == |s| then TokenErr(Quote) else Token('"', q, m + 1, ws')
      else if s[q] == '[' then
        var m := Matching(s, q + 1, NUL, ']', 1);
        if m == |s| then TokenErr(Square) else Token('[', q, m + 1, ws')
      else if s[q] in SPECIALS || s[q] == NUL then Token(s[q], q, q + 1, ws')
      else Token('x', q, RunEnd(s, q + 1), ws')
  }

  /** What has been written so far, and where in it the results start. */
  datatype Result = Result(out: string, user: Option<nat>, domain: Option<nat>)

  datatype Outcome = Failed(err: Err, r: Result) | Done(r: Result)

  /** An address in angle brackets. */
  function Angle(s: string, p: nat, ws: bool, r: Result): (o: Outcome)
    requires p <= |s|
    decreases |s| - p
  {
    match NextToken(s, p, ws)
    case TokenErr(err) => Failed(err, r)
    case TokenEnd => Done(r)
    case Token(kind, start, end, ws') =>
      if kind == '>' then Done(r)
      else if kind == '@' then Angle(s, end, ws', r.(out := r.out + [NUL], domain := Some(|r.out| + 1)))
      else if kind == ',' || kind == ':' then Angle(s, end, ws', r.(user := None, domain := None))
      else
        Angle(s, end, ws', r.(out := r.out + s[start..end], user := if r.user.None? then Some(|r.out|) else r.user))
  }

  /** A bare address. */
  function Bare(s: string, p: nat, ws: bool, r: Result): (o: Outcome)
    requires p <= |s|
    decreases |s| - p
  {
    match NextToken(s, p, ws)
    case TokenErr(err) => Failed(err, r)
    case TokenEnd => Done(r)
    case Token(kind, start, end, ws') =>
      if kind == ',' || kind == ';' then Done(r)
      else if kind == '@' then Bare(s, end, false, r.(out := r.out + [NUL], domain := Some(|r.out| + 1)))
      else
        var gap := if r.user.Some? && kind == 'x' && ws' then " " else "";
        Bare(s, end, false, r.(out := r.out + gap + s[start..end], user := if r.user.None? then Some(|r.out|) else r.user))
  }

  const NOTHING := Result("", None, None)

  /** rfc2822_mailbox_split. */
  function SplitFrom(s: string, p: nat): (o: Outcome)
    requires p <= |s|
    decreases |s| - p
  {
    match FirstSpecial(s, p, None)
    case Bad(err) => Failed(err, NOTHING)
    case Found(q) =>
      if q == |s| || s[q] == '@' then Bare(s, p, false, NOTHING)
      else if s[q] == '<' then Angle(s, q + 1, false, NOTHING)
      else SplitFrom(s, q + 1)
  }

  // ---------- The code, in place ----------

  /** The text from p on is s still, and ends at e. */
  ghost predicate Unread(a: array<char>, s: string, p: nat)
    reads a
  {
    && p <= |s| < a.Length && NUL !in s && a[|s|] == NUL
    && forall i :: p <= i < |s| ==> a[i] == s[i]
  }

  lemma NotNul(s: string, p: nat)
    requires NUL !in s
    ensures p < |s| ==> s[p] != NUL
  {
  }

  method MatchingParen(a: array<char>, start: nat, e: nat, open: char, close: char, ghost s: string) returns (p: nat)
    requires start <= e == |s| && Unread(a, s, start) && close != NUL
    ensures p == Matching(s, start, open, close, 1)
  {
    var paren := 1;
    p := start;
    while p < e
      invariant start <= p <= e && paren > 0
      invariant Matching(s, start, open, close, 1) == Matching(s, p, open, close, paren)
    {
      if a[p] == close {
        paren := paren - 1;
        if paren == 0 {
          break;
        }
      } else if a[p] == open {
        paren := paren + 1;
      } else if a[p] == '\\' {
        NotNul(s, p + 1);
        if a[p + 1] != NUL {
          p := p + 1;
        }
      }
      p := p + 1;
    }
  }

  /** The end of a quoted string or of a domain literal, if it has one. */
  method FindClose(a: array<char>, start: nat, e: nat, close: char, ghost s: string) returns (ok: bool, p: nat)
    requires start <= e == |s| && Unread(a, s, start) && close != NUL
    ensures p == Matching(s, start, NUL, close, 1) && ok == (p < |s|)
  {
    p := MatchingParen(a, start, e, NUL, close, s);
    NotNul(s, p);
    ok := a[p] != NUL;
  }

  /** The loop at the start of rfc2822_token and in rfc2822_first_special. */
  method SkipSpace(a: array<char>, start: nat, e: nat, ws0: bool, ghost s: string) returns (ok: bool, p: nat, ws: bool)
    requires start <= e == |s| && Unread(a, s, start)
    ensures Skip(s, start, ws0) == if ok then Skipped(p, ws) else NeverCloses
  {
    hide Matching;
    p, ws := start, ws0;
    while p < e && (a[p] == '(' || IsSpace(a[p]))
      invariant start <= p <= e
      invariant Skip(s, start, ws0) == Skip(s, p, ws)
    {
      if a[p] != '(' {
        ws := true;
        p := p + 1;
      } else {
        p := MatchingParen(a, p + 1, e, '(', ')', s);
        NotNul(s, p);
        if a[p] == NUL {
          return false, p, ws;
        } else {
          p := p + 1;
        }
      }
    }
    ok := true;
  }

  /** One step of FirstSpecial, from the first character of a token. */
  lemma SpecialStep(s: string, p: nat, at: Option<nat>, q: nat, ws: bool)
    requires p < |s| && NUL !in s && (at.Some? ==> at.value < p && s[at.value] == '@')
    requires Skip(s, p, false) == Skipped(q, ws) && p <= q <= |s|
    ensures q == |s| ==> FirstSpecial(s, p, at) == Found(q)
    ensures q < |s| && s[q] == '"' ==>
              var m := Matching(s, q + 1, NUL, '"', 1);
              FirstSpecial(s, p, at) == if m == |s| then Bad(Quote) else FirstSpecial(s, m + 1, at)
    ensures q < |s| && s[q] == '[' ==>
              var m := Matching(s, q + 1, NUL, ']', 1);
              FirstSpecial(s, p, at) == if m == |s| then Bad(Square) else FirstSpecial(s, m + 1, at)
    ensures q < |s| && s[q] == '<' ==> FirstSpecial(s, p, at) == Found(q)
    ensures q < |s| && (s[q] == ':' || s[q] == ';' || s[q] == ',') ==>
              FirstSpecial(s, p, at) == Found(if at.Some? then at.value else q)
    ensures q < |s| && s[q] == '@' ==> FirstSpecial(s, p, at) == FirstSpecial(s, q + 1, Some(q))
    ensures q < |s| && s[q] in SPECIALS && s[q] !in "\"[<:;,@" ==> FirstSpecial(s, p, at) == FirstSpecial(s, q + 1, at)
    ensures q < |s| && s[q] !in SPECIALS ==> FirstSpecial(s, p, at) == FirstSpecial(s, RunEnd(s, q + 1), at)
  {
    hide Matching, Skip, RunEnd;
    NotNul(s, q);
  }

  method FindSpecial(a: array<char>, start: nat, e: nat, ghost s: string) returns (r: Special)
    requires start <= e == |s| && Unread(a, s, start)
    ensures r == FirstSpecial(s, start, None)
  {
    hide Matching, Skip, FirstSpecial, IsAtomChar, IsSpace, RunEnd;
    var p := start;
    var at: Option<nat> := None;
    while p < e && a[p] != NUL
      invariant start <= p <= e && (at.Some? ==> at.value < p && s[at.value] == '@')
      invariant FirstSpecial(s, start, None) == FirstSpecial(s, p, at)
      decreases e - p
    {
      var ok, q, ws := SkipSpace(a, p, e, false, s);
      if !ok {
        Unclosed(s, p, at);
        return Bad(Paren);
      }
      SpecialStep(s, p, at, q, ws);
      NotNul(s, q);
      if a[q] == NUL {
        return Found(q);
      }
      if a[q] == '"' {
        ok, q := FindClose(a, q + 1, e, '"', s);
        if !ok {
          return Bad(Quote);
        }
        p := q + 1;
      } else if a[q] == '[' {
        ok, q := FindClose(a, q + 1, e, ']', s);
        if !ok {
          return Bad(Square);
        }
        p := q + 1;
      } else if a[q] in SPECIALS {
        if a[q] == '<' {
          return Found(q);
        } else if a[q] == ':' || a[q] == ';' || a[q] == ',' {
          return Found(if at.Some? then at.value else q);
        } else if a[q] == '@' {
          at := Some(q);
        }
        p := q + 1;
      } else {
        p := ReadRun(a, q, e, s);
      }
    }
    NotNul(s, p);
    AtTheEnd(s, p, at);
    r := Found(p);
  }

  lemma Unclosed(s: string, p: nat, at: Option<nat>)
    requires p < |s| && Skip(s, p, false) == NeverCloses && (at.Some? ==> at.value < p && s[at.value] == '@')
    ensures FirstSpecial(s, p, at) == Bad(Paren)
  {
  }

  lemma AtTheEnd(s: string, p: nat, at: Option<nat>)
    requires p == |s| && (at.Some? ==> at.value < p && s[at.value] == '@')
    ensures FirstSpecial(s, p, at) == Found(p)
  {
  }

  /** The end of a run of ordinary characters. */
  method ReadRun(a: array<char>, start: nat, e: nat, ghost s: string) returns (p: nat)
    requires start < e == |s| && Unread(a, s, start)
    ensures p == RunEnd(s, start + 1)
  {
    p := start + 1;
    while p < e && a[p] != NUL && a[p] !in SPECIALS && !IsSpace(a[p]) && a[p] != '('
      invariant start < p <= e && RunEnd(s, start + 1) == RunEnd(s, p)
    {
      p := p + 1;
    }
  }

  method ReadToken(a: array<char>, start: nat, e: nat, ws0: bool, ghost s: string) returns (t: Token)
    requires start <= e == |s| && Unread(a, s, start)
    ensures t == NextToken(s, start, ws0)
  {
    hide Matching, Skip;
    var ok, p, ws := SkipSpace(a, start, e, ws0, s);
    if !ok {
      return TokenErr(Paren);
    }
    NotNul(s, p);
    if p >= e || a[p] == NUL {
      return TokenEnd;
    }
    var end;
    if a[p] == '"' {
      ok, end := FindClose(a, p + 1, e, '"', s);
      return if !ok then TokenErr(Quote) else Token('"', p, end + 1, ws);
    } else if a[p] == '[' {
      ok, end := FindClose(a, p + 1, e, ']', s);
      return if !ok then TokenErr(Square) else Token('[', p, end + 1, ws);
    } else if a[p] in SPECIALS {
      return Token(a[p], p, p + 1, ws);
    } else {
      end := ReadRun(a, p, e, s);
      return Token('x', p, end, ws);
    }
  }

  /** memmove() towards the front: what is read next is not touched. */
  method MoveDown(a: array<char>, w: nat, from: nat, to: nat, ghost s: string)
    requires w <= from <= to <= |s| && Unread(a, s, from)
    modifies a
    ensures Unread(a, s, to)
    ensures a[w..w + (to - from)] == s[from..to]
    ensures a[..w] == old(a[..w])
    ensures forall i :: w + (to - from) <= i < a.Length ==> a[i] == old(a[i])
  {
    ghost var was := a[..];
    var k := 0;
    while k < to - from
      invariant k <= to - from && was == old(a[..])
      invariant forall i :: w <= i < w + k ==> a[i] == s[from + (i - w)]
      invariant forall i :: 0 <= i < w || w + k <= i < a.Length ==> a[i] == was[i]
    {
      assert a[from + k] == was[from + k] == s[from + k];
      a[w + k] := a[from + k];
      k := k + 1;
    }
    SameSlice(a[..], w, s, from, to - from);
    assert a[..][w..w + k] == a[w..w + k] && a[..w] == was[..w];
  }

  lemma SameSlice(t: seq<char>, w: nat, s: string, from: nat, n: nat)
    requires w + n <= |t| && from + n <= |s| && forall i :: w <= i < w + n ==> t[i] == s[from + (i - w)]
    ensures t[w..w + n] == s[from..from + n]
  {
    var x, y := t[w..w + n], s[from..from + n];
    forall k | 0 <= k < n
      ensures x[k] == y[k]
    {
      assert t[w + k] == s[from + (w + k - w)];
    }
  }

  /** What holds between two tokens: the text written is `r.out`, it ends at w, before the text not yet read, which
      is unchanged, as is everything after w. */
  ghost predicate Compacting(a: array<char>, s: string, was: seq<char>, w: nat, line: nat, r: Result)
    reads a
  {
    && w <= line <= |s| && |was| == a.Length && Unread(a, s, line)
    && w == |r.out| && a[..w] == r.out && (forall i :: w <= i < a.Length ==> a[i] == was[i])
    && (r.user.Some? ==> r.user.value <= w) && (r.domain.Some? ==> r.domain.value <= w)
  }

  /** Where the text ends after the last byte has been written. */
  ghost predicate Compacted(a: array<char>, was: seq<char>, o: Outcome)
    reads a
  {
    var n := |o.r.out|;
    && n < a.Length == |was| && a[..n] == o.r.out
    && (o.Done? ==> a[n] == NUL && forall i :: n < i < a.Length ==> a[i] == was[i])
    && (o.Failed? ==> forall i :: n <= i < a.Length ==> a[i] == was[i])
  }

  /** One byte more. */
  method Put(a: array<char>, w: nat, c: char, line: nat, ghost s: string, ghost was: seq<char>, ghost r: Result)
    requires Compacting(a, s, was, w, line, r) && w < line
    modifies a
    ensures Compacting(a, s, was, w + 1, line, r.(out := r.out + [c]))
  {
    a[w] := c;
    assert a[..w + 1] == r.out + [c];
  }

  /** A token more. */
  method Copy(a: array<char>, w: nat, from: nat, to: nat, line: nat, ghost s: string, ghost was: seq<char>, ghost r: Result)
    requires Compacting(a, s, was, w, line, r) && w <= from && line <= from <= to <= |s|
    modifies a
    ensures Compacting(a, s, was, w + (to - from), to, r.(out := r.out + s[from..to]))
  {
    MoveDown(a, w, from, to, s);
    assert a[..w + (to - from)] == a[..w] + a[w..w + (to - from)];
  }

  method Finish(a: array<char>, w: nat, line: nat, ghost s: string, ghost was: seq<char>, ghost r: Result)
    requires Compacting(a, s, was, w, line, r)
    modifies a
    ensures Compacted(a, was, Done(r))
  {
    a[w] := NUL;
    assert a[..w] == r.out;
  }

  lemma AngleStep(s: string, p: nat, ws: bool, r: Result)
    requires p <= |s|
    ensures match NextToken(s, p, ws)
            case TokenErr(err) => Angle(s, p, ws, r) == Failed(err, r)
            case TokenEnd => Angle(s, p, ws, r) == Done(r)
            case Token(kind, start, end, ws') =>
              && (kind == '>' ==> Angle(s, p, ws, r) == Done(r))
              && (kind == '@' ==>
                    Angle(s, p, ws, r) == Angle(s, end, ws', r.(out := r.out + [NUL], domain := Some(|r.out| + 1))))
              && (kind == ',' || kind == ':' ==>
                    Angle(s, p, ws, r) == Angle(s, end, ws', r.(user := None, domain := None)))
              && (kind !in ">@,:" ==>
                    Angle(s, p, ws, r)
                    == Angle(s, end, ws', r.(out := r.out + s[start..end], user := if r.user.None? then Some(|r.out|) else r.user)))
  {
    hide NextToken;
  }

  method SplitAngle(a: array<char>, start: nat, e: nat, ghost s: string) returns (err: Option<Err>, ghost o: Outcome, user: Option<nat>, domain: Option<nat>)
    requires start <= e == |s| && Unread(a, s, start) && |s| < a.Length
    modifies a
    ensures o == Angle(s, start, false, NOTHING) && Compacted(a, old(a[..]), o)
    ensures err == (if o.Failed? then Some(o.err) else None) && user == o.r.user && domain == o.r.domain
  {
    hide NextToken, Angle;
    var line: nat, w: nat := start, 0;
    user, domain := None, None;
    ghost var was, r := a[..], NOTHING;
    var ws := false;
    while true
      invariant Compacting(a, s, was, w, line, r) && user == r.user && domain == r.domain
      invariant Angle(s, start, false, NOTHING) == Angle(s, line, ws, r)
      decreases e - line
    {
      var t := ReadToken(a, line, e, ws, s);
      AngleStep(s, line, ws, r);
      if t.TokenErr? {
        return Some(t.err), Failed(t.err, r), user, domain;
      }
      if t.TokenEnd? || t.kind == '>' {
        Finish(a, w, line, s, was, r);
        return None, Done(r), user, domain;
      }
      ws := t.ws;
      if t.kind == '@' {
        Advance(a, s, was, w, line, t.end, r);
        Put(a, w, NUL, t.end, s, was, r);
        w := w + 1;
        domain := Some(w);
        r := r.(out := r.out + [NUL], domain := Some(w));
      } else if t.kind == ',' || t.kind == ':' {
        user, domain := None, None;
        Advance(a, s, was, w, line, t.end, r);
        r := r.(user := None, domain := None);
      } else {
        if user.None? {
          user := Some(w);
          r := r.(user := Some(w));
        }
        Copy(a, w, t.start, t.end, line, s, was, r);
        r := r.(out := r.out + s[t.start..t.end]);
        w := w + (t.end - t.start);
      }
      line := t.end;
    }
  }

  lemma Advance(a: array<char>, s: string, was: seq<char>, w: nat, line: nat, to: nat, r: Result)
    requires Compacting(a, s, was, w, line, r) && line <= to <= |s|
    ensures Compacting(a, s, was, w, to, r)
  {
  }

  lemma BareStep(s: string, p: nat, r: Result)
    requires p <= |s|
    ensures match NextToken(s, p, false)
            case TokenErr(err) => Bare(s, p, false, r) == Failed(err, r)
            case TokenEnd => Bare(s, p, false, r) == Done(r)
            case Token(kind, start, end, ws) =>
              && (kind == ',' || kind == ';' ==> Bare(s, p, false, r) == Done(r))
              && (kind == '@' ==>
                    Bare(s, p, false, r) == Bare(s, end, false, r.(out := r.out + [NUL], domain := Some(|r.out| + 1))))
              && (kind !in ",;@" ==>
                    Bare(s, p, false, r)
                    == Bare(s, end, false,
                            r.(out := r.out + (if r.user.Some? && kind == 'x' && ws then " " else "") + s[start..end],
                               user := if r.user.None? then Some(|r.out|) else r.user)))
  {
    hide NextToken;
  }

  method SplitBare(a: array<char>, start: nat, e: nat, ghost s: string) returns (err: Option<Err>, ghost o: Outcome, user: Option<nat>, domain: Option<nat>)
    requires start <= e == |s| && Unread(a, s, start) && |s| < a.Length
    modifies a
    ensures o == Bare(s, start, false, NOTHING) && Compacted(a, old(a[..]), o)
    ensures err == (if o.Failed? then Some(o.err) else None) && user == o.r.user && domain == o.r.domain
  {
    hide NextToken, Bare;
    var line: nat, w: nat := start, 0;
    user, domain := None, None;
    ghost var was, r := a[..], NOTHING;
    var ws := false;
    while true
      invariant !ws && Compacting(a, s, was, w, line, r) && user == r.user && domain == r.domain
      invariant Bare(s, start, false, NOTHING) == Bare(s, line, false, r)
      decreases e - line
    {
      var t := ReadToken(a, line, e, ws, s);
      BareStep(s, line, r);
      if t.TokenErr? {
        return Some(t.err), Failed(t.err, r), user, domain;
      }
      if t.TokenEnd? || t.kind == ',' || t.kind == ';' {
        Finish(a, w, line, s, was, r);
        return None, Done(r), user, domain;
      }
      if t.kind == '@' {
        Advance(a, s, was, w, line, t.end, r);
        Put(a, w, NUL, t.end, s, was, r);
        w := w + 1;
        domain := Some(w);
        r := r.(out := r.out + [NUL], domain := Some(w));
      } else {
        ghost var before := r.out;
        if user.None? {
          user := Some(w);
          r := r.(user := Some(w));
          assert before + "" == before;
        } else if t.kind == 'x' && t.ws {
          Advance(a, s, was, w, line, t.start, r);
          Put(a, w, ' ', t.start, s, was, r);
          w := w + 1;
          r := r.(out := r.out + " ");
          line := t.start;
        } else {
          assert before + "" == before;
        }
        Copy(a, w, t.start, t.end, line, s, was, r);
        r := r.(out := r.out + s[t.start..t.end]);
        w := w + (t.end - t.start);
      }
      ws := false;
      line := t.end;
    }
  }

  /** rfc2822_mailbox_split: in place, and yet the same as the specification that only reads. */
  method MailboxSplit(a: array<char>, e: nat) returns (err: Option<Err>, user: Option<nat>, domain: Option<nat>)
    requires e < a.Length && a[e] == NUL && NUL !in a[..e]
    modifies a
    ensures var o := SplitFrom(old(a[..e]), 0);
            && err == (if o.Failed? then Some(o.err) else None) && user == o.r.user && domain == o.r.domain
            && Compacted(a, old(a[..]), o)
  {
    hide FirstSpecial, Angle, Bare, Skip;
    ghost var s := a[..e];
    var line := 0;
    while true
      invariant line <= e && a[..] == old(a[..])
      invariant SplitFrom(s, 0) == SplitFrom(s, line)
      decreases e - line
    {
      assert Unread(a, s, line);
      var special := FindSpecial(a, line, e, s);
      if special.Bad? {
        return Some(special.err), None, None;
      }
      var p := special.p;
      NotNul(s, p);
      if a[p] == '<' {
        ghost var o;
        err, o, user, domain := SplitAngle(a, p + 1, e, s);
        return;
      } else if a[p] == ';' || a[p] == ':' || a[p] == ',' {
        line := p + 1;
      } else {
        ghost var o;
        err, o, user, domain := SplitBare(a, line, e, s);
        return;
      }
    }
  }
}
