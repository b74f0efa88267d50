/** Character classes and the few string operations the C library gives the rest of the code. */
module Text {

  datatype Option<+T> = None | Some(value: T)

  const CRLF: string := "\r\n"

  /** DKIM_ISLWSP: tab, vertical tab, form feed and space. */
  predicate IsLwsp(c: char) {
    c == 9 as char || c == 11 as char || c == 12 as char || c == ' '
  }

  /** isascii() && isspace() in the C locale. */
  predicate IsSpace(c: char) {
    c == ' ' || 9 as char <= c <= 13 as char
  }

  function Lower(c: char): (l: char) {
    if 'A' <= c <= 'Z' then ((c as int) + 32) as char else c
  }

  /** strcasecmp() compares the folded strings. */
  function Fold(s: string): (r: string)
    ensures |r| == |s| && forall i :: 0 <= i < |s| ==> r[i] == Lower(s[i])
  {
    seq(|s|, i requires 0 <= i < |s| => Lower(s[i]))
  }

  lemma Associative<T>(a: seq<T>, b: seq<T>, c: seq<T>)
    ensures a + b + c == a + (b + c)
  {
  }

  function Concat(ss: seq<string>): (r: string) {
    if ss == [] then [] else Concat(ss[..|ss| - 1]) + ss[|ss| - 1]
  }

  lemma ConcatNothing()
    ensures Concat([]) == ""
  {
  }

  lemma ConcatTake(ss: seq<string>, i: nat)
    requires i < |ss|
    ensures Concat(ss[..i + 1]) == Concat(ss[..i]) + ss[i]
  {
    assert ss[..i + 1][..i] == ss[..i];
  }

  lemma {:induction false} ConcatPrefix(ss: seq<string>, i: nat)
    requires i <= |ss|
    ensures Concat(ss[..i]) <= Concat(ss)
    decreases |ss| - i
  {
    if i == |ss| {
      assert ss[..i] == ss;
    } else {
      ConcatTake(ss, i);
      ConcatPrefix(ss, i + 1);
    }
  }

  lemma {:induction false} ConcatCons(ss: seq<string>)
    requires ss != []
    ensures Concat(ss) == ss[0] + Concat(ss[1..])
  {
    var n := |ss| - 1;
    if n == 0 {
      assert ss[..0] == [] && ss[1..] == [];
      assert "" + ss[0] == ss[0] + "";
    } else {
      ConcatCons(ss[..n]);
      assert ss[..n][1..] == ss[1..][..n - 1] && ss[1..][n - 1] == ss[n];
      Associative(ss[0], Concat(ss[1..][..n - 1]), ss[n]);
    }
  }

  // ---------- strtok() ----------

  function TokenLength(s: string, d: char): (n: nat)
    ensures n <= |s| && d !in s[..n] && (n < |s| ==> s[n] == d)
  {
    if s == "" || s[0] == d then 0
    else
      assert s[..1 + TokenLength(s[1..], d)] == [s[0]] + s[1..][..TokenLength(s[1..], d)];
      1 + TokenLength(s[1..], d)
  }

  /** The maximal non-empty pieces of s without the delimiter. */
  function Tokens(s: string, d: char): (ts: seq<string>)
    decreases |s|
  {
    if s == "" then []
    else if s[0] == d then Tokens(s[1..], d)
    else [s[..TokenLength(s, d)]] + Tokens(s[TokenLength(s, d)..], d)
  }

  function Joined(ts: seq<string>, d: char): (s: string) {
    if ts == [] then "" else if |ts| == 1 then ts[0] else ts[0] + [d] + Joined(ts[1..], d)
  }

  lemma JoinedNothing(d: char)
    ensures Joined([], d) == ""
  {
  }

  lemma {:induction false} TokenLengthIs(t: string, rest: string, d: char)
    requires d !in t && (rest == "" || rest[0] == d)
    ensures TokenLength(t + rest, d) == |t|
  {
    if t == "" {
      assert t + rest == rest;
    } else {
      assert (t + rest)[1..] == t[1..] + rest && t[0] in t;
      TokenLengthIs(t[1..], rest, d);
    }
  }

  lemma TokensCons(t: string, rest: string, d: char)
    requires t != "" && d !in t && (rest == "" || rest[0] == d)
    ensures Tokens(t + rest, d) == [t] + Tokens(if rest == "" then "" else rest[1..], d)
  {
    TokenLengthIs(t, rest, d);
    assert (t + rest)[..|t|] == t && (t + rest)[|t|..] == rest && (t + rest)[0] == t[0] && t[0] in t;
  }

  /** Joining pieces and taking them apart again gives the pieces. */
  lemma {:induction false} TokensOfJoined(ts: seq<string>, d: char)
    requires forall t :: t in ts ==> t != "" && d !in t
    ensures Tokens(Joined(ts, d), d) == ts
  {
    hide Tokens;
    if ts == [] {
      NoTokens(d);
    } else {
      var t, rest := ts[0], if |ts| == 1 then "" else [d] + Joined(ts[1..], d);
      assert Joined(ts, d) == t + rest && t in ts;
      TokensCons(t, rest, d);
      assert forall u :: u in ts[1..] ==> u in ts;
      TokensOfJoined(ts[1..], d);
      assert ts == [t] + ts[1..];
      if |ts| > 1 {
        assert rest[1..] == Joined(ts[1..], d);
      }
    }
  }

  lemma NoTokens(d: char)
    ensures Tokens("", d) == []
  {
  }

  lemma {:induction false} JoinedSnoc(ts: seq<string>, t: string, d: char)
    ensures Joined(ts + [t], d) == if ts == [] then t else Joined(ts, d) + [d] + t
  {
    if ts == [] {
      assert ts + [t] == [t];
    } else {
      assert (ts + [t])[1..] == ts[1..] + [t];
      JoinedSnoc(ts[1..], t, d);
      if |ts| > 1 {
        assert ts[0] + [d] + (Joined(ts[1..], d) + [d] + t) == ts[0] + [d] + Joined(ts[1..], d) + [d] + t;
      }
    }
  }
}
