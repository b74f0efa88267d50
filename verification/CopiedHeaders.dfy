/** The z= tag: the signer's copy of the header fields (dkim_gensighdr) and its decoding (dkim_ohdrs). */
module CopiedHeaders {
  import opened Text

  const DKIM_MAXHEADER: nat := 4096
  const BAR: char := '|'

  // ---------- Encoding ----------

  /** Bytes that stand for themselves; '|' is one of them. */
  predicate Plain(c: char) {
    0x21 as char <= c <= 0x3a as char || c == 0x3c as char || 0x3e as char <= c <= 0x7e as char
  }

  predicate Ascii(s: string) {
    forall c :: c in s ==> 0 < c as int < 128
  }

  function HexDigit(n: nat): (c: char)
    requires n < 16
  {
    if n < 10 then ('0' as int + n) as char else ('A' as int + n - 10) as char
  }

  function EncodeByte(c: char): (s: string)
    requires c as int < 128
    ensures 0 < |s| <= 3
  {
    if Plain(c) then [c] else ['=', HexDigit(c as int / 16), HexDigit(c as int % 16)]
  }

  function EncodeText(t: string): (s: string)
    requires Ascii(t)
    decreases |t|
  {
    if t == "" then ""
    else
      assert t[0] in t && forall c :: c in t[1..] ==> c in t;
      EncodeByte(t[0]) + EncodeText(t[1..])
  }

  /** What the fixed buffer holds when text is encoded behind out; the last escape may be cut. */
  function Staged(out: string, text: string): (r: string)
    requires Ascii(text) && |out| <= DKIM_MAXHEADER
    decreases |text|
  {
    if text == "" || |out| == DKIM_MAXHEADER then out
    else
      assert text[0] in text && forall c :: c in text[1..] ==> c in text;
      var e := EncodeByte(text[0]);
      if Plain(text[0]) || |out| + 3 < DKIM_MAXHEADER then Staged(out + e, text[1..]) else (out + e)[..DKIM_MAXHEADER - 1]
  }

  /** Everything fits, the terminating NUL of the last escape included. */
  predicate Fits(out: string, text: string)
    requires Ascii(text)
  {
    var n := |out| + |EncodeText(text)|;
    n < 4096 || (n == 4096 && (text == "" || Last(text)))
  }

  predicate Last(text: string)
    requires text != ""
  {
    Plain(text[|text| - 1])
  }

  /** One byte of text: staged whole, or cut. */
  lemma StageStep(out: string, text: string)
    requires Ascii(text) && text != "" && |out| < DKIM_MAXHEADER
    ensures Ascii(text[1..]) && text[0] as int < 128
    ensures var e := EncodeByte(text[0]);
            && EncodeText(text) == e + EncodeText(text[1..])
            && (Plain(text[0]) || |out| + 3 < DKIM_MAXHEADER ==>
                  && |out + e| <= DKIM_MAXHEADER && Staged(out, text) == Staged(out + e, text[1..])
                  && (Fits(out, text) <==> Fits(out + e, text[1..])))
            && (!Plain(text[0]) && |out| + 3 >= DKIM_MAXHEADER ==>
                  Staged(out, text) == (out + e)[..DKIM_MAXHEADER - 1] && !Fits(out, text))
  {
    assert text[0] in text && forall c :: c in text[1..] ==> c in text;
    var rest := text[1..];
    if rest != "" {
      assert Last(rest) == Last(text);
      EncodesSome(rest);
    }
  }

  lemma {:induction false} StagedIs(out: string, text: string)
    requires Ascii(text) && |out| <= DKIM_MAXHEADER
    ensures |out| <= |Staged(out, text)| <= DKIM_MAXHEADER && Staged(out, text) <= out + EncodeText(text)
    ensures Staged(out, text) == out + EncodeText(text) <==> Fits(out, text)
    ensures text != "" && |out| < DKIM_MAXHEADER - 1 ==> |Staged(out, text)| > |out|
    decreases |text|
  {
    hide Plain, Staged, Fits, EncodeText, Ascii;
    if text == "" || |out| == DKIM_MAXHEADER {
      StageStops(out, text);
    } else {
      StageStep(out, text);
      var e, rest := EncodeByte(text[0]), text[1..];
      var all := out + EncodeText(text);
      assert all == (out + e) + EncodeText(rest);
      if Plain(text[0]) || |out| + 3 < DKIM_MAXHEADER {
        StagedIs(out + e, rest);
      } else {
        assert all[..|out + e|] == out + e;
      }
    }
  }

  lemma StageStops(out: string, text: string)
    requires Ascii(text) && (text == "" || |out| == DKIM_MAXHEADER) && |out| <= DKIM_MAXHEADER
    ensures Staged(out, text) == out && out <= out + EncodeText(text)
    ensures out == out + EncodeText(text) <==> Fits(out, text)
  {
    if text != "" {
      EncodesSome(text);
    } else {
      assert out + EncodeText(text) == out;
    }
  }

  lemma EncodesSome(text: string)
    requires Ascii(text) && text != ""
    ensures |EncodeText(text)| > 0
  {
  }

  /** The copy of one header field, as the loop in dkim_gensighdr stages it in its buffer. */
  method CopyHeader(text: string, first: bool) returns (s: string)
    requires Ascii(text)
    ensures s == Staged(if first then "" else [BAR], text)
  {
    var tmp := new char[DKIM_MAXHEADER + 1](_ => '\0');
    var q, p := 0, 0;
    if !first {
      tmp[0] := BAR;
      q := 1;
    }
    ghost var lead := if first then "" else [BAR];
    assert text[0..] == text && tmp[..q] == lead;
    s := "";
    while p < |text| && q < DKIM_MAXHEADER
      invariant p <= |text| && q <= DKIM_MAXHEADER && Ascii(text[p..])
      invariant Staged(lead, text) == Staged(tmp[..q], text[p..])
    {
      ghost var out := tmp[..q];
      assert text[p..][0] == text[p] && text[p..][1..] == text[p + 1..] && text[p] in text;
      if Plain(text[p]) {
        tmp[q] := text[p];
        q := q + 1;
        assert tmp[..q] == out + EncodeByte(text[p]);
      } else {
        // snprintf() leaves room for its NUL
        var e := EncodeByte(text[p]);
        var room := DKIM_MAXHEADER - q - 1;
        if room < 3 {
          assert (out + e)[..DKIM_MAXHEADER - 1] == out + e[..room];
          s := tmp[..q] + e[..room];
          return;
        }
        tmp[q], tmp[q + 1], tmp[q + 2] := e[0], e[1], e[2];
        q := q + 3;
        assert tmp[..q] == out + e;
      }
      p := p + 1;
      assert forall c :: c in text[p..] ==> c in text;
    }
    s := tmp[..q];
  }

  predicate AllAscii(headers: seq<string>) {
    forall h :: h in headers ==> Ascii(h)
  }

  /** The value of the z= tag. */
  function PrintZ(headers: seq<string>): (z: string)
    requires AllAscii(headers)
  {
    if headers == [] then ""
    else
      var n := |headers| - 1;
      assert headers[n] in headers && forall h :: h in headers[..n] ==> h in headers;
      PrintZ(headers[..n]) + Staged(if n == 0 then "" else [BAR], headers[n])
  }

  method PrintCopies(headers: seq<string>) returns (z: string)
    requires AllAscii(headers)
    ensures z == PrintZ(headers)
  {
    z := "";
    var i := 0;
    while i < |headers|
      invariant i <= |headers| && AllAscii(headers[..i]) && z == PrintZ(headers[..i])
    {
      assert headers[i] in headers && forall h :: h in headers[..i + 1] ==> h in headers;
      assert headers[..i + 1][..i] == headers[..i];
      var s := CopyHeader(headers[i], i == 0);
      z := z + s;
      i := i + 1;
    }
    assert headers[..i] == headers;
  }

  // ---------- Decoding ----------

  predicate IsHex(c: char) {
    '0' <= c <= '9' || 'A' <= c <= 'F' || 'a' <= c <= 'f'
  }

  /** dkim_hexchar. */
  function HexValue(c: char): (n: nat)
    requires IsHex(c)
    ensures n < 16
  {
    if c <= '9' then c as int - '0' as int
    else if c <= 'F' then 10 + c as int - 'A' as int
    else 10 + c as int - 'a' as int
  }

  function Decode(s: string): (r: Option<string>)
    decreases |s|
  {
    if s == "" then Some("")
    else if s[0] == '=' then
      if |s| < 3 || !IsHex(s[1]) || !IsHex(s[2]) then None
      else
        match Decode(s[3..])
        case None => None
        case Some(t) => Some([(16 * HexValue(s[1]) + HexValue(s[2])) as char] + t)
    else
      match Decode(s[1..])
      case None => None
      case Some(t) => Some([s[0]] + t)
  }

  function DecodeAll(pieces: seq<string>): (r: Option<seq<string>>) {
    if pieces == [] then Some([])
    else
      var n := |pieces| - 1;
      match DecodeAll(pieces[..n])
      case None => None
      case Some(ts) =>
        match Decode(pieces[n])
        case None => None
        case Some(t) => Some(ts + [t])
  }

  lemma HexRound(c: char)
    requires c as int < 128
    ensures IsHex(HexDigit(c as int / 16)) && IsHex(HexDigit(c as int % 16))
    ensures 16 * HexValue(HexDigit(c as int / 16)) + HexValue(HexDigit(c as int % 16)) == c as int
  {
    DigitRound(c as int / 16);
    DigitRound(c as int % 16);
  }

  lemma DigitRound(n: nat)
    requires n < 16
    ensures IsHex(HexDigit(n)) && HexValue(HexDigit(n)) == n && HexDigit(n) != BAR
  {
  }

  function Prepend(out: string, rest: Option<string>): (r: Option<string>) {
    match rest
    case None => None
    case Some(t) => Some(out + t)
  }

  lemma DecodeByte(c: char, t: string)
    requires c as int < 128
    ensures Decode(EncodeByte(c) + t) == Prepend([c], Decode(t))
  {
    var e := EncodeByte(c);
    var s := e + t;
    if Plain(c) {
      assert s[0] == c && s[1..] == t;
    } else {
      HexRound(c);
      assert s[0] == '=' && s[1] == e[1] && s[2] == e[2] && s[3..] == t;
    }
  }

  lemma DecodeShort(s: string)
    requires 0 < |s| < 3 && s[0] == '='
    ensures Decode(s) == None
  {
  }

  lemma EncodeCons(text: string)
    requires Ascii(text) && text != ""
    ensures text[0] as int < 128 && Ascii(text[1..])
    ensures EncodeText(text) == EncodeByte(text[0]) + EncodeText(text[1..])
    ensures |EncodeByte(text[0])| == 1 || (|EncodeByte(text[0])| == 3 && EncodeByte(text[0])[0] == '=')
  {
    assert text[0] in text && forall c :: c in text[1..] ==> c in text;
  }

  /** A whole encoding decodes to the text; a part of it decodes to less, or not at all. */
  lemma {:induction false} DecodePart(text: string, m: nat)
    requires Ascii(text) && m <= |EncodeText(text)|
    ensures m == |EncodeText(text)| ==> Decode(EncodeText(text)[..m]) == Some(text)
    ensures m < |EncodeText(text)| && Decode(EncodeText(text)[..m]).Some? ==> |Decode(EncodeText(text)[..m]).value| < |text|
    decreases |text|
  {
    hide Decode, EncodeByte, EncodeText, Ascii;
    var d := EncodeText(text)[..m];
    if text == "" || m == 0 {
      DecodesNothing(text);
    } else {
      EncodeCons(text);
      var c, rest, e := text[0], text[1..], EncodeByte(text[0]);
      assert text == [c] + rest;
      if m >= |e| {
        assert d == e + EncodeText(rest)[..m - |e|];
        DecodeByte(c, EncodeText(rest)[..m - |e|]);
        DecodePart(rest, m - |e|);
      } else {
        assert d[0] == e[0];
        DecodeShort(d);
      }
    }
  }

  lemma DecodesNothing(text: string)
    requires Ascii(text)
    ensures Decode("") == Some("") && (EncodeText(text) == "" <==> text == "")
  {
  }

  lemma {:induction false} EncodeBar(text: string)
    requires Ascii(text) && BAR !in text
    ensures BAR !in EncodeText(text)
    decreases |text|
  {
    if text != "" {
      assert text[0] in text && forall c :: c in text[1..] ==> c in text;
      EncodeBar(text[1..]);
      DigitRound(text[0] as int / 16);
      DigitRound(text[0] as int % 16);
    }
  }

  // ---------- Decoding in place ----------

  const NUL: char := '\0'

  /** The C string t stands at p. */
  predicate StringAt(a: array<char>, p: nat, t: string)
    reads a
  {
    p + |t| < a.Length && a[p..p + |t|] == t && a[p + |t|] == NUL
  }

  lemma DecodeStep(s: string, out: string)
    requires s != ""
    ensures s[0] != '=' ==> Prepend(out, Decode(s)) == Prepend(out + [s[0]], Decode(s[1..]))
    ensures s[0] == '=' && (|s| < 3 || !IsHex(s[1]) || !IsHex(s[2])) ==> Prepend(out, Decode(s)) == None
    ensures s[0] == '=' && |s| >= 3 && IsHex(s[1]) && IsHex(s[2]) ==>
              Prepend(out, Decode(s))
              == Prepend(out + [(16 * HexValue(s[1]) + HexValue(s[2])) as char], Decode(s[3..]))
  {
    hide HexValue, IsHex;
    if s[0] != '=' {
      if Decode(s[1..]).Some? {
        Associative(out, [s[0]], Decode(s[1..]).value);
      }
    } else if |s| >= 3 && IsHex(s[1]) && IsHex(s[2]) && Decode(s[3..]).Some? {
      Associative(out, [(16 * HexValue(s[1]) + HexValue(s[2])) as char], Decode(s[3..]).value);
    }
  }

  lemma DecodeNothing(s: string, out: string)
    requires s == ""
    ensures Prepend(out, Decode(s)) == Some(out)
  {
    assert out + "" == out;
  }

  /** One piece, ended by a NUL, is decoded over itself. */
  method DecodePiece(a: array<char>, start: nat, end: nat) returns (ok: bool, ghost t: string)
    requires start <= end < a.Length && a[end] == NUL && NUL !in a[start..end]
    modifies a
    ensures ok <==> Decode(old(a[start..end])).Some?
    ensures ok ==> Some(t) == Decode(old(a[start..end])) && StringAt(a, start, t) && start + |t| <= end
    ensures a[end] == NUL && forall i :: 0 <= i < start || end < i < a.Length ==> a[i] == old(a[i])
  {
    hide Decode, IsHex, HexValue, Prepend;
    ghost var s := a[start..end];
    var p, q := start, start;
    assert s[0..] == s && a[start..q] == "";
    NothingBefore(s);
    while p < end
      invariant start <= q <= p <= end && a[end] == NUL
      invariant forall i :: p <= i < end ==> a[i] == s[i - start]
      invariant forall i :: 0 <= i < start || end < i < a.Length ==> a[i] == old(a[i])
      invariant Prepend(a[start..q], Decode(s[p - start..])) == Decode(s)
    {
      ghost var rest, out := s[p - start..], a[start..q];
      DecodeStep(rest, out);
      assert rest[0] == s[p - start] && rest[1..] == s[p + 1 - start..];
      if a[p] == '=' {
        assert p + 1 < end ==> rest[1] == s[p + 1 - start] == a[p + 1];
        NotHex();
        if !IsHex(a[p + 1]) {
          return false, "";
        }
        assert p + 2 < end ==> rest[2] == s[p + 2 - start] == a[p + 2];
        if !IsHex(a[p + 2]) {
          return false, "";
        }
        assert rest[3..] == s[p + 3 - start..];
        a[q] := (16 * HexValue(a[p + 1]) + HexValue(a[p + 2])) as char;
        p := p + 3;
      } else {
        a[q] := a[p];
        p := p + 1;
      }
      assert a[start..q + 1] == out + [a[q]];
      q := q + 1;
    }
    DecodeNothing(s[p - start..], a[start..q]);
    t := a[start..q];
    a[q] := NUL;
    assert a[start..start + |t|] == t;
    ok := true;
  }

  lemma NotHex()
    ensures !IsHex(NUL)
  {
  }

  lemma NothingBefore(s: string)
    ensures Prepend("", Decode(s)) == Decode(s)
  {
    if Decode(s).Some? {
      assert "" + Decode(s).value == Decode(s).value;
    }
  }

  lemma DecodeMore(ps: seq<string>, k: nat)
    requires k < |ps|
    ensures DecodeAll(ps[..k + 1])
         == match DecodeAll(ps[..k]) {
              case None => None
              case Some(ts) => match Decode(ps[k]) { case None => None case Some(t) => Some(ts + [t]) }
            }
  {
    assert ps[..k + 1][..k] == ps[..k];
  }

  lemma {:induction false} DecodeFails(ps: seq<string>, k: nat)
    requires k <= |ps| && DecodeAll(ps[..k]) == None
    ensures DecodeAll(ps) == None
    decreases |ps| - k
  {
    if k == |ps| {
      assert ps[..k] == ps;
    } else {
      DecodeMore(ps, k);
      DecodeFails(ps, k + 1);
    }
  }

  /** strtok_r() finds the next piece of z from pos on. */
  method NextPiece(a: array<char>, pos: nat, e: nat) returns (start: nat, end: nat)
    requires pos <= e < a.Length && a[e] == NUL && NUL !in a[pos..e]
    ensures pos <= start <= end <= e
    ensures start == e ==> Tokens(a[pos..e], BAR) == []
    ensures start < e ==> start < end && (end < e ==> a[end] == BAR)
    ensures start < e ==> Tokens(a[pos..e], BAR) == [a[start..end]] + Tokens(a[end..e], BAR)
  {
    hide Tokens;
    start := pos;
    while start < e && a[start] == BAR
      invariant pos <= start <= e && Tokens(a[pos..e], BAR) == Tokens(a[start..e], BAR)
    {
      assert a[start..e][1..] == a[start + 1..e];
      SkipBar(a[start..e]);
      start := start + 1;
    }
    end := start;
    if start == e {
      NothingLeft();
      return;
    }
    ghost var s := a[start..e];
    while end < e && a[end] != BAR
      invariant start <= end <= e && BAR !in a[start..end]
    {
      assert a[start..end + 1] == a[start..end] + [a[end]];
      end := end + 1;
    }
    assert s == a[start..end] + a[end..e];
    FirstPiece(a[start..end], a[end..e]);
  }

  lemma NothingLeft()
    ensures Tokens("", BAR) == []
  {
  }

  lemma FirstPiece(t: string, rest: string)
    requires t != "" && BAR !in t && (rest == "" || rest[0] == BAR)
    ensures Tokens(t + rest, BAR) == [t] + Tokens(rest, BAR)
  {
    TokensCons(t, rest, BAR);
    if rest != "" {
      SkipBar(rest);
    }
  }

  /** The strings already decoded, all of them before `limit`. */
  ghost predicate Stored(a: array<char>, ptrs: seq<nat>, done: seq<string>, limit: nat)
    reads a
  {
    |ptrs| <= |done| && forall k :: 0 <= k < |ptrs| ==> StringAt(a, ptrs[k], done[k]) && ptrs[k] + |done[k]| < limit
  }

  /** strtok_r() cuts the piece off, and the loop decodes it. */
  method DecodeNext(a: array<char>, start: nat, end: nat, e: nat, ghost ptrs: seq<nat>, ghost done: seq<string>, ghost limit: nat)
    returns (ok: bool, ghost t: string)
    requires limit <= start < end <= e < a.Length && a[e] == NUL && NUL !in a[start..end]
    requires Stored(a, ptrs, done, limit)
    modifies a
    ensures ok <==> Decode(old(a[start..end])).Some?
    ensures ok ==> Some(t) == Decode(old(a[start..end])) && StringAt(a, start, t) && start + |t| <= end
    ensures ok ==> Stored(a, ptrs, done, limit)
    ensures a[e] == NUL && (end < e ==> a[end + 1..e] == old(a[end + 1..e]))
  {
    hide Decode;
    ghost var piece := a[start..end];
    a[end] := NUL;
    assert a[start..end] == piece;
    ok, t := DecodePiece(a, start, end);
    if ok {
      forall k | 0 <= k < |ptrs| ensures StringAt(a, ptrs[k], done[k]) {
        assert old(StringAt(a, ptrs[k], done[k]));
        assert a[ptrs[k]..ptrs[k] + |done[k]|] == old(a[ptrs[k]..ptrs[k] + |done[k]|]);
      }
    }
  }

  /** dkim_ohdrs: the value of the z= tag is cut and decoded where it stands. */
  method OriginalHeaders(a: array<char>, e: nat, pcnt: nat) returns (ok: bool, ptrs: seq<nat>, n: nat)
    requires e < a.Length && a[e] == NUL && NUL !in a[..e]
    modifies a
    ensures var all := DecodeAll(Tokens(old(a[..e]), '|'));
            && (ok <==> all.Some?)
            && (ok ==> n == |all.value| && |ptrs| == (if n < pcnt then n else pcnt) &&
                       forall k :: 0 <= k < |ptrs| ==> StringAt(a, ptrs[k], all.value[k]))
  {
    hide Decode, DecodeAll, Tokens, StringAt;
    ghost var z := a[..e];
    ghost var pieces := Tokens(z, BAR);
    ghost var done: seq<string>, limit: nat := [], 0;
    var pos := 0;
    ptrs, n := [], 0;
    assert pieces[..0] == [] && pieces[0..] == pieces && z[0..e] == z;
    assert DecodeAll([]) == Some([]) by { NoneDecoded(); }
    while true
      invariant pos <= e && a[e] == NUL && a[pos..e] == z[pos..e] && n <= |pieces|
      invariant Tokens(z[pos..e], BAR) == pieces[n..] && DecodeAll(pieces[..n]) == Some(done) && |done| == n
      invariant |ptrs| == if n < pcnt then n else pcnt
      invariant Stored(a, ptrs, done, limit) && (limit <= pos || pos == e)
      decreases |pieces| - n
    {
      NoNuls(z, pos, e);
      var start, end := NextPiece(a, pos, e);
      if start == e {
        assert pieces[..n] == pieces;
        return true, ptrs, n;
      }
      ghost var piece, rest := a[start..end], a[end..e];
      assert pieces[n..] == [piece] + Tokens(rest, BAR);
      assert pieces[n] == piece && pieces[n..][1..] == pieces[n + 1..] == Tokens(rest, BAR);
      DecodeMore(pieces, n);
      Aligned(a, z, pos, start, end, e);
      NoNuls(z, start, end);
      ghost var after := if end < e then a[end + 1..e] else "";
      assert end < e ==> rest[0] == BAR && rest[1..] == after == z[end + 1..e];
      var good, t := DecodeNext(a, start, end, e, ptrs, done, limit);
      if !good {
        DecodeFails(pieces, n + 1);
        return false, [], 0;
      }
      if n < pcnt {
        ptrs := ptrs + [start];
      }
      done := done + [t];
      n := n + 1;
      limit := end + 1;
      if end < e {
        SkipBar(rest);
        pos := end + 1;
      } else {
        pos := e;
      }
    }
  }

  lemma NoneDecoded()
    ensures DecodeAll([]) == Some([])
  {
  }

  lemma NoNuls(z: string, i: nat, j: nat)
    requires i <= j <= |z| && NUL !in z
    ensures NUL !in z[i..j]
  {
  }

  lemma Aligned(a: array<char>, z: string, pos: nat, start: nat, end: nat, e: nat)
    requires pos <= start <= end <= e == |z| < a.Length && a[pos..e] == z[pos..e]
    ensures a[start..end] == z[start..end] && a[end..e] == z[end..e]
  {
    assert forall i :: pos <= i < e ==> a[i] == a[pos..e][i - pos] == z[i];
  }

  lemma SkipBar(rest: string)
    requires rest != "" && rest[0] == BAR
    ensures Tokens(rest, BAR) == Tokens(rest[1..], BAR)
  {
  }

  // ---------- Printing, then decoding ----------

  /** The part of the z= tag that is for the i-th header. */
  function Piece(text: string, first: bool): (s: string)
    requires Ascii(text)
  {
    if first then Staged("", text) else
      StagedIs([BAR], text);
      Staged([BAR], text)[1..]
  }

  lemma PieceIs(text: string, first: bool)
    requires Ascii(text) && BAR !in text && text != ""
    ensures var lead := if first then "" else [BAR];
            && Staged(lead, text) == lead + Piece(text, first)
            && Piece(text, first) != "" && BAR !in Piece(text, first)
            && (if Fits(lead, text) then Decode(Piece(text, first)) == Some(text)
                else Decode(Piece(text, first)) != Some(text))
  {
    hide Staged, Decode, Fits;
    var lead, s := if first then "" else [BAR], EncodeText(text);
    StagedIs(lead, text);
    var r := Staged(lead, text);
    var m := |r| - |lead|;
    assert r == (lead + s)[..|r|] && (lead + s)[..|lead| + m] == lead + s[..m];
    assert first ==> "" + s[..m] == s[..m];
    assert Piece(text, first) == s[..m];
    EncodeBar(text);
    DecodePart(text, m);
    if m == |s| {
      assert s[..m] == s && r == lead + s;
    }
  }

  predicate CopyOk(h: string) {
    Ascii(h) && BAR !in h && h != ""
  }

  /** Each header fits the buffer, the bar before it included. */
  predicate AllFit(headers: seq<string>)
    requires AllAscii(headers)
  {
    forall i :: 0 <= i < |headers| ==> FitsAt(headers, i)
  }

  predicate FitsAt(headers: seq<string>, i: nat)
    requires AllAscii(headers) && i < |headers|
  {
    assert headers[i] in headers;
    Fits(if i == 0 then "" else [BAR], headers[i])
  }

  function PiecesOf(headers: seq<string>): (ps: seq<string>)
    requires AllAscii(headers)
    ensures |ps| == |headers|
  {
    if headers == [] then []
    else
      var n := |headers| - 1;
      assert headers[n] in headers && forall h :: h in headers[..n] ==> h in headers;
      PiecesOf(headers[..n]) + [Piece(headers[n], n == 0)]
  }

  lemma {:induction false} PrintedPieces(headers: seq<string>)
    requires AllAscii(headers) && forall h :: h in headers ==> CopyOk(h)
    ensures PrintZ(headers) == Joined(PiecesOf(headers), '|')
    ensures forall t :: t in PiecesOf(headers) ==> t != "" && BAR !in t
  {
    hide Staged, Piece, Joined, PrintZ, PiecesOf, Fits, Decode;
    JoinedNothing(BAR);
    if headers == [] {
      NothingPrinted();
    } else {
      var n := |headers| - 1;
      assert headers[n] in headers && forall h :: h in headers[..n] ==> h in headers;
      PrintedPieces(headers[..n]);
      PieceIs(headers[n], n == 0);
      PrintedLast(headers);
      var before, p := PiecesOf(headers[..n]), Piece(headers[n], n == 0);
      JoinedSnoc(before, p, BAR);
      if n == 0 {
        assert before == [] && "" + ("" + p) == p;
      } else {
        Associative(Joined(before, BAR), [BAR], p);
      }
    }
  }

  lemma NothingPrinted()
    ensures PrintZ([]) == "" && PiecesOf([]) == []
  {
  }

  lemma PrintedLast(headers: seq<string>)
    requires AllAscii(headers) && headers != []
    ensures var n := |headers| - 1;
            && AllAscii(headers[..n]) && Ascii(headers[n])
            && PrintZ(headers) == PrintZ(headers[..n]) + Staged(if n == 0 then "" else [BAR], headers[n])
            && PiecesOf(headers) == PiecesOf(headers[..n]) + [Piece(headers[n], n == 0)]
  {
    hide Staged, Piece;
    var n := |headers| - 1;
    assert headers[n] in headers && forall h :: h in headers[..n] ==> h in headers;
  }

  lemma DecodeSnoc(ps: seq<string>, p: string, hs: seq<string>, h: string)
    ensures DecodeAll(ps + [p]) == Some(hs + [h]) <==> DecodeAll(ps) == Some(hs) && Decode(p) == Some(h)
  {
    assert (ps + [p])[..|ps|] == ps;
    if DecodeAll(ps).Some? && Decode(p).Some? {
      var ts, t := DecodeAll(ps).value, Decode(p).value;
      if ts + [t] == hs + [h] {
        assert |ts| == |hs| && (ts + [t])[..|ts|] == ts && (hs + [h])[..|ts|] == hs;
        assert (ts + [t])[|ts|] == t && (hs + [h])[|ts|] == h;
      }
    }
  }

  lemma FitSnoc(headers: seq<string>)
    requires AllAscii(headers) && headers != []
    ensures var n := |headers| - 1;
            && AllAscii(headers[..n]) && Ascii(headers[n])
            && (AllFit(headers) <==> AllFit(headers[..n]) && Fits(if n == 0 then "" else [BAR], headers[n]))
  {
    hide Fits;
    var n := |headers| - 1;
    assert headers[n] in headers && forall h :: h in headers[..n] ==> h in headers;
    assert forall i :: 0 <= i < n ==> FitsAt(headers, i) == FitsAt(headers[..n], i);
    assert FitsAt(headers, n) == Fits(if n == 0 then "" else [BAR], headers[n]);
  }

  lemma {:induction false} DecodedPieces(headers: seq<string>)
    requires AllAscii(headers) && forall h :: h in headers ==> CopyOk(h)
    ensures DecodeAll(PiecesOf(headers)) == Some(headers) <==> AllFit(headers)
  {
    hide Piece, Decode, Fits, CopyOk, AllFit, DecodeAll;
    if headers == [] {
      NothingDecoded(headers);
    } else {
      var n := |headers| - 1;
      var before, last := headers[..n], headers[n];
      assert last in headers && forall h :: h in before ==> h in headers;
      FitSnoc(headers);
      DecodedPieces(before);
      PieceIs2(last, n == 0);
      DecodeSnoc(PiecesOf(before), Piece(last, n == 0), before, last);
      assert headers == before + [last];
    }
  }

  lemma NothingDecoded(headers: seq<string>)
    requires headers == []
    ensures AllFit(headers) && DecodeAll(PiecesOf(headers)) == Some(headers)
  {
  }

  lemma PieceIs2(text: string, first: bool)
    requires CopyOk(text)
    ensures Decode(Piece(text, first)) == Some(text) <==> Fits(if first then "" else [BAR], text)
  {
    PieceIs(text, first);
  }

  /** The header fields come back, all and in order, exactly when every encoding fits the buffer. */
  lemma CopiesComeBack(headers: seq<string>)
    requires AllAscii(headers) && forall h :: h in headers ==> CopyOk(h)
    ensures DecodeAll(Tokens(PrintZ(headers), BAR)) == Some(headers) <==> AllFit(headers)
  {
    PrintedPieces(headers);
    TokensOfJoined(PiecesOf(headers), BAR);
    DecodedPieces(headers);
  }
}
