/** dkim_chunk: a whole message in pieces, split into its header fields and its body. */
module Splitter {
  import opened Text
  import opened Spacing

  const MAXBUFRSZ: nat := 65536

  datatype ChunkState = ChunkInit | ChunkHeader | ChunkBody | ChunkDone

  /** What the inner calls and dkim_chunk itself return; a failed inner call's status is passed on. */
  datatype Stat = StatOk | Invalid | Failed(code: nat)

  // ---------- The specification: one byte after the other ----------

  /** sm is the state of the header scanner; `headers` and `body` are what dkim_header and dkim_body have been given. */
  datatype Split = Split(sm: nat, hdrbuf: string, headers: seq<string>, eoh: bool, body: string)

  const START := Split(0, "", [], false, "")

  /** dkim_dstring_cat1 on the header buffer: a byte that does not fit is dropped. */
  function Cat1(buf: string, c: char): (r: string) {
    if |buf| + 1 >= MAXBUFRSZ then buf else buf + [c]
  }

  /** The field in the buffer without its CRLF. */
  function Trimmed(buf: string): (r: string) {
    if |buf| < 2 then "" else buf[..|buf| - 2]
  }

  function Read(s: Split, c: char): (r: Split) {
    if s.eoh then s.(body := s.body + [c])
    else if s.sm == 0 then s.(hdrbuf := Cat1(s.hdrbuf, c), sm := if c == '\r' then 1 else 0)
    else if s.sm == 1 then s.(hdrbuf := Cat1(s.hdrbuf, c), sm := if c == '\n' then 2 else 0)
    else if s.sm == 2 then
      if IsLwsp(c) then s.(hdrbuf := Cat1(s.hdrbuf, c), sm := 0)
      else if c == '\r' then s.(sm := 3)
      else s.(headers := s.headers + [Trimmed(s.hdrbuf)], hdrbuf := [c], sm := 0)
    else if c == '\n' then
      s.(headers := if s.hdrbuf == "" then s.headers else s.headers + [Trimmed(s.hdrbuf)], eoh := true)
    else s.(headers := s.headers + [Trimmed(s.hdrbuf)], hdrbuf := ['\r', c], sm := 0)
  }

  function ReadAll(s: Split, text: string): (r: Split) {
    if text == "" then s else Read(ReadAll(s, text[..|text| - 1]), text[|text| - 1])
  }

  // ---------- The code ----------

  class Splitter {
    var chunkstate: ChunkState
    var sm: nat
    var hdrbuf: string
    var headers: seq<string>   // the calls of dkim_header
    var eohs: nat              // the calls of dkim_eoh
    var parts: seq<string>     // the calls of dkim_body
    var failed: bool           // one of these calls has failed

    ghost predicate Valid()
      reads this
    {
      && sm <= 3
      && (chunkstate == ChunkInit ==> headers == [] && eohs == 0 && parts == [])
      && (chunkstate == ChunkHeader ==> parts == [])
      && (chunkstate == ChunkBody ==> eohs > 0)
    }

    /** What has happened so far, in the terms of the specification. */
    ghost function View(): (s: Split)
      reads this
    {
      if chunkstate == ChunkInit then START else Split(sm, hdrbuf, headers, chunkstate == ChunkBody, Concat(parts))
    }

    constructor ()
      ensures Valid() && chunkstate == ChunkInit && eohs == 0 && !failed
    {
      chunkstate, sm, hdrbuf, headers, eohs, parts := ChunkInit, 0, "", [], 0, [];
      failed := false;
    }

    method Header(text: string) returns (r: Stat)
      modifies this`headers, this`failed
      ensures headers == old(headers) + [text] && failed == (old(failed) || r != StatOk)
    {
      headers := headers + [text];
      r := *;
      failed := failed || r != StatOk;
    }

    method Eoh() returns (r: Stat)
      modifies this`eohs, this`failed
      ensures eohs == old(eohs) + 1 && failed == (old(failed) || r != StatOk)
    {
      eohs := eohs + 1;
      r := *;
      failed := failed || r != StatOk;
    }

    method Body(part: string) returns (r: Stat)
      modifies this`parts, this`failed
      ensures parts == old(parts) + [part] && failed == (old(failed) || r != StatOk)
    {
      parts := parts + [part];
      r := *;
      failed := failed || r != StatOk;
    }

    /** The field in the header buffer is complete; c starts the next. */
    method NextField(start: string) returns (r: Stat)
      modifies this`headers, this`hdrbuf, this`sm, this`failed
      ensures failed == (old(failed) || r != StatOk)
      ensures headers == old(headers) + [Trimmed(old(hdrbuf))]
      ensures r == StatOk ==> hdrbuf == start && sm == 0
      ensures r != StatOk ==> hdrbuf == old(hdrbuf) && sm == old(sm)
    {
      r := Header(Trimmed(hdrbuf));
      if r == StatOk {
        hdrbuf, sm := start, 0;
      }
    }

    /** The blank line after the fields. */
    method EndFields() returns (r: Stat)
      requires chunkstate == ChunkHeader
      modifies this`headers, this`eohs, this`chunkstate, this`failed
      ensures failed == (old(failed) || r != StatOk)
      ensures r == StatOk ==>
                && headers == (if hdrbuf == "" then old(headers) else old(headers) + [Trimmed(hdrbuf)])
                && eohs == old(eohs) + 1 && chunkstate == ChunkBody
      ensures r != StatOk ==> chunkstate == ChunkHeader
    {
      if |hdrbuf| > 0 {
        r := Header(Trimmed(hdrbuf));
        if r != StatOk {
          return;
        }
      }
      r := Eoh();
      if r != StatOk {
        return;
      }
      chunkstate := ChunkBody;
    }

    /** dkim_chunk with an empty buffer: the end of the message. */
    method End() returns (r: Stat)
      requires Valid()
      modifies this
      ensures Valid()
      ensures r == Invalid <== old(chunkstate) == ChunkDone
      ensures old(chunkstate) != ChunkDone ==> failed == (old(failed) || r != StatOk)
      ensures r == StatOk ==> chunkstate == ChunkDone
      ensures r == StatOk && old(chunkstate) == ChunkBody ==>
                headers == old(headers) && eohs == old(eohs) && parts == old(parts)
      ensures r == StatOk && old(chunkstate) == ChunkHeader ==>
                && headers == (if old(hdrbuf) == "" then old(headers) else old(headers) + [old(hdrbuf)])
                && eohs == old(eohs) + 1 && parts == old(parts)
      ensures r == StatOk && old(chunkstate) == ChunkInit ==>
                headers == old(headers) && eohs == old(eohs) + 1 && parts == old(parts)
    {
      if chunkstate == ChunkDone {
        return Invalid;
      } else if chunkstate == ChunkInit {
        hdrbuf, chunkstate, sm := "", ChunkHeader, 0;
      }
      if chunkstate == ChunkHeader {
        if |hdrbuf| > 0 {
          r := Header(hdrbuf);
          if r != StatOk {
            return;
          }
        }
        r := Eoh();
        if r != StatOk {
          return;
        }
      }
      chunkstate := ChunkDone;
      r := StatOk;
    }

    /** dkim_chunk with some bytes. */
    method Chunk(buf: string) returns (r: Stat)
      requires Valid() && buf != ""
      modifies this
      ensures Valid()
      ensures old(chunkstate) == ChunkDone ==> r == Invalid
      ensures chunkstate == ChunkDone <==> old(chunkstate) == ChunkDone
      ensures old(chunkstate) == ChunkBody ==> chunkstate == ChunkBody
      ensures old(chunkstate) != ChunkDone ==> failed == (old(failed) || r != StatOk)
      ensures r == StatOk ==> View() == ReadAll(old(View()), buf)
      ensures r == StatOk ==> eohs == old(eohs) + if View().eoh && !old(View().eoh) then 1 else 0
    {
      hide ReadAll, Concat;
      ghost var before := View();
      if chunkstate == ChunkDone {
        return Invalid;
      } else if chunkstate == ChunkInit {
        hdrbuf, chunkstate, sm := "", ChunkHeader, 0;
        ConcatNothing();
      }
      if chunkstate == ChunkBody {
        AllBody(before, buf);
        ConcatSnoc(parts, buf);
        r := Body(buf);
        return;
      }
      var p := 0;
      ReadNothing(before);
      assert buf[..0] == "";
      while p < |buf|
        invariant p <= |buf| && Valid() && chunkstate == ChunkHeader && eohs == old(eohs) && failed == old(failed)
        invariant View() == ReadAll(before, buf[..p])
      {
        ReadNext(before, buf, p);
        ghost var was := View();
        var c := buf[p];
        if sm == 0 {
          hdrbuf := Cat1(hdrbuf, c);
          if c == '\r' {
            sm := 1;
          }
        } else if sm == 1 {
          hdrbuf := Cat1(hdrbuf, c);
          sm := if c == '\n' then 2 else 0;
        } else if sm == 2 {
          if IsLwsp(c) {
            hdrbuf := Cat1(hdrbuf, c);
            sm := 0;
          } else if c == '\r' {
            sm := 3;
          } else {
            r := NextField([c]);
            if r != StatOk {
              return;
            }
          }
        } else {
          if c == '\n' {
            r := EndFields();
            if r != StatOk {
              return;
            }
            if p + 1 < |buf| {
              ReadMore(before, buf, p + 1);
              AllBody(View(), buf[p + 1..]);
              ConcatSnoc(parts, buf[p + 1..]);
              r := Body(buf[p + 1..]);
            } else {
              assert buf[..p + 1] == buf;
            }
            return;
          } else {
            r := NextField(['\r', c]);
            if r != StatOk {
              return;
            }
          }
        }
        assert View() == Read(was, c);
        p := p + 1;
      }
      assert buf[..p] == buf;
      r := StatOk;
    }
  }

  lemma ReadNothing(s: Split)
    ensures ReadAll(s, "") == s
  {
  }

  lemma ConcatSnoc(ss: seq<string>, t: string)
    ensures Concat(ss + [t]) == Concat(ss) + t
  {
    assert (ss + [t])[..|ss|] == ss;
  }

  lemma ReadNext(s: Split, text: string, p: nat)
    requires p < |text|
    ensures ReadAll(s, text[..p + 1]) == Read(ReadAll(s, text[..p]), text[p])
  {
    assert text[..p + 1][..p] == text[..p];
  }

  /** Reading is done in any pieces. */
  lemma {:induction false} ReadMore(s: Split, text: string, p: nat)
    requires p <= |text|
    ensures ReadAll(s, text) == ReadAll(ReadAll(s, text[..p]), text[p..])
    decreases |text|
  {
    hide Read, ReadAll;
    if p == |text| {
      assert text[..p] == text && text[p..] == "";
      ReadNothing(ReadAll(s, text));
    } else {
      var n := |text| - 1;
      ReadMore(s, text[..n], p);
      assert text[..n][..p] == text[..p] && text[..n][p..] == text[p..][..n - p];
      assert text[..n + 1] == text && text[p..][..n - p + 1] == text[p..] && text[p..][n - p] == text[n];
      ReadNext(s, text, n);
      ReadNext(ReadAll(s, text[..p]), text[p..], n - p);
    }
  }

  lemma {:induction false} AllBody(s: Split, text: string)
    requires s.eoh
    ensures ReadAll(s, text) == s.(body := s.body + text)
  {
    if text == "" {
      assert s.body + text == s.body;
    } else {
      var n := |text| - 1;
      AllBody(s, text[..n]);
      assert s.body + text[..n] + [text[n]] == s.body + text by { assert text == text[..n] + [text[n]]; }
    }
  }

  // ---------- Messages ----------

  /** A field: a pair of bytes 13 and 10 only in folds, followed by one of 9, 11, 12 and 32; no byte 13 at either end or
      twice in a row; and it does not start with one of these four. With its line break it fits the buffer. */
  predicate FieldOk(f: string) {
    && 0 < |f| < 65534
    && !BlankByte(f[0]) && f[0] as int != 13
    && (forall i :: 0 <= i < |f| && f[i] as int == 13 ==> i + 1 < |f| && f[i + 1] as int != 13)
    && (forall i :: 0 <= i < |f| - 1 && f[i] as int == 13 && f[i + 1] as int == 10 ==> i + 2 < |f| && BlankByte(f[i + 2]))
  }

  predicate FieldsOk(fields: seq<string>) {
    fields != [] && forall i :: 0 <= i < |fields| ==> FieldOk(fields[i])
  }

  function Lines(fields: seq<string>): (text: string) {
    if fields == [] then "" else Lines(fields[..|fields| - 1]) + fields[|fields| - 1] + CRLF
  }

  function Message(fields: seq<string>, body: string): (text: string) {
    Lines(fields) + CRLF + body
  }

  /** The state within a field of which k bytes are read. */
  function Within(f: string, k: nat): (sm: nat)
    requires 0 < k <= |f|
  {
    if f[k - 1] == '\r' then 1 else if k > 1 && f[k - 2] == '\r' && f[k - 1] == '\n' then 2 else 0
  }

  lemma {:induction false} ReadField(s: Split, f: string, k: nat)
    requires FieldOk(f) && 0 < k <= |f| && !s.eoh
    requires s.sm == 0 && s.hdrbuf == ""
    ensures ReadAll(s, f[..k]) == s.(sm := Within(f, k), hdrbuf := f[..k])
  {
    hide ReadAll;
    assert f[..k] == f[..k - 1] + [f[k - 1]];
    ReadNext(s, f, k - 1);
    if k == 1 {
      assert f[..0] == "";
      ReadNothing(s);
    } else {
      ReadField(s, f, k - 1);
      assert f[k - 2] == '\r' ==> f[k - 1] != '\r';
      if k > 2 && f[k - 3] == '\r' && f[k - 2] == '\n' {
        SpaceIs(f[k - 1]);
      }
    }
  }

  /** The first byte of a field ends the field before it. */
  lemma ReadFirst(s: Split, c: char, headers: seq<string>)
    requires !IsLwsp(c) && c != '\r'
    requires (s == START && headers == []) || (s.sm == 2 && !s.eoh && headers == s.headers + [Trimmed(s.hdrbuf)])
    ensures Read(s, c) == Read(s.(sm := 0, hdrbuf := "", headers := headers), c)
  {
    assert "" + [c] == [c];
  }

  /** A field longer than the buffer is cut: what does not fit is dropped. */
  lemma {:induction false} ReadLong(f: string)
    requires forall c :: c in f ==> c as int != 13
    ensures ReadAll(START, f) == START.(hdrbuf := if |f| <= 65535 then f else f[..65535])
  {
    if f == "" {
      ReadNothing(START);
    } else {
      var n := |f| - 1;
      assert f == f[..n] + [f[n]] && f[n] in f && forall c :: c in f[..n] ==> c in f;
      ReadLong(f[..n]);
      assert n == 65535 ==> f[..65535] == f[..n];
      assert n > 65535 ==> f[..n][..65535] == f[..65535];
    }
  }

  /** The CRLF after a field. */
  lemma ReadCrlf(s: Split, f: string)
    requires s.sm == 0 && !s.eoh && s.hdrbuf == f && |f| < MAXBUFRSZ - 2
    ensures ReadAll(s, CRLF) == s.(sm := 2, hdrbuf := f + CRLF)
  {
    ReadTwo(s, '\r', '\n');
    assert f + ['\r'] + ['\n'] == f + CRLF;
  }

  /** After two CRs an LF does not end a line, */
  lemma ReadCrCr(s: Split, f: string)
    requires s.sm == 0 && !s.eoh && s.hdrbuf == f && |f| < MAXBUFRSZ - 4
    ensures ReadAll(s, "\r\r\n") == s.(hdrbuf := f + "\r\r\n")
  {
    var t := "\r\r\n";
    assert t[..0] == "" && t[..1] == ['\r'] && t[..2] == "\r\r" && t[..3] == t;
    ReadNothing(s);
    ReadNext(s, t, 0);
    ReadNext(s, t, 1);
    ReadNext(s, t, 2);
    assert f + ['\r'] + ['\r'] + ['\n'] == f + t;
  }

  /** and a line that starts with a CR, but is not blank, is the next field. */
  lemma ReadCrFirst(f: string, c: char)
    requires FieldOk(f) && c as int != 10
    ensures ReadAll(START, f + CRLF + "\r" + [c]) == START.(headers := [f], hdrbuf := "\r" + [c])
  {
    hide ReadAll, FieldOk;
    var line := f + CRLF;
    var text := line + "\r" + [c];
    ReadLine(START, f, []);
    ReadMore(START, text, |line|);
    assert text[..|line|] == line && text[|line|..] == ['\r', c];
    ReadTwo(START.(sm := 2, hdrbuf := line), '\r', c);
    TrimmedField(f);
    assert [] + [f] == [f];
  }

  lemma ReadTwo(s: Split, c: char, d: char)
    ensures ReadAll(s, [c, d]) == Read(Read(s, c), d)
  {
    assert [c, d][..1] == [c];
    ReadOne(s, c);
  }

  lemma WithinEnd(f: string)
    requires FieldOk(f)
    ensures Within(f, |f|) == 0
  {
    var n := |f|;
    assert f[n - 1] != '\r';
    assert n > 1 && f[n - 2] == '\r' ==> f[n - 1] != '\n';
  }

  /** A field after a field, or at the start. */
  lemma ReadLine(s: Split, f: string, headers: seq<string>)
    requires FieldOk(f)
    requires (s == START && headers == []) || (s.sm == 2 && !s.eoh && headers == s.headers + [Trimmed(s.hdrbuf)])
    ensures ReadAll(s, f + CRLF) == s.(sm := 2, hdrbuf := f + CRLF, headers := headers)
  {
    hide ReadAll, Read, Within;
    var t := s.(sm := 0, hdrbuf := "", headers := headers);
    var n := |f|;
    ReadFirst(s, f[0], headers);
    ReadOne(s, f[0]);
    ReadOne(t, f[0]);
    assert f[..1] == [f[0]] && f[..n] == f;
    ReadMore(s, f, 1);
    ReadMore(t, f, 1);
    ReadField(t, f, n);
    WithinEnd(f);
    var text := f + CRLF;
    assert text[..n] == f && text[n..] == CRLF;
    ReadMore(s, text, n);
    ReadCrlf(t.(hdrbuf := f), f);
  }

  lemma ReadOne(s: Split, c: char)
    ensures ReadAll(s, [c]) == Read(s, c)
  {
    assert [c][..0] == "";
    ReadNothing(s);
  }

  lemma {:induction false} ReadLines(fields: seq<string>)
    requires FieldsOk(fields)
    ensures var n := |fields| - 1;
            ReadAll(START, Lines(fields)) == Split(2, fields[n] + CRLF, fields[..n], false, "")
  {
    hide ReadAll, FieldOk, Lines, Trimmed;
    var n := |fields| - 1;
    var before, line := Lines(fields[..n]), fields[n] + CRLF;
    LinesLast(fields);
    ReadMore(START, Lines(fields), |before|);
    if n == 0 {
      ReadNothing(START);
      ReadLine(START, fields[0], []);
      assert fields[..0] == [];
    } else {
      ReadLines(fields[..n]);
      TrimmedField(fields[n - 1]);
      assert fields[..n] == fields[..n - 1] + [fields[n - 1]] && fields[..n][..n - 1] == fields[..n - 1];
      ReadLine(ReadAll(START, before), fields[n], fields[..n]);
    }
  }

  lemma LinesLast(fields: seq<string>)
    requires fields != []
    ensures var before, line := Lines(fields[..|fields| - 1]), fields[|fields| - 1] + CRLF;
            Lines(fields) == before + line && Lines(fields)[..|before|] == before && Lines(fields)[|before|..] == line
    ensures |fields| == 1 ==> Lines(fields[..|fields| - 1]) == ""
  {
    Associative(Lines(fields[..|fields| - 1]), fields[|fields| - 1], CRLF);
  }

  lemma TrimmedField(f: string)
    ensures Trimmed(f + CRLF) == f
  {
  }

  /** The whole message is read as its fields and its body. */
  lemma ReadMessage(fields: seq<string>, body: string)
    requires FieldsOk(fields)
    ensures var s := ReadAll(START, Message(fields, body));
            s.headers == fields && s.eoh && s.body == body
  {
    hide ReadAll, FieldOk, Lines;
    var lines, text, n := Lines(fields), Message(fields, body), |fields| - 1;
    ReadLines(fields);
    ReadMore(START, text, |lines|);
    assert text[..|lines|] == lines && text[|lines|..] == CRLF + body;
    var s := ReadAll(START, lines);
    assert Trimmed(fields[n] + CRLF) == fields[n];
    assert fields[..n] + [fields[n]] == fields;
    ReadMore(s, CRLF + body, 2);
    assert (CRLF + body)[..2] == CRLF && (CRLF + body)[2..] == body;
    ReadOne(s, '\r');
    ReadMore(s, CRLF, 1);
    assert CRLF[..1] == ['\r'] && CRLF[1..] == ['\n'];
    ReadOne(s.(sm := 3), '\n');
    AllBody(ReadAll(s, CRLF), body);
    assert "" + body == body;
  }

  /** However a message is divided, and unless one of the calls it makes fails, dkim_chunk makes the same calls. */
  method SplitMessage(chunks: seq<string>, fields: seq<string>, body: string) returns (s: Splitter, ok: bool)
    requires FieldsOk(fields) && Concat(chunks) == Message(fields, body)
    requires forall i :: 0 <= i < |chunks| ==> chunks[i] != ""
    ensures ok <==> !s.failed
    ensures ok ==> s.headers == fields && s.eohs == 1 && Concat(s.parts) == body && s.chunkstate == ChunkDone
  {
    hide ReadAll, Concat, FieldOk, Message;
    s := new Splitter();
    ReadNothing(START);
    ConcatNothing();
    assert chunks[..0] == [];
    var i := 0;
    while i < |chunks|
      invariant i <= |chunks| && s.Valid() && s.chunkstate != ChunkDone && fresh(s) && !s.failed
      invariant s.View() == ReadAll(START, Concat(chunks[..i]))
      invariant s.eohs == if s.View().eoh then 1 else 0
    {
      var r := s.Chunk(chunks[i]);
      if r != StatOk {
        return s, false;
      }
      ConcatTake(chunks, i);
      var before, part := Concat(chunks[..i]), chunks[i];
      ReadMore(START, before + part, |before|);
      assert (before + part)[..|before|] == before && (before + part)[|before|..] == part;
      i := i + 1;
    }
    assert chunks[..i] == chunks;
    ReadMessage(fields, body);
    var r := s.End();
    ok := r == StatOk;
  }
}
