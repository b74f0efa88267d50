/** base64.c: the encoder and decoder, which shift bytes and characters through one accumulator. */
module Base64 {
  import opened Text

  type Octet = x: int | 0 <= x < 256
  type Sextet = x: int | 0 <= x < 64

  predicate IsAlphabet(c: char) {
    'A' <= c <= 'Z' || 'a' <= c <= 'z' || '0' <= c <= '9' || c == '+' || c == '/'
  }

  /** The table "A-Za-z0-9+/" and its inverse. */
  function Letter(v: Sextet): (c: char)
    ensures IsAlphabet(c) && Value(c) == v && c != '=' && c != '\0'
  {
    if v < 26 then (v + 65) as char
    else if v < 52 then (v + 71) as char
    else if v < 62 then (v - 4) as char
    else if v == 62 then '+' else '/'
  }

  function Value(c: char): (v: Sextet)
    requires IsAlphabet(c)
  {
    if 'A' <= c <= 'Z' then c as int - 65
    else if 'a' <= c <= 'z' then c as int - 71
    else if '0' <= c <= '9' then c as int + 4
    else if c == '+' then 62 else 63
  }

  const ALPHABET: string := "ABCDEFGHIJKLMNOPQRSTUVWXYZ" + "abcdefghijklmnopqrstuvwxyz" + "0123456789" + "+/"

  /** Which letter stands for which value, and that no other character stands for one. */
  lemma LetterIs(v: Sextet)
    ensures |ALPHABET| == 64 && Letter(v) == ALPHABET[v] && IsAlphabet(ALPHABET[v]) && Value(ALPHABET[v]) == v
  {
    hide Letter;
    if v < 26 {
      Capital(v);
    } else if v < 52 {
      Smaller(v);
    } else if v < 62 {
      Digit(v);
    } else {
      Signs();
    }
  }

  lemma Capital(v: Sextet)
    requires v < 26
    ensures Letter(v) == "ABCDEFGHIJKLMNOPQRSTUVWXYZ"[v]
  {
  }

  lemma Smaller(v: Sextet)
    requires 26 <= v < 52
    ensures Letter(v) == "abcdefghijklmnopqrstuvwxyz"[v - 26]
  {
  }

  lemma Digit(v: Sextet)
    requires 52 <= v < 62
    ensures Letter(v) == "0123456789"[v - 52]
  {
  }

  lemma Signs()
    ensures Letter(62) == '+' && Letter(63) == '/'
  {
  }

  lemma AlphabetIs(c: char)
    ensures IsAlphabet(c) <==> c in ALPHABET
  {
    if IsAlphabet(c) {
      LetterIs(Value(c));
      assert Letter(Value(c)) == c;
    }
    if c in ALPHABET {
      var v: Sextet :| ALPHABET[v] == c;
      LetterIs(v);
    }
  }

  // ---------- Section 4 of RFC 4648: three bytes are four groups of six bits ----------

  function Six(a: int, b: int, c: int): (s: seq<Sextet>)
    requires 0 <= a < 256 && 0 <= b < 256 && 0 <= c < 256
    ensures |s| == 4
  {
    [a / 4, a % 4 * 16 + b / 16, b % 16 * 4 + c / 64, c % 64]
  }

  function Three(p: int, q: int, r: int, s: int): (data: seq<Octet>)
    requires 0 <= p < 64 && 0 <= q < 64 && 0 <= r < 64 && 0 <= s < 64
    ensures |data| == 3
  {
    [p * 4 + q / 16, q % 16 * 16 + r / 4, r % 4 * 64 + s]
  }

  lemma ThreeSix(a: int, b: int, c: int)
    requires 0 <= a < 256 && 0 <= b < 256 && 0 <= c < 256
    ensures var s := Six(a, b, c); Three(s[0], s[1], s[2], s[3]) == [a, b, c]
    ensures b == 0 && c == 0 ==> Six(a, b, c)[2..] == [0, 0]
    ensures c == 0 ==> Six(a, b, c)[3..] == [0]
  {
    hide Three;
    var a1, a0, b1, b0, c1, c0 := a / 4, a % 4, b / 16, b % 16, c / 64, c % 64;
    assert a == 4 * a1 + a0 && b == 16 * b1 + b0 && c == 64 * c1 + c0;
    OctetsOfDigits(a1, a0, b1, b0, c1, c0);
  }

  lemma OctetsOfDigits(a1: int, a0: int, b1: int, b0: int, c1: int, c0: int)
    requires 0 <= a1 < 64 && 0 <= a0 < 4 && 0 <= b1 < 16 && 0 <= b0 < 16 && 0 <= c1 < 4 && 0 <= c0 < 64
    ensures Three(a1, a0 * 16 + b1, b0 * 4 + c1, c0) == [4 * a1 + a0, 16 * b1 + b0, 64 * c1 + c0]
  {
    Divided(a0, b1, 16);
    Divided(b0, c1, 4);
  }

  lemma Divided(x: int, y: int, k: int)
    requires 0 <= y < k && (k == 16 || k == 4)
    ensures (x * k + y) / k == x && (x * k + y) % k == y
  {
  }

  function Split(data: seq<Octet>): (s: seq<Sextet>) {
    if data == [] then []
    else if |data| == 1 then Six(data[0], 0, 0)[..2]
    else if |data| == 2 then Six(data[0], data[1], 0)[..3]
    else Six(data[0], data[1], data[2]) + Split(data[3..])
  }

  function Unite(s: seq<Sextet>): (data: seq<Octet>) {
    if |s| <= 1 then []
    else if |s| == 2 then Three(s[0], s[1], 0, 0)[..1]
    else if |s| == 3 then Three(s[0], s[1], s[2], 0)[..2]
    else Three(s[0], s[1], s[2], s[3]) + Unite(s[4..])
  }

  function Letters(s: seq<Sextet>): (r: string)
    ensures |r| == |s|
  {
    seq(|s|, i requires 0 <= i < |s| => Letter(s[i]))
  }

  function Padding(n: nat): (r: string) {
    if n % 3 == 1 then "==" else if n % 3 == 2 then "=" else ""
  }

  function Encode(data: seq<Octet>): (s: string) {
    Letters(Split(data)) + Padding(|data|)
  }

  function BASE64SIZE(n: nat): (size: nat) {
    (n + 2) / 3 * 4
  }

  lemma {:induction false} SplitLength(data: seq<Octet>)
    ensures |Split(data)| == |data| / 3 * 4 + (if |data| % 3 == 0 then 0 else |data| % 3 + 1)
  {
    if |data| > 2 {
      SplitLength(data[3..]);
    }
  }

  /** 4 * ceil(n / 3) characters for n bytes. */
  lemma EncodeLength(data: seq<Octet>)
    ensures |Encode(data)| == BASE64SIZE(|data|)
  {
    SplitLength(data);
  }

  lemma {:induction false} SplitAppend(a: seq<Octet>, b: seq<Octet>)
    requires |a| % 3 == 0
    ensures Split(a + b) == Split(a) + Split(b)
  {
    hide Six;
    if a == [] {
      assert a + b == b;
    } else {
      SplitAppend(a[3..], b);
      assert (a + b)[3..] == a[3..] + b;
    }
  }

  lemma {:induction false} UniteAppend(a: seq<Sextet>, b: seq<Sextet>)
    requires |a| % 4 == 0
    ensures Unite(a + b) == Unite(a) + Unite(b)
    ensures |Unite(a)| == |a| / 4 * 3
  {
    hide Unite;
    if a == [] {
      NothingUnited();
      assert a + b == b && [] + Unite(b) == Unite(b);
    } else {
      UniteAppend(a[4..], b);
      var c := a + b;
      assert c[4..] == a[4..] + b && c[0] == a[0] && c[1] == a[1] && c[2] == a[2] && c[3] == a[3];
      UniteNext(a);
      UniteNext(c);
      Associative(Three(a[0], a[1], a[2], a[3]), Unite(a[4..]), Unite(b));
    }
  }

  lemma NothingUnited()
    ensures Unite([]) == []
  {
  }

  lemma UniteNext(s: seq<Sextet>)
    requires |s| >= 4
    ensures Unite(s) == Three(s[0], s[1], s[2], s[3]) + Unite(s[4..])
  {
    hide Three;
    if |s| == 4 {
      NothingUnited();
    }
  }

  lemma {:induction false} UniteSplit(data: seq<Octet>)
    ensures Unite(Split(data)) == data
  {
    hide Six, Three;
    if data != [] {
      var b, c := if |data| > 1 then data[1] else 0, if |data| > 2 then data[2] else 0;
      ThreeSix(data[0], b, c);
      var s := Six(data[0], b, c);
      assert |data| == 1 ==> s[2] == s[2..][0] == 0 && s[3] == s[2..][1] == 0;
      assert |data| == 2 ==> s[3] == s[3..][0] == 0;
      if |data| > 2 {
        UniteSplit(data[3..]);
        assert Split(data)[4..] == Split(data[3..]);
        assert data == data[..3] + data[3..];
      }
    }
  }

  method Put(buf: array<char>, n: nat, quad: string)
    requires |quad| == 4 && n + 4 <= buf.Length
    modifies buf
    ensures buf[..n + 4] == old(buf[..n]) + quad
  {
    buf[n], buf[n + 1], buf[n + 2], buf[n + 3] := quad[0], quad[1], quad[2], quad[3];
  }

  /** Up to three bytes of a group in the top of 24 bits. */
  function Bits24(part: seq<Octet>): (bits: int)
    requires |part| <= 3
    ensures 0 <= bits < 0x100_0000
  {
    Word24(if |part| > 0 then part[0] else 0, if |part| > 1 then part[1] else 0, if |part| > 2 then part[2] else 0)
  }

  function Word24(a: int, b: int, c: int): (bits: int) {
    a * 0x1_0000 + b * 0x100 + c
  }

  /** The accumulator after fewer than three bytes of a group. */
  function Shifted(part: seq<Octet>): (bits: int)
    requires |part| < 3
  {
    if |part| == 0 then 0 else if |part| == 1 then Word24(0, part[0], 0) else Word24(part[0], part[1], 0)
  }

  lemma ShiftedGrows(part: seq<Octet>, x: Octet)
    requires |part| < 3
    ensures |part| < 2 ==> (Shifted(part) + x) * 0x100 == Shifted(part + [x])
    ensures |part| == 2 ==> Shifted(part) + x == Bits24(part + [x])
    ensures |part| == 1 ==> Shifted(part) * 0x100 == Bits24(part)
    ensures |part| == 2 ==> Shifted(part) == Bits24(part)
  {
  }

  /** A number is its four digits to base 64. */
  lemma Digits64(w: int, p: int, q: int, r: int, s: int)
    requires 0 <= p < 64 && 0 <= q < 64 && 0 <= r < 64 && 0 <= s < 64
    requires w == 0x4_0000 * p + 0x1000 * q + 64 * r + s
    ensures w / 0x4_0000 == p && w / 0x1000 % 64 == q && w / 64 % 64 == r && w % 64 == s
  {
    assert w / 0x1000 == 64 * p + q;
    assert w / 64 == 64 * (64 * p + q) + r;
  }

  /** A number is its three digits to base 256. */
  lemma Digits256(w: int, a: int, b: int, c: int)
    requires 0 <= a < 256 && 0 <= b < 256 && 0 <= c < 256
    requires w == 0x1_0000 * a + 0x100 * b + c
    ensures w / 0x1_0000 == a && w / 0x100 % 0x100 == b && w % 0x100 == c
  {
    assert w / 0x100 == 0x100 * a + b;
  }

  /** The four sextets of 24 bits, by shifts. */
  function Quad(bits: int): (q: seq<Sextet>)
    requires 0 <= bits < 0x100_0000
    ensures |q| == 4
  {
    [bits / 0x4_0000, bits / 0x1000 % 64, bits / 64 % 64, bits % 64]
  }

  lemma WordOfDigits(a1: int, a0: int, b1: int, b0: int, c1: int, c0: int)
    requires 0 <= a1 < 64 && 0 <= a0 < 4 && 0 <= b1 < 16 && 0 <= b0 < 16 && 0 <= c1 < 4 && 0 <= c0 < 64
    ensures var w := Word24(4 * a1 + a0, 16 * b1 + b0, 64 * c1 + c0);
            0 <= w < 0x100_0000 && Quad(w) == [a1, a0 * 16 + b1, b0 * 4 + c1, c0]
  {
    Digits64(Word24(4 * a1 + a0, 16 * b1 + b0, 64 * c1 + c0), a1, a0 * 16 + b1, b0 * 4 + c1, c0);
  }

  lemma SixBits(a: int, b: int, c: int)
    requires 0 <= a < 256 && 0 <= b < 256 && 0 <= c < 256
    ensures 0 <= Word24(a, b, c) < 0x100_0000 && Six(a, b, c) == Quad(Word24(a, b, c))
  {
    var a1, a0, b1, b0, c1, c0 := a / 4, a % 4, b / 16, b % 16, c / 64, c % 64;
    WordOfDigits(a1, a0, b1, b0, c1, c0);
  }

  lemma SixIs(a: int, b: int, c: int, p: Sextet, q: Sextet, r: Sextet, s: Sextet)
    requires 0 <= a < 256 && 0 <= b < 256 && 0 <= c < 256
    requires a * 0x1_0000 + b * 0x100 + c == p as int * 0x4_0000 + q as int * 0x1000 + r as int * 0x40 + s
    ensures Six(a, b, c) == [p, q, r, s]
  {
    SixBits(a, b, c);
    Digits64(Word24(a, b, c), p, q, r, s);
  }

  /** Three bytes, read as one number, are written as its four digits to base 64. */
  lemma ThreeEncoded(data: seq<Octet>, p: Sextet, q: Sextet, r: Sextet, s: Sextet)
    requires |data| >= 3
    requires data[0] as int * 0x1_0000 + data[1] as int * 0x100 + data[2]
          == p as int * 0x4_0000 + q as int * 0x1000 + r as int * 0x40 + s
    ensures Encode(data) == [ALPHABET[p], ALPHABET[q], ALPHABET[r], ALPHABET[s]] + Encode(data[3..])
  {
    hide Letter, Value, Six, IsAlphabet;
    SixIs(data[0], data[1], data[2], p, q, r, s);
    AllLetters();
    LettersAppend([p, q, r, s], Split(data[3..]));
    Associative(Letters([p, q, r, s]), Letters(Split(data[3..])), Padding(|data| - 3));
    assert |data[3..]| == |data| - 3 && Padding(|data|) == Padding(|data| - 3);
  }

  /** One byte or two at the end are filled up with zero bits to two or three digits, and the rest is padding. */
  lemma RestEncoded(data: seq<Octet>, p: Sextet, q: Sextet, r: Sextet)
    ensures data == [] ==> Encode(data) == ""
    ensures |data| == 1 && data[0] as int * 0x10 == p as int * 0x40 + q ==>
              Encode(data) == [ALPHABET[p], ALPHABET[q], '=', '=']
    ensures |data| == 2 && (data[0] as int * 0x100 + data[1]) * 4 == p as int * 0x1000 + q as int * 0x40 + r ==>
              Encode(data) == [ALPHABET[p], ALPHABET[q], ALPHABET[r], '=']
  {
    hide Letter, Value, Six, IsAlphabet;
    AllLetters();
    if |data| == 1 && data[0] as int * 0x10 == p as int * 0x40 + q {
      SixIs(data[0], 0, 0, p, q, 0, 0);
    }
    if |data| == 2 && (data[0] as int * 0x100 + data[1]) * 4 == p as int * 0x1000 + q as int * 0x40 + r {
      SixIs(data[0], data[1], 0, p, q, r, 0);
    }
  }

  lemma AllLetters()
    ensures |ALPHABET| == 64 && forall v: Sextet :: Letter(v) == ALPHABET[v]
  {
    hide Letter, Value;
    forall v: Sextet ensures |ALPHABET| == 64 && Letter(v) == ALPHABET[v] {
      LetterIs(v);
    }
    LetterIs(0);
  }

  lemma QuadBits(part: seq<Octet>)
    requires 1 <= |part| <= 3
    ensures Split(part) == Quad(Bits24(part))[..|part| + 1]
  {
    hide Six, Word24, Quad;
    SixBits(part[0], if |part| > 1 then part[1] else 0, if |part| > 2 then part[2] else 0);
    assert |part| == 3 ==> Split(part[3..]) == [];
  }

  lemma LettersAppend(a: seq<Sextet>, b: seq<Sextet>)
    ensures Letters(a + b) == Letters(a) + Letters(b)
  {
    hide Letter;
  }

  /** A whole group. */
  lemma GroupEncoded(before: seq<Octet>, part: seq<Octet>)
    requires |before| % 3 == 0 && |part| == 3
    ensures Letters(Split(before + part)) == Letters(Split(before)) + Letters(Quad(Bits24(part)))
    ensures |Split(before)| == |before| / 3 * 4
  {
    hide Split, Quad, Letters, Bits24;
    QuadBits(part);
    SplitAppend(before, part);
    SplitLength(before);
    LettersAppend(Split(before), Split(part));
    assert Quad(Bits24(part))[..4] == Quad(Bits24(part));
  }

  /** The last group, and its padding. */
  lemma LastEncoded(before: seq<Octet>, part: seq<Octet>)
    requires |before| % 3 == 0 && 1 <= |part| <= 2
    ensures var q := Quad(Bits24(part));
            && (|part| == 1 ==> Encode(before + part) == Letters(Split(before)) + [Letter(q[0]), Letter(q[1]), '=', '='])
            && (|part| == 2 ==>
                  Encode(before + part) == Letters(Split(before)) + [Letter(q[0]), Letter(q[1]), Letter(q[2]), '='])
  {
    hide *;
    QuadBits(part);
    SplitAppend(before, part);
    LettersAppend(Split(before), Split(part));
    EncodeIs(before, part);
    var q, head := Quad(Bits24(part)), Letters(Split(before));
    LastLetters(q, |part|);
    Associative(head, Letters(Split(part)), Padding(|part|));
    var tail := Letters(Split(part)) + Padding(|part|);
    assert Encode(before + part) == head + tail;
    if |part| == 1 {
      assert Split(part) == q[..2];
      assert tail == [Letter(q[0]), Letter(q[1]), '=', '='];
    } else {
      assert Split(part) == q[..3];
      assert tail == [Letter(q[0]), Letter(q[1]), Letter(q[2]), '='];
    }
  }

  lemma LastLetters(q: seq<Sextet>, k: nat)
    requires |q| == 4 && 1 <= k <= 2
    ensures k == 1 ==> Letters(q[..2]) + Padding(k) == [Letter(q[0]), Letter(q[1]), '=', '=']
    ensures k == 2 ==> Letters(q[..3]) + Padding(k) == [Letter(q[0]), Letter(q[1]), Letter(q[2]), '=']
  {
    hide Letter;
  }

  lemma EncodeIs(before: seq<Octet>, part: seq<Octet>)
    requires |before| % 3 == 0 && |part| < 3
    ensures Encode(before + part) == Letters(Split(before + part)) + Padding(|part|)
  {
    hide Letters, Split, Padding;
    PaddingOf(|before|, |part|);
    assert |before + part| == |before| + |part|;
  }

  lemma PaddingOf(m: nat, r: nat)
    requires m % 3 == 0 && r < 3
    ensures Padding(m + r) == Padding(r)
  {
  }

  lemma NothingEncoded()
    ensures Letters(Split([])) == "" && Shifted([]) == 0
  {
  }

  lemma WholeGroups(data: seq<Octet>)
    requires |data| % 3 == 0
    ensures Encode(data) == Letters(Split(data))
  {
    assert Letters(Split(data)) + "" == Letters(Split(data));
  }

  /** Four characters for every group begun. */
  lemma SizeIs(total: nat, d: nat, k: nat)
    requires d % 3 == 0 && k <= 3 && d + k <= total
    ensures k > 0 ==> BASE64SIZE(total) >= d / 3 * 4 + 4
    ensures d + k == total ==> BASE64SIZE(total) == d / 3 * 4 + (if k == 0 then 0 else 4)
    ensures k == 3 ==> (d + k) % 3 == 0 && (d + k) / 3 * 4 == d / 3 * 4 + 4
  {
    var m := d / 3;
    assert d == 3 * m;
    if k > 0 {
      assert (total + 2) / 3 >= m + 1;
    }
    if k == 3 {
      assert (d + k) / 3 == m + 1;
    }
  }

  /** dkim_base64_encode */
  method EncodeTo(data: seq<Octet>, buf: array<char>) returns (n: int)
    modifies buf
    ensures n == if BASE64SIZE(|data|) <= buf.Length then BASE64SIZE(|data|) else -1
    ensures n != -1 ==> buf[..n] == Encode(data)
  {
    hide Letter, Letters, Split, Quad, Bits24, Shifted, Encode, BASE64SIZE;
    var bits: int, count, c := 0, 0, 0;
    ghost var before: seq<Octet>, part: seq<Octet> := [], [];
    n := 0;
    NothingEncoded();
    while c < |data|
      invariant 0 <= c <= |data| && count == |part| < 3 && data[..c] == before + part
      invariant |before| % 3 == 0 && n == |before| / 3 * 4 && 0 <= n <= buf.Length
      invariant bits == Shifted(part)
      invariant buf[..n] == Letters(Split(before))
    {
      ShiftedGrows(part, data[c]);
      assert data[..c + 1] == data[..c] + [data[c]];
      Associative(before, part, [data[c]]);
      bits := bits + data[c];
      count := count + 1;
      part := part + [data[c]];
      SizeIs(|data|, |before|, count);
      if count == 3 {
        if n + 4 > buf.Length {
          return -1;
        }
        GroupEncoded(before, part);
        Put(buf, n, Letters(Quad(bits)));
        n := n + 4;
        before := before + part;
        assert before + [] == before;
        bits, count, part := 0, 0, [];
      } else {
        bits := bits * 0x100;
      }
      c := c + 1;
    }
    assert data[..c] == data;
    SizeIs(|data|, |before|, count);
    if count != 0 {
      if n + 4 > buf.Length {
        return -1;
      }
      ShiftedGrows(part, 0);
      bits := if count == 1 then bits * 0x100 else bits;
      LastEncoded(before, part);
      var q := Quad(bits);
      Put(buf, n, [Letter(q[0]), Letter(q[1]), if count == 1 then '=' else Letter(q[2]), '=']);
      n := n + 4;
    } else {
      assert before + [] == before;
      WholeGroups(data);
    }
  }

  // ---------- Decoding ----------

  /** The values of the characters that count: those of the alphabet, up to the padding. */
  function Payload(s: string): (p: seq<Sextet>) {
    if s == "" || s[0] == '=' || s[0] == '\0' then []
    else if IsAlphabet(s[0]) then [Value(s[0])] + Payload(s[1..])
    else Payload(s[1..])
  }

  /** Room is asked for three bytes at the first character of every group, full or not. */
  function Need(chars: nat): (n: nat) {
    (chars + 3) / 4 * 3
  }

  /** The accumulator after some characters of a group: the last of four is not shifted. */
  function Gathered(part: seq<Sextet>): (bits: int)
    requires |part| <= 4
  {
    if |part| == 0 then 0
    else if |part| == 4 then Gathered(part[..3]) + Plain(part[3])
    else (Gathered(part[..|part| - 1]) + Plain(part[|part| - 1])) * 64
  }

  function Plain(v: Sextet): (i: int) {
    v
  }

  /** The three bytes of 24 bits, by shifts. */
  function Triple(bits: int): (t: seq<Octet>)
    requires 0 <= bits < 0x100_0000
    ensures |t| == 3
  {
    [bits / 0x1_0000, bits / 0x100 % 0x100, bits % 0x100]
  }

  lemma ThreeBits(p: int, q: int, r: int, s: int)
    requires 0 <= p < 64 && 0 <= q < 64 && 0 <= r < 64 && 0 <= s < 64
    ensures var w := ((p * 64 + q) * 64 + r) * 64 + s;
            0 <= w < 0x100_0000 && Three(p, q, r, s) == Triple(w)
    ensures r == 0 && s == 0 ==> Three(p, q, r, s)[0] == (p * 64 + q) * 64 / 0x400
  {
    var w := ((p * 64 + q) * 64 + r) * 64 + s;
    Digits256(w, p * 4 + q / 16, q % 16 * 16 + r / 4, r % 4 * 64 + s);
  }

  lemma UnitePart(part: seq<Sextet>)
    requires 2 <= |part| <= 4
    ensures var w := Gathered(part);
            && 0 <= w < 0x100_0000
            && (|part| == 2 ==> Unite(part) == [w / 0x400])
            && (|part| == 3 ==> Unite(part) == Triple(w)[..2])
            && (|part| == 4 ==> Unite(part) == Triple(w))
  {
    hide Three, Triple, Gathered;
    ThreeBits(part[0], part[1], if |part| > 2 then part[2] else 0, if |part| > 3 then part[3] else 0);
    GatheredIs(part);
    assert |part| == 4 ==> Unite(part[4..]) == [];
    assert |part| == 2 ==> Unite(part) == [Three(part[0], part[1], 0, 0)[0]];
  }

  lemma GatheredIs(part: seq<Sextet>)
    requires 2 <= |part| <= 4
    ensures |part| == 2 ==> Gathered(part) == (Plain(part[0]) * 64 + part[1]) * 64
    ensures |part| == 3 ==> Gathered(part) == ((Plain(part[0]) * 64 + part[1]) * 64 + part[2]) * 64
    ensures |part| == 4 ==> Gathered(part) == ((Plain(part[0]) * 64 + part[1]) * 64 + part[2]) * 64 + part[3]
  {
    assert Gathered(part[..1]) == (Gathered(part[..1][..0]) + Plain(part[0])) * 64 == Plain(part[0]) * 64;
    var two := part[..2];
    assert two[..1] == part[..1];
    if |part| > 2 {
      var three := part[..3];
      assert three[..2] == two;
      if |part| == 3 {
        assert three == part;
      }
    } else {
      assert two == part;
    }
  }

  lemma GatheredGrows(part: seq<Sextet>, v: Sextet)
    requires |part| < 4
    ensures Gathered(part + [v]) == if |part| == 3 then Gathered(part) + v else (Gathered(part) + v) * 64
  {
    var more := part + [v];
    assert more[..|part|] == part && more[|part|] == v && Plain(v) == v;
    GatheredLast(more);
  }

  lemma GatheredLast(part: seq<Sextet>)
    requires 0 < |part| <= 4
    ensures var n := |part| - 1;
            Gathered(part) == if n == 3 then Gathered(part[..n]) + Plain(part[n]) else (Gathered(part[..n]) + Plain(part[n])) * 64
  {
  }

  lemma PayloadStep(s: string, i: nat)
    requires i < |s| && s[i] != '=' && s[i] != '\0'
    ensures Payload(s[i..]) == if IsAlphabet(s[i]) then [Value(s[i])] + Payload(s[i + 1..]) else Payload(s[i + 1..])
  {
    assert s[i..][0] == s[i] && s[i..][1..] == s[i + 1..];
  }

  lemma PayloadEnd(s: string, i: nat)
    requires i <= |s| && (i < |s| ==> s[i] == '=' || s[i] == '\0')
    ensures Payload(s[i..]) == []
  {
    if i < |s| {
      assert s[i..][0] == s[i];
    }
  }

  method PutTriple(buf: array<Octet>, n: nat, t: seq<Octet>)
    requires n + |t| <= buf.Length && |t| <= 3
    modifies buf
    ensures buf[..n + |t|] == old(buf[..n]) + t
  {
    forall i | 0 <= i < |t| {
      buf[n + i] := t[i];
    }
  }

  /** Room is asked for as soon as a group is begun. */
  lemma NeedIs(total: nat, d: nat, k: nat)
    requires d % 4 == 0 && k <= 4 && d + k <= total
    ensures k > 0 ==> Need(total) >= d / 4 * 3 + 3
    ensures d + k == total ==> Need(total) == d / 4 * 3 + (if k == 0 then 0 else 3)
    ensures k < 4 ==> (d + k) % 4 == k
  {
    var m := d / 4;
    assert d == 4 * m;
    if k > 0 {
      assert (total + 3) / 4 >= m + 1;
    }
  }

  /** dkim_base64_decode */
  method DecodeTo(str: string, buf: array<Octet>) returns (n: int)
    modifies buf
    ensures n == if Need(|Payload(str)|) > buf.Length then -2
                 else if |Payload(str)| % 4 == 1 then -1
                 else |Unite(Payload(str))|
    ensures 0 <= n ==> n <= buf.Length && buf[..n] == Unite(Payload(str))
  {
    hide IsAlphabet, Value, Unite, Triple, Gathered, Payload, Plain, Need;
    n := 0;
    var bits: int, count, i := 0, 0, 0;
    ghost var done: seq<Sextet>, part: seq<Sextet> := [], [];
    NothingGathered();
    assert str[0..] == str;
    while i < |str| && str[i] != '=' && str[i] != '\0'
      invariant i <= |str|
      invariant Payload(str) == done + part + Payload(str[i..])
      invariant |done| % 4 == 0 && |part| == count < 4 && n == |done| / 4 * 3 <= buf.Length
      invariant count > 0 ==> n + 3 <= buf.Length
      invariant bits == Gathered(part)
      invariant buf[..n] == Unite(done)
    {
      PayloadStep(str, i);
      if !IsAlphabet(str[i]) {
        i := i + 1;
        continue;
      }
      ghost var v, tail := Value(str[i]), Payload(str[i + 1..]);
      Associative(done + part, [v], tail);
      Associative(done, part, [v]);
      GatheredGrows(part, v);
      bits := bits + Value(str[i]);
      count := count + 1;
      part := part + [v];
      NeedIs(|Payload(str)|, |done|, count);
      if n + 3 > buf.Length {
        return -2;
      }
      if count == 4 {
        UniteAppend(done, part);
        UnitePart(part);
        PutTriple(buf, n, Triple(bits));
        n := n + 3;
        assert done + part + [] == done + part;
        done := done + part;
        bits, count, part := 0, 0, [];
        NothingGathered();
      } else {
        bits := bits * 64;
      }
      i := i + 1;
    }
    PayloadEnd(str, i);
    assert Payload(str) == done + part;
    NeedIs(|Payload(str)|, |done|, count);
    UniteAppend(done, part);
    if count == 1 {
      return -1;
    }
    if count >= 2 {
      UnitePart(part);
      PutTriple(buf, n, if count == 2 then [bits / 0x400] else Triple(bits)[..2]);
      n := n + count - 1;
    } else {
      assert done + part == done;
    }
  }

  lemma NothingGathered()
    ensures Gathered([]) == 0 && Unite([]) == []
  {
  }

  // ---------- Round trip ----------

  /** t is s with bytes that are neither in the alphabet nor NUL nor '=' put in before the padding. */
  predicate NoisyCopy(s: string, t: string)
    decreases |t|
  {
    || s == t
    || (t != "" && !IsAlphabet(t[0]) && t[0] != '\0' && t[0] != '=' && NoisyCopy(s, t[1..]))
    || (t != "" && s != "" && s[0] == t[0] && IsAlphabet(t[0]) && NoisyCopy(s[1..], t[1..]))
  }

  lemma {:induction false} NoisyPayload(s: string, t: string)
    requires NoisyCopy(s, t)
    ensures Payload(t) == Payload(s)
    decreases |t|
  {
    if s != t {
      if !IsAlphabet(t[0]) && t[0] != '\0' && t[0] != '=' && NoisyCopy(s, t[1..]) {
        NoisyPayload(s, t[1..]);
      } else {
        NoisyPayload(s[1..], t[1..]);
      }
    }
  }

  lemma {:induction false} PayloadOfLetters(s: seq<Sextet>, padding: string)
    requires padding == "" || padding[0] == '=' || padding[0] == '\0'
    ensures Payload(Letters(s) + padding) == s
  {
    var t := Letters(s) + padding;
    if s == [] {
      assert t == padding;
    } else {
      PayloadOfLetters(s[1..], padding);
      assert t[0] == Letter(s[0]);
      assert t[1..] == Letters(s[1..]) + padding;
      assert s == [s[0]] + s[1..];
    }
  }

  lemma NoisyIs(data: seq<Octet>, noisy: string)
    requires NoisyCopy(Encode(data), noisy)
    ensures Unite(Payload(noisy)) == data && |Payload(noisy)| % 4 != 1 && Need(|Payload(noisy)|) == (|data| + 2) / 3 * 3
  {
    hide IsAlphabet, Value, Unite, Split, Letters, NoisyCopy, Payload;
    NoisyPayload(Encode(data), noisy);
    PayloadOfLetters(Split(data), Padding(|data|));
    UniteSplit(data);
    SplitLength(data);
  }

  /** Encoding and decoding are inverse, whatever noise is put in between, exactly when there is room for
      whole groups. */
  method RoundTrip(data: seq<Octet>, noisy: string, room: nat) returns (n: int, decoded: seq<Octet>)
    requires NoisyCopy(Encode(data), noisy)
    ensures n >= 0 <==> room >= (|data| + 2) / 3 * 3
    ensures n >= 0 ==> n == |data| && decoded == data
  {
    hide IsAlphabet, Value, Unite, Split, Letters, NoisyCopy, Payload, Need, Encode;
    NoisyIs(data, noisy);
    var buf := new Octet[room];
    n := DecodeTo(noisy, buf);
    decoded := [];
    if n >= 0 {
      decoded := buf[..n];
    }
  }
}
