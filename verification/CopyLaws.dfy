/** The encoding of copied header fields by its bytes (section 2.11 of RFC 4871): what an encoding looks like, and
    which texts are encodings. */
module CopyLaws {
  import opened Text
  import opened CopiedHeaders

  // ---------- Encoding ----------

  /** An encoding has no semicolon, no white space and no byte that cannot be printed. */
  lemma {:induction false} EncodedBytes(t: string)
    requires Ascii(t)
    ensures forall c :: c in EncodeText(t) ==> 33 <= c as int <= 126 && c as int != 59
    decreases |t|
  {
    if t != "" {
      assert t[0] in t && forall c :: c in t[1..] ==> c in t;
      EncodedBytes(t[1..]);
    }
  }

  /** A visible byte but for ';' and '=' stands for itself, and any other is an equals sign and two capital hexadecimal
      digits. */
  lemma EncodedByte(c: char)
    requires c as int < 128
    ensures EncodeByte(c)
         == if 33 <= c as int <= 126 && c as int != 59 && c as int != 61 then [c]
            else [61 as char, "0123456789ABCDEF"[c as int / 16 % 16], "0123456789ABCDEF"[c as int % 16]]
  {
    HexDigits(c as int / 16);
    HexDigits(c as int % 16);
  }

  lemma HexDigits(n: nat)
    requires n < 16
    ensures HexDigit(n) == "0123456789ABCDEF"[n]
  {
  }

  lemma AsciiParts(a: string, b: string)
    requires Ascii(a + b)
    ensures Ascii(a) && Ascii(b)
  {
    assert forall c :: c in a || c in b ==> c in a + b;
  }

  lemma EncodeCons(c: char, t: string)
    requires Ascii([c] + t)
    ensures Ascii(t) && c as int < 128 && EncodeText([c] + t) == EncodeByte(c) + EncodeText(t)
  {
    hide EncodeByte;
    AsciiParts([c], t);
    var s := [c] + t;
    assert s[0] == c && s[1..] == t && c in [c];
  }

  lemma EncodeNothing()
    ensures Ascii("") && EncodeText("") == ""
  {
  }

  lemma {:induction false} EncodedAppend(a: string, b: string)
    requires Ascii(a + b)
    ensures Ascii(a) && Ascii(b) && EncodeText(a + b) == EncodeText(a) + EncodeText(b)
    decreases |a|
  {
    hide EncodeText, EncodeByte, Ascii;
    AsciiParts(a, b);
    if a == "" {
      EncodeNothing();
      assert a + b == b && "" + EncodeText(b) == EncodeText(b);
    } else {
      assert a == [a[0]] + a[1..] && a + b == [a[0]] + (a[1..] + b);
      EncodeCons(a[0], a[1..] + b);
      EncodeCons(a[0], a[1..]);
      EncodedAppend(a[1..], b);
      Associative(EncodeByte(a[0]), EncodeText(a[1..]), EncodeText(b));
    }
  }

  /** Every byte of a text is encoded like this, in order. */
  lemma EncodedEach(before: string, c: char, after: string)
    requires Ascii(before + [c] + after)
    ensures Ascii(before) && Ascii(after) && c as int < 128
    ensures EncodeText(before + [c] + after) == EncodeText(before) + EncodeByte(c) + EncodeText(after)
  {
    hide EncodeText, EncodeByte, Ascii;
    Associative(before, [c], after);
    EncodedAppend(before, [c] + after);
    EncodeCons(c, after);
    Associative(EncodeText(before), EncodeByte(c), EncodeText(after));
  }

  // ---------- Decoding ----------

  /** How an encoding is written: bytes other than '=', and equals signs with two digits of this list, where digit 16 is
      a small a. */
  datatype Unit = Raw(c: RawByte) | Escape(hi: Digit, lo: Digit)

  type RawByte = c: char | c as int != 61 witness '\0'
  type Digit = d: nat | d < 22

  const DIGITS: string := "0123456789ABCDEF" + "abcdef"

  function ShowUnit(u: Unit): (s: string) {
    match u
    case Raw(c) => [c]
    case Escape(hi, lo) => [61 as char, DIGITS[hi], DIGITS[lo]]
  }

  function ShowUnits(us: seq<Unit>): (s: string) {
    if us == [] then "" else ShowUnit(us[0]) + ShowUnits(us[1..])
  }

  function Worth(digit: Digit): (n: int)
    ensures 0 <= n < 16
  {
    if digit < 16 then digit else digit - 6
  }

  function UnitByte(u: Unit): (c: char) {
    match u
    case Raw(c) => c
    case Escape(hi, lo) => (16 * Worth(hi) + Worth(lo)) as char
  }

  function UnitBytes(us: seq<Unit>): (t: string)
    ensures |t| == |us| && forall i :: 0 <= i < |us| ==> t[i] == UnitByte(us[i])
  {
    seq(|us|, i requires 0 <= i < |us| => UnitByte(us[i]))
  }

  lemma DigitIs(d: Digit)
    ensures |DIGITS| == 22 && IsHex(DIGITS[d]) && HexValue(DIGITS[d]) == Worth(d)
  {
    if d < 16 {
      HexDigits(d);
      DigitRound(d);
      assert DIGITS[d] == "0123456789ABCDEF"[d];
    } else {
      assert DIGITS[d] == "abcdef"[d - 16];
    }
  }

  lemma HexListed(c: char) returns (d: Digit)
    requires IsHex(c)
    ensures DIGITS[d] == c
  {
    var v := HexValue(c);
    d := if c <= 'F' then v else v + 6;
    DigitIs(d);
  }

  lemma DecodeEscape(h: char, l: char, t: string)
    ensures Decode(['=', h, l] + t) == if IsHex(h) && IsHex(l) then Prepend([(16 * HexValue(h) + HexValue(l)) as char], Decode(t))
                                       else None
  {
    var s := ['=', h, l] + t;
    assert s[0] == '=' && s[1] == h && s[2] == l && s[3..] == t;
  }

  lemma DecodeRaw(c: char, t: string)
    requires c != '='
    ensures Decode([c] + t) == Prepend([c], Decode(t))
  {
    assert ([c] + t)[0] == c && ([c] + t)[1..] == t;
  }

  lemma DecodeUnit(u: Unit, t: string)
    ensures Decode(ShowUnit(u) + t) == Prepend([UnitByte(u)], Decode(t))
  {
    hide Decode, IsHex, HexValue, Worth;
    match u
    case Raw(c) => DecodeRaw(c, t);
    case Escape(hi, lo) =>
      DigitIs(hi);
      DigitIs(lo);
      DecodeEscape(DIGITS[hi], DIGITS[lo], t);
  }

  /** What is written like this is decoded to its bytes, */
  lemma {:induction false} DecodesUnits(us: seq<Unit>)
    ensures Decode(ShowUnits(us)) == Some(UnitBytes(us))
    decreases |us|
  {
    hide Decode, ShowUnit, UnitByte;
    if us == [] {
      DecodedEmpty();
    } else {
      DecodesUnits(us[1..]);
      DecodeUnit(us[0], ShowUnits(us[1..]));
      assert UnitBytes(us) == [UnitByte(us[0])] + UnitBytes(us[1..]);
    }
  }

  lemma DecodedEmpty()
    ensures Decode("") == Some("")
  {
  }

  /** and nothing else is decoded. */
  lemma {:induction false} OnlyUnitsDecoded(s: string) returns (us: seq<Unit>)
    ensures Decode(s).Some? ==> ShowUnits(us) == s
    decreases |s|
  {
    hide Decode, IsHex, HexValue, Worth;
    us := [];
    if s != "" {
      if s[0] != '=' {
        var rest := OnlyUnitsDecoded(s[1..]);
        us := [Raw(s[0])] + rest;
        assert s == [s[0]] + s[1..] && us[1..] == rest;
        DecodeRaw(s[0], s[1..]);
      } else if |s| >= 3 {
        assert s == ['=', s[1], s[2]] + s[3..];
        DecodeEscape(s[1], s[2], s[3..]);
        if IsHex(s[1]) && IsHex(s[2]) {
          var rest := OnlyUnitsDecoded(s[3..]);
          var hi := HexListed(s[1]);
          var lo := HexListed(s[2]);
          us := [Escape(hi, lo)] + rest;
          assert us[1..] == rest;
        }
      } else {
        ShortEscape(s);
      }
    }
  }

  lemma ShortEscape(s: string)
    requires 0 < |s| < 3 && s[0] == '='
    ensures Decode(s).None?
  {
  }
}
