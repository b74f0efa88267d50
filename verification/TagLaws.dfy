/** Tag lists by their bytes (section 3.2 of RFC 4871): which texts dkim_process_set accepts and what it reads in them. */
module TagLaws {
  import opened Text
  import opened Spacing
  import opened HeaderCanon
  import opened SigHeader
  import opened TagList
  import opened PrintParse
  import opened HeaderLaws

  // ---------- Numbers ----------

  /** A number in decimal. */
  function Digits(n: nat): (s: string) {
    (if n < 10 then "" else Digits(n / 10)) + [(48 + n % 10) as char]
  }

  function Zeros(n: nat): (s: string)
    ensures |s| == n && forall i :: 0 <= i < n ==> s[i] as int == 48
  {
    seq(n, i => 48 as char)
  }

  /** strtoull() reads these: a sign perhaps, zeros, and a number that is not 2^64 - 1 or more. */
  ghost predicate Numeral(s: string) {
    exists plus: bool, zeros: nat, n: nat ::
      n < 18446744073709551615 && s == NumeralText(plus, zeros, n)
  }

  function NumeralText(plus: bool, zeros: nat, n: nat): (s: string) {
    (if plus then "+" else "") + (Zeros(zeros) + Digits(n))
  }

  lemma {:induction false} DigitsMean(n: nat)
    ensures Decimal(Digits(n)) == n && Digits(n) != "" && forall c :: c in Digits(n) ==> 48 <= c as int <= 57
  {
    var d := [(48 + n % 10) as char];
    if n < 10 {
      assert Digits(n) == "" + d == d;
      assert d[..0] == "";
    } else {
      DigitsMean(n / 10);
      assert Digits(n)[..|Digits(n)| - 1] == Digits(n / 10);
    }
  }

  lemma {:induction false} ZerosMean(zeros: nat, s: string)
    ensures Decimal(Zeros(zeros) + s) == Decimal(s)
    decreases |s|, zeros
  {
    var t := Zeros(zeros) + s;
    if s == "" {
      assert t == Zeros(zeros);
      if zeros > 0 {
        assert t[..|t| - 1] == Zeros(zeros - 1) + "";
        ZerosMean(zeros - 1, "");
      }
    } else {
      assert t[..|t| - 1] == Zeros(zeros) + s[..|s| - 1];
      ZerosMean(zeros, s[..|s| - 1]);
    }
  }

  /** Every such number is accepted as t= or x=. */
  lemma NumeralOk(plus: bool, zeros: nat, n: nat)
    ensures NumberOk(NumeralText(plus, zeros, n)) <==> n < 18446744073709551615
  {
    hide Decimal, Digits;
    DigitsMean(n);
    var digits := Zeros(zeros) + Digits(n);
    ZerosMean(zeros, Digits(n));
    AllDigits(zeros, Digits(n));
    Signed(plus, digits);
  }

  predicate DigitBytes(s: string) {
    forall i :: 0 <= i < |s| ==> 48 <= s[i] as int <= 57
  }

  lemma AllDigits(zeros: nat, s: string)
    requires forall c :: c in s ==> 48 <= c as int <= 57
    ensures DigitBytes(Zeros(zeros) + s)
  {
    var t := Zeros(zeros) + s;
    forall i | 0 <= i < |t|
      ensures 48 <= t[i] as int <= 57
    {
      if i >= zeros {
        assert t[i] == s[i - zeros] && s[i - zeros] in s;
      }
    }
  }

  /** What is asked of a number, with its sign. */
  lemma Signed(plus: bool, digits: string)
    requires digits != "" && DigitBytes(digits)
    ensures NumberOk((if plus then "+" else "") + digits) <==> Decimal(digits) < 18446744073709551615
  {
    hide Decimal;
    var s := (if plus then "+" else "") + digits;
    assert plus ==> s[1..] == digits;
    assert !plus ==> s == digits && s[0] != '+';
  }

  lemma Unsigned(s: string) returns (plus: bool, digits: string)
    requires NumberOk(s)
    ensures s == (if plus then "+" else "") + digits && digits != "" && DigitBytes(digits)
    ensures Decimal(digits) < 18446744073709551615
  {
    hide Decimal;
    plus := s != "" && s[0] == '+';
    digits := if plus then s[1..] else s;
    assert OnlyDigits(digits);
  }

  /** And nothing else. */
  lemma OnlyNumerals(s: string)
    ensures NumberOk(s) <==> Numeral(s)
  {
    hide NumberOk, Digits, Decimal, DigitBytes;
    if NumberOk(s) {
      var plus, digits := Unsigned(s);
      var zeros := ReadBack(digits);
      assert s == NumeralText(plus, zeros, Decimal(digits));
    }
    if Numeral(s) {
      var plus: bool, zeros: nat, n: nat :| n < 18446744073709551615 && s == NumeralText(plus, zeros, n);
      NumeralOk(plus, zeros, n);
    }
  }

  /** Digits are zeros and a number. */
  lemma {:induction false} ReadBack(digits: string) returns (zeros: nat)
    requires digits != "" && DigitBytes(digits)
    ensures Decimal(digits) >= 0 && digits == Zeros(zeros) + Digits(Decimal(digits))
  {
    hide Decimal, Digits, Zeros;
    var init, d := digits[..|digits| - 1], digits[|digits| - 1];
    var v := d as int - 48;
    assert digits == init + [d] && DigitBytes(init);
    DecimalSnoc(init, d);
    if init == "" {
      zeros := 0;
      NoDecimal();
      DigitsStep(v);
      assert "" + [d] == [d] && Zeros(0) + [d] == [d];
    } else {
      var z := ReadBack(init);
      var m := Decimal(init);
      DigitsStep(m * 10 + v);
      if m == 0 {
        zeros := z + 1;
        DigitsStep(0);
        OneZero(z);
        assert "" + [d] == [d];
      } else {
        zeros := z;
        Associative(Zeros(z), Digits(m), [d]);
      }
    }
  }

  lemma DecimalSnoc(init: string, d: char)
    ensures Decimal(init + [d]) == Decimal(init) * 10 + (d as int - 48)
  {
    assert (init + [d])[..|init|] == init;
  }

  lemma NoDecimal()
    ensures Decimal("") == 0
  {
  }

  lemma DigitsStep(n: nat)
    ensures Digits(n) == (if n < 10 then "" else Digits(n / 10)) + [(48 + n % 10) as char]
  {
  }

  lemma OneZero(z: nat)
    ensures Zeros(z) + ("" + [48 as char]) == Zeros(z + 1)
  {
  }

  // ---------- What a list is made of ----------

  predicate AlnumByte(c: char) {
    48 <= c as int <= 57 || 65 <= c as int <= 90 || 97 <= c as int <= 122
  }

  lemma BytesAre(c: char)
    ensures Readable(c) <==> 32 <= c as int <= 126 || 9 <= c as int <= 13
    ensures IsAlnum(c) <==> AlnumByte(c)
    ensures IsSpace(c) <==> SpaceByte(c)
  {
  }

  /** A byte that cannot be in a list, before the first NUL, makes it a bad one. */
  lemma BadBytes(kind: SetType, text: string, i: nat)
    requires i < |text| && (forall j :: 0 <= j <= i ==> text[j] as int != 0)
    requires !(32 <= text[i] as int <= 126 || 9 <= text[i] as int <= 13)
    ensures Process(kind, text) == Syntax
  {
    var n := TokenLength(text, '\0');
    assert UpToNul(text)[i] == text[i];
  }

  /** A tag with all the white space there may be, of bytes 9 to 13 and 32: in front of its name, behind it, in front of its
      value, and in and behind that. */
  datatype Given = Given(lead: string, name: string, gap: string, first: string, words: seq<string>, gaps: seq<string>)

  predicate GivenOk(g: Given) {
    && Only(SPACES, g.lead) && Only(SPACES, g.gap) && Only(SPACES, g.first) && Parted(SPACES, g.words, g.gaps)
    && g.name != "" && AlnumByte(g.name[0]) && ByteWord(g.name) && '=' !in g.name
    && forall w :: w in g.words ==> ByteWord(w)
  }

  /** Bytes 33 to 126 but for semicolons. */
  predicate ByteWord(w: string) {
    forall c :: c in w ==> 33 <= c as int <= 126 && c as int != 59
  }

  function Value(g: Given): (v: string) {
    g.first + Spread(g.words, g.gaps)
  }

  function GivenText(g: Given): (s: string) {
    g.lead + (g.name + g.gap) + "=" + Value(g)
  }

  function ListText(gs: seq<Given>): (s: string) {
    if gs == [] then "" else GivenText(gs[0]) + ";" + ListText(gs[1..])
  }

  /** What it says: name and value without any white space. */
  function Meant(gs: seq<Given>): (tags: seq<Tag>)
    ensures |tags| == |gs| && forall i :: 0 <= i < |gs| ==> tags[i] == Tag(gs[i].name, Flat(gs[i].words))
  {
    seq(|gs|, i requires 0 <= i < |gs| => Tag(gs[i].name, Flat(gs[i].words)))
  }

  lemma {:induction false} DespaceSpread(words: seq<string>, gaps: seq<string>)
    requires Parted(SPACES, words, gaps)
    ensures Despace(Spread(words, gaps)) == Flat(words)
    decreases |words|
  {
    hide Despace, SPACES;
    if words == [] {
      DespaceNothing();
    } else {
      PartedRest(SPACES, words, gaps);
      DespaceSpread(words[1..], gaps[1..]);
      OnlySpaces(words[0]);
      OnlySpaces(gaps[0]);
      CleanName(words[0]);
      SpaceGone(gaps[0]);
      DespaceSplit(words[0] + gaps[0], Spread(words[1..], gaps[1..]));
      DespaceSplit(words[0], gaps[0]);
      assert words[0] + "" == words[0];
    }
  }

  /** The value of a tag, whose words hold no semicolon, holds none. */
  lemma {:induction false} SpreadBytes(words: seq<string>, gaps: seq<string>)
    requires Parted(SPACES, words, gaps) && forall w :: w in words ==> ByteWord(w)
    ensures ';' !in Spread(words, gaps) && forall c :: c in Spread(words, gaps) ==> Readable(c)
    decreases |words|
  {
    hide SPACES, Readable;
    if words != [] {
      PartedRest(SPACES, words, gaps);
      assert words[0] in words && forall w :: w in words[1..] ==> w in words;
      SpreadBytes(words[1..], gaps[1..]);
      OnlySpaces(gaps[0]);
      WordReadable(words[0]);
      GapReadable(gaps[0]);
    }
  }

  lemma WordReadable(w: string)
    requires ByteWord(w)
    ensures ';' !in w && forall c :: c in w ==> Readable(c) && !IsSpace(c)
  {
  }

  lemma GapReadable(g: string)
    requires AllSpace(g)
    ensures ';' !in g && '=' !in g && forall c :: c in g ==> Readable(c)
  {
  }

  /** Where its name and value are. */
  lemma GivenSegment(g: Given)
    requires GivenOk(g)
    ensures ReadParam(GivenText(g)) == Some((g.name + g.gap, Value(g))) && LeadSpaces(GivenText(g)) == |g.lead|
    ensures Despace(g.name + g.gap) == g.name && Despace(Value(g)) == Flat(g.words)
    ensures ';' !in GivenText(g) && forall c :: c in GivenText(g) ==> Readable(c)
  {
    hide SPACES, IsAlnum, IsSpace, ReadParam, LeadSpaces, NameOk, Despace, AllSpace, Readable, Spread, Parted;
    var seg, a, n := GivenText(g), |g.lead|, |g.name + g.gap|;
    OnlySpaces(g.lead);
    OnlySpaces(g.gap);
    OnlySpaces(g.first);
    WordReadable(g.name);
    GapReadable(g.lead);
    GapReadable(g.gap);
    GapReadable(g.first);
    EqualsReadable();
    CleanName(g.name);
    NameThenGap(g.name, g.gap);
    BytesAre(g.name[0]);
    assert seg[..a] == g.lead && seg[a] == g.name[0] && seg[a..a + n] == g.name + g.gap && seg[a + n] == '=';
    assert seg[a + n + 1..] == Value(g);
    SegmentIs(seg, a, n);
    DespaceSplit(g.name, g.gap);
    SpaceGone(g.gap);
    assert g.name + "" == g.name;
    DespaceSplit(g.first, Spread(g.words, g.gaps));
    SpaceGone(g.first);
    DespaceSpread(g.words, g.gaps);
    assert "" + Flat(g.words) == Flat(g.words);
    SpreadBytes(g.words, g.gaps);
  }

  lemma EqualsReadable()
    ensures Readable('=') && Readable(';') && '=' != ';'
  {
  }

  lemma {:induction false} NameThenGap(name: string, gap: string)
    requires NameOk(name) && AllSpace(gap)
    ensures NameOk(name + gap)
  {
    if gap == "" {
      assert name + gap == name;
    } else {
      var t := name + gap;
      assert gap[|gap| - 1] in gap && forall c :: c in gap[..|gap| - 1] ==> c in gap;
      assert t[..|t| - 1] == name + gap[..|gap| - 1] && t[|t| - 1] == gap[|gap| - 1];
      NameThenGap(name, gap[..|gap| - 1]);
    }
  }

  /** One tag and its semicolon. */
  lemma GivenRead(g: Given, rest: string, plist: seq<Param>)
    requires GivenOk(g)
    ensures ParseFrom(GivenText(g) + ";" + rest, plist) == ParseFrom(rest, Add(plist, g.name, Flat(g.words), true))
  {
    hide GivenOk, GivenText, ReadParam, LeadSpaces, Add, Despace, Value;
    GivenSegment(g);
    var seg := GivenText(g);
    var s := seg + ";" + rest;
    TokenLengthIs(seg, ";" + rest, ';');
    assert seg + (";" + rest) == s && s[..|seg|] == seg && s[|seg| + 1..] == rest;
  }

  /** The last tag may lack its semicolon; if its value is empty then, the white space behind its name stays with it. */
  lemma LastRead(g: Given, plist: seq<Param>)
    requires GivenOk(g)
    ensures ParseFrom(GivenText(g), plist)
         == Some(Add(plist, if g.words == [] then g.name + g.gap else g.name, Flat(g.words), true))
  {
    hide GivenOk, GivenText, ReadParam, LeadSpaces, Add, Despace, Value;
    GivenSegment(g);
    var seg := GivenText(g);
    TokenLengthIs(seg, "", ';');
    assert seg + "" == seg && seg[..|seg|] == seg;
    ValueBlank(g);
    assert LeadSpaces(seg) < |seg| by { SomeName(g); }
  }

  lemma SomeName(g: Given)
    requires GivenOk(g)
    ensures |GivenText(g)| > |g.lead|
  {
  }

  lemma ValueBlank(g: Given)
    requires GivenOk(g)
    ensures LeadSpaces(Value(g)) == |Value(g)| <==> g.words == []
    ensures g.words == [] ==> Flat(g.words) == ""
  {
    hide SPACES, IsSpace;
    OnlySpaces(g.first);
    var v := Value(g);
    if g.words == [] {
      assert v == g.first + "" == g.first;
      assert v[..|v|] == v;
      LeadIs(v, |v|);
    } else {
      PartedRest(SPACES, g.words, g.gaps);
      OnlySpaces(g.words[0]);
      assert v[..|g.first|] == g.first && v[|g.first|] == g.words[0][0] && g.words[0][0] in g.words[0];
      LeadIs(v, |g.first|);
    }
  }

  /** A list is read as what it says, and white space may follow it. */
  lemma {:induction false} ListRead(gs: seq<Given>, rest: string, plist: seq<Param>, before: seq<Tag>)
    requires (forall g :: g in gs ==> GivenOk(g)) && plist == AddAll(before)
    ensures ParseFrom(ListText(gs) + rest, plist) == ParseFrom(rest, AddAll(before + Meant(gs)))
    ensures forall c :: c in ListText(gs) ==> Readable(c)
    decreases |gs|
  {
    hide GivenOk, GivenText, ParseFrom, AddAll, Flat, Readable, ListText, Meant;
    if gs == [] {
      NoList(rest, before);
    } else {
      var g := gs[0];
      assert g in gs && forall h :: h in gs[1..] ==> h in gs;
      GivenSegment(g);
      EqualsReadable();
      var tag := Tag(g.name, Flat(g.words));
      AddAllSnoc(before, tag);
      ListRead(gs[1..], rest, AddAll(before + [tag]), before + [tag]);
      ListCons(gs, rest, before);
      GivenRead(g, ListText(gs[1..]) + rest, plist);
    }
  }

  lemma NoList(rest: string, before: seq<Tag>)
    ensures ListText([]) + rest == rest && before + Meant([]) == before && ListText([]) == ""
  {
  }

  lemma ListCons(gs: seq<Given>, rest: string, before: seq<Tag>)
    requires gs != []
    ensures ListText(gs) == GivenText(gs[0]) + ";" + ListText(gs[1..])
    ensures ListText(gs) + rest == GivenText(gs[0]) + ";" + (ListText(gs[1..]) + rest)
    ensures before + [Tag(gs[0].name, Flat(gs[0].words))] + Meant(gs[1..]) == before + Meant(gs)
  {
    hide GivenText, Flat;
    var t := ListText(gs[1..]);
    Associative(GivenText(gs[0]) + ";", t, rest);
    MeantCons(gs);
    Associative(before, [Tag(gs[0].name, Flat(gs[0].words))], Meant(gs[1..]));
  }

  lemma MeantCons(gs: seq<Given>)
    requires gs != []
    ensures Meant(gs) == [Tag(gs[0].name, Flat(gs[0].words))] + Meant(gs[1..])
  {
    hide Flat, Meant;
  }

  lemma SpacesEnd(tail: string, plist: seq<Param>)
    requires Only(SPACES, tail)
    ensures ParseFrom(tail, plist) == Some(plist) && forall c :: c in tail ==> Readable(c)
  {
    hide SPACES, IsSpace, Readable;
    OnlySpaces(tail);
    GapReadable(tail);
    TokenLengthIs(tail, "", ';');
    assert tail + "" == tail && tail[..|tail|] == tail;
    LeadIs(tail, |tail|);
  }

  /** What a signature must have. */
  predicate HasAll(tags: seq<Tag>) {
    && Named(tags, "s") && Named(tags, "h") && Named(tags, "d") && Named(tags, "b") && Named(tags, "v") && Named(tags, "a")
  }

  predicate Named(tags: seq<Tag>, name: string) {
    exists i :: 0 <= i < |tags| && tags[i].name == name
  }

  /** The list of a signature is accepted exactly when it has all the tags it must have and its times are numbers; then all
      its tags are read as they are meant. */
  lemma SignatureRead(gs: seq<Given>, tail: string)
    requires (forall g :: g in gs ==> GivenOk(g)) && Only(SPACES, tail) && Apart(Meant(gs))
    ensures var r, tags := Process(Signature, ListText(gs) + tail), Meant(gs);
            && (r.Ok? <==> HasAll(tags) && forall i :: 0 <= i < |tags| && (tags[i].name == "t" || tags[i].name == "x") ==>
                                                         Numeral(tags[i].value))
            && (r.Ok? ==> forall i :: 0 <= i < |tags| ==> Get(r.plist, tags[i].name) == Some(tags[i].value))
  {
    hide GivenOk, ParseFrom, AddAll, Flat, Readable, SPACES, Numeral, Get, Defaults, Find, Apart, ListText, NumberOk;
    var tags := Meant(gs);
    var text, plist := ListText(gs) + tail, AddAll(tags);
    assert [] + tags == tags;
    ListRead(gs, tail, AddAll([]), []);
    NothingAdded();
    SpacesEnd(tail, plist);
    assert forall i :: 0 <= i < |text| ==> text[i] in text;
    Accepted(Signature, text, plist);
    WithoutNul(Signature, text);
    CompleteIs(tags);
    forall i | 0 <= i < |tags|
      ensures Get(Defaults(Signature, plist), tags[i].name) == Some(tags[i].value)
    {
      GetsTag(tags, i);
      DefaultsFill(Signature, plist, tags[i].name);
    }
  }

  /** A policy is accepted exactly when it has dkim=; a key always. */
  lemma OtherRead(kind: SetType, gs: seq<Given>, tail: string)
    requires kind != Signature && (forall g :: g in gs ==> GivenOk(g)) && Only(SPACES, tail) && Apart(Meant(gs))
    ensures var r, tags := Process(kind, ListText(gs) + tail), Meant(gs);
            && (r.Ok? <==> kind == Key || Named(tags, "dkim"))
            && (r.Ok? ==> forall i :: 0 <= i < |tags| ==> Get(r.plist, tags[i].name) == Some(tags[i].value))
  {
    hide GivenOk, ParseFrom, AddAll, Flat, Readable, SPACES, Numeral, Get, Defaults, Find, Apart, ListText, NumberOk;
    var tags := Meant(gs);
    var text, plist := ListText(gs) + tail, AddAll(tags);
    assert [] + tags == tags;
    ListRead(gs, tail, AddAll([]), []);
    NothingAdded();
    SpacesEnd(tail, plist);
    assert forall i :: 0 <= i < |text| ==> text[i] in text;
    Accepted(kind, text, plist);
    WithoutNul(kind, text);
    HasNamed(tags, "dkim");
    forall i | 0 <= i < |tags|
      ensures Get(Defaults(kind, plist), tags[i].name) == Some(tags[i].value)
    {
      GetsTag(tags, i);
      DefaultsFill(kind, plist, tags[i].name);
    }
  }

  lemma NothingAdded()
    ensures AddAll([]) == []
  {
  }

  lemma GetsTag(tags: seq<Tag>, i: nat)
    requires Apart(tags) && i < |tags|
    ensures Get(AddAll(tags), tags[i].name) == Some(tags[i].value)
  {
    hide AddAll, Get;
    ApartNames(tags);
    LaterWins(tags, tags[i].name);
    LatestAt(tags, i);
  }

  lemma GetsNothing(tags: seq<Tag>, name: string)
    requires Apart(tags) && !Named(tags, name)
    ensures Get(AddAll(tags), name) == None
  {
    hide AddAll, Get;
    ApartNames(tags);
    LaterWins(tags, name);
    NoneLatest(tags, name);
  }

  lemma HasNamed(tags: seq<Tag>, name: string)
    requires Apart(tags)
    ensures Has(AddAll(tags), name) <==> Named(tags, name)
  {
    hide AddAll, Get;
    if Named(tags, name) {
      var i :| 0 <= i < |tags| && tags[i].name == name;
      GetsTag(tags, i);
    } else {
      GetsNothing(tags, name);
    }
  }

  lemma CompleteIs(tags: seq<Tag>)
    requires Apart(tags)
    ensures TagList.Complete(Signature, AddAll(tags)) <==>
            HasAll(tags) && forall i :: 0 <= i < |tags| && (tags[i].name == "t" || tags[i].name == "x") ==> Numeral(tags[i].value)
  {
    hide AddAll, Get, NumberOk, Numeral, Named, Apart;
    HasNamed(tags, "s");
    HasNamed(tags, "h");
    HasNamed(tags, "d");
    HasNamed(tags, "b");
    HasNamed(tags, "v");
    HasNamed(tags, "a");
    TimeIs(tags, "t");
    TimeIs(tags, "x");
  }

  lemma TimeIs(tags: seq<Tag>, name: string)
    requires Apart(tags)
    ensures (Has(AddAll(tags), name) ==> NumberOk(Get(AddAll(tags), name).value)) <==>
            forall i :: 0 <= i < |tags| && tags[i].name == name ==> Numeral(tags[i].value)
  {
    hide AddAll, Get, NumberOk, Numeral, Apart;
    HasNamed(tags, name);
    forall i | 0 <= i < |tags| && tags[i].name == name
      ensures Get(AddAll(tags), name) == Some(tags[i].value) && (NumberOk(tags[i].value) <==> Numeral(tags[i].value))
    {
      GetsTag(tags, i);
      OnlyNumerals(tags[i].value);
    }
  }

  /** Of any text at all: what is accepted has these tags, and its times are numbers. */
  lemma AcceptedHas(text: string)
    requires Process(Signature, text).Ok?
    ensures var plist := Process(Signature, text).plist;
            && Lists(plist, "s") && Lists(plist, "h") && Lists(plist, "d") && Lists(plist, "b") && Lists(plist, "v")
            && Lists(plist, "a")
            && IsTime(plist, "t") && IsTime(plist, "x")
  {
    hide ParseFrom, Defaults, Get, NumberOk, Numeral, Lists, TagList.Complete, Process, ProcessText, UpToNul, Find;
    var p0 := Found(text);
    Kept(p0, "s");
    Kept(p0, "h");
    Kept(p0, "d");
    Kept(p0, "b");
    Kept(p0, "v");
    Kept(p0, "a");
    Kept(p0, "t");
    Kept(p0, "x");
  }

  ghost predicate IsTime(plist: seq<Param>, name: string) {
    Get(plist, name).Some? ==> Numeral(Get(plist, name).value)
  }

  lemma Found(text: string) returns (p0: seq<Param>)
    requires Process(Signature, text).Ok?
    ensures Process(Signature, text).plist == Defaults(Signature, p0)
    ensures Has(p0, "s") && Has(p0, "h") && Has(p0, "d") && Has(p0, "b") && Has(p0, "v") && Has(p0, "a")
    ensures (Has(p0, "t") ==> NumberOk(Get(p0, "t").value)) && (Has(p0, "x") ==> NumberOk(Get(p0, "x").value))
  {
    hide ParseFrom, Defaults, Get, NumberOk;
    p0 := ParseFrom(UpToNul(text), []).value;
  }

  predicate Lists(plist: seq<Param>, name: string) {
    exists i :: 0 <= i < |plist| && plist[i].name == name
  }

  lemma Kept(p0: seq<Param>, name: string)
    requires name != "c" && name != "q"
    ensures var plist := Defaults(Signature, p0);
            && Get(plist, name) == Get(p0, name) && (Lists(plist, name) <==> Has(plist, name))
            && (Has(p0, name) ==> (NumberOk(Get(p0, name).value) <==> Numeral(Get(p0, name).value)))
  {
    hide Defaults, Get, NumberOk, Numeral;
    DefaultsFill(Signature, p0, name);
    GetAt(Defaults(Signature, p0), name);
    if Has(p0, name) {
      OnlyNumerals(Get(p0, name).value);
    }
  }

  lemma {:induction false} GetAt(plist: seq<Param>, name: string)
    ensures Get(plist, name).Some? <==> Lists(plist, name)
  {
    if plist != [] && plist[0].name != name {
      GetAt(plist[1..], name);
      if Lists(plist[1..], name) {
        var i :| 0 <= i < |plist[1..]| && plist[1..][i].name == name;
        assert plist[i + 1].name == name;
      }
      if Lists(plist, name) {
        var i :| 0 <= i < |plist| && plist[i].name == name;
        assert plist[1..][i - 1].name == name;
      }
    }
  }

  /** What a list says it keeps, and where it has no name that is alike it gets these. */
  lemma DefaultsAre(plist: seq<Param>, name: string)
    ensures Get(plist, name).Some? ==> forall kind :: Get(Defaults(kind, plist), name) == Get(plist, name)
    ensures (forall p :: p in plist ==> !Alike(p.name, name)) ==>
              && Get(Defaults(Signature, plist), name)
                 == (if name == "c" then Some("simple/simple") else if name == "q" then Some("dns/txt") else None)
              && Get(Defaults(Policy, plist), name) == None
              && Get(Defaults(Key, plist), name)
                 == if name == "k" then Some("rsa") else if name == "g" || name == "s" then Some("*") else None
  {
    hide Get, Find, Defaults, Alike;
    forall kind
      ensures Get(Defaults(kind, plist), name)
           == if Has(plist, name) then Get(plist, name)
              else if Find(plist, name) == |plist| then DefaultFor(kind, name)
              else None
    {
      DefaultsFill(kind, plist, name);
    }
    FindsAlike(plist, name);
    if Has(plist, name) {
      HasAlike(plist, name);
    }
    if Find(plist, name) < |plist| {
      assert plist[Find(plist, name)] in plist;
    }
  }

  lemma HasAlike(plist: seq<Param>, name: string)
    requires Has(plist, name)
    ensures exists p :: p in plist && Alike(p.name, name)
  {
    hide Get, Alike;
    GetAt(plist, name);
    var i :| 0 <= i < |plist| && plist[i].name == name;
    AlikeSteps(name, "", "");
    assert plist[i] in plist;
  }

  // ---------- What is not a list ----------

  /** A tag without '=', a name in two parts, a name that does not start with a letter or digit, or nothing before a
      semicolon: nothing that follows is read. */
  lemma NotAList(lead: string, bad: string, rest: string, plist: seq<Param>)
    requires Only(SPACES, lead) && ';' !in bad && bad != "" && !SpaceByte(bad[0])
    requires
      || !AlnumByte(bad[0])
      || '=' !in bad
      || (exists w, g, v :: w != "" && Free(SPACES, w) && '=' !in w && g != "" && Only(SPACES, g) &&
                            v != "" && !SpaceByte(v[0]) && v[0] != '=' && bad == w + g + v)
    ensures ParseFrom(lead + bad, plist) == None && ParseFrom(lead + bad + ";" + rest, plist) == None
  {
    hide SPACES, IsAlnum, IsSpace, ReadParam, LeadSpaces, NameOk, AllSpace, Add, Despace, SpaceByte, AlnumByte;
    OnlySpaces(lead);
    GapReadable(lead);
    var seg := lead + bad;
    assert seg[..|lead|] == lead && seg[|lead|] == bad[0] && seg[|lead|..] == bad;
    BytesAre(bad[0]);
    BadSegment(lead, bad);
    TokenLengthIs(seg, "", ';');
    TokenLengthIs(seg, ";" + rest, ';');
    assert seg + "" == seg && seg[..|seg|] == seg;
    var s := seg + ";" + rest;
    assert seg + (";" + rest) == s && s[..|seg|] == seg;
  }

  lemma BadSegment(lead: string, bad: string)
    requires AllSpace(lead) && bad != "" && !IsSpace(bad[0])
    requires
      || !IsAlnum(bad[0])
      || '=' !in bad
      || (exists w, g, v :: w != "" && Free(SPACES, w) && '=' !in w && g != "" && Only(SPACES, g) &&
                            v != "" && !SpaceByte(v[0]) && v[0] != '=' && bad == w + g + v)
    ensures ReadParam(lead + bad) == None && LeadSpaces(lead + bad) != |lead + bad|
  {
    hide SPACES, IsAlnum, IsSpace, ReadParam, LeadSpaces, NameOk, AllSpace, SpaceByte;
    var seg, a := lead + bad, |lead|;
    assert seg[..a] == lead && seg[a] == bad[0] && seg[a..] == bad;
    if !IsAlnum(bad[0]) {
      SegmentBad(seg, a);
    } else if '=' !in bad {
      assert seg[a..a + |bad|] == bad;
      NameBad(seg, a, |bad|);
    } else {
      var w, g, v :| w != "" && Free(SPACES, w) && '=' !in w && g != "" && Only(SPACES, g) &&
                     v != "" && !SpaceByte(v[0]) && v[0] != '=' && bad == w + g + v;
      var t := w + g + [v[0]];
      OnlySpaces(w);
      OnlySpaces(g);
      GapReadable(g);
      TwoParts(w, g, v[0]);
      assert seg[a..a + |t|] == t && '=' !in t;
      NameBad(seg, a, |t|);
    }
  }

  lemma TwoParts(w: string, g: string, x: char)
    requires g != "" && AllSpace(g) && !SpaceByte(x)
    ensures !NameOk(w + g + [x])
  {
    var t := w + g + [x];
    assert t[..|t| - 1] == w + g && t[|t| - 1] == x;
    SpaceIs(x);
    assert (w + g)[|w + g| - 1] == g[|g| - 1] && g[|g| - 1] in g;
  }

  lemma EmptyTag(lead: string, rest: string, plist: seq<Param>)
    requires Only(SPACES, lead)
    ensures ParseFrom(lead + ";" + rest, plist) == None
  {
    hide SPACES, IsAlnum, IsSpace, LeadSpaces, NameOk, AllSpace, Add, Despace;
    OnlySpaces(lead);
    GapReadable(lead);
    TokenLengthIs(lead, ";" + rest, ';');
    var s := lead + ";" + rest;
    assert lead + (";" + rest) == s && s[..|lead|] == lead;
    assert lead[..|lead|] == lead;
    LeadIs(lead, |lead|);
  }
}
