/** dkim_process_set: a tag list, read one byte at a time into a list of parameters
    (section 3.2 of RFC 4871). */
module TagList {
  import opened Text
  import opened HeaderCanon
  import opened SigHeader

  datatype Param = Param(name: string, value: string)

  datatype SetType = Signature | Policy | Key

  datatype Result = Syntax | Ok(plist: seq<Param>)

  predicate IsAlnum(c: char) {
    'a' <= c <= 'z' || 'A' <= c <= 'Z' || '0' <= c <= '9'
  }

  /** isascii() and either isprint() or isspace(). */
  predicate Readable(c: char) {
    ' ' <= c <= '~' || IsSpace(c)
  }

  // ---------- The parameter list ----------

  /** dkim_add_plist: names are compared without regard to case; new parameters go to the front. */
  function Add(plist: seq<Param>, name: string, value: string, force: bool): (r: seq<Param>) {
    var i := Find(plist, name);
    if i == |plist| then [Param(name, value)] + plist
    else if force then plist[i := Param(plist[i].name, value)]
    else plist
  }

  function Find(plist: seq<Param>, name: string): (i: nat)
    ensures i <= |plist|
    ensures i < |plist| ==> Fold(plist[i].name) == Fold(name)
  {
    if plist == [] || Fold(plist[0].name) == Fold(name) then 0 else 1 + Find(plist[1..], name)
  }

  /** dkim_param_get: here case matters. */
  function Get(plist: seq<Param>, name: string): (r: Option<string>) {
    if plist == [] then None else if plist[0].name == name then Some(plist[0].value) else Get(plist[1..], name)
  }

  method AddPlist(plist: seq<Param>, name: string, value: string, force: bool) returns (r: seq<Param>)
    ensures r == Add(plist, name, value, force)
  {
    var i := 0;
    assert plist[0..] == plist;
    while i < |plist| && Fold(plist[i].name) != Fold(name)
      invariant i <= |plist| && Find(plist, name) == i + Find(plist[i..], name)
    {
      assert plist[i..][1..] == plist[i + 1..];
      i := i + 1;
    }
    if i == |plist| {
      r := [Param(name, value)] + plist;
    } else if force {
      r := plist[i := Param(plist[i].name, value)];
    } else {
      r := plist;
    }
  }

  // ---------- The grammar: parameters end at semicolons ----------

  function LeadSpaces(s: string): (n: nat)
    ensures n <= |s| && (n < |s| ==> !IsSpace(s[n]))
  {
    if s == "" || !IsSpace(s[0]) then 0 else 1 + LeadSpaces(s[1..])
  }

  predicate HasSpace(s: string) {
    s != "" && (IsSpace(s[|s| - 1]) || HasSpace(s[..|s| - 1]))
  }

  /** White space in a name is only at its end. */
  predicate NameOk(s: string) {
    s == "" || (NameOk(s[..|s| - 1]) && (HasSpace(s[..|s| - 1]) ==> IsSpace(s[|s| - 1])))
  }

  /** name = value, or None. */
  function ReadParam(seg: string): (r: Option<(string, string)>) {
    var a := LeadSpaces(seg);
    var n := TokenLength(seg[a..], '=');
    if a == |seg| || !IsAlnum(seg[a]) || a + n == |seg| || !NameOk(seg[a..a + n]) then None
    else Some((seg[a..a + n], seg[a + n + 1..]))
  }

  /** The list from s on, which starts outside any parameter. A last parameter without a value keeps the white
      space after its name. */
  function ParseFrom(s: string, plist: seq<Param>): (r: Option<seq<Param>>)
    decreases |s|
  {
    var n := TokenLength(s, ';');
    var seg := s[..n];
    if n < |s| then
      match ReadParam(seg)
      case None => None
      case Some((name, value)) => ParseFrom(s[n + 1..], Add(plist, Despace(name), Despace(value), true))
    else if LeadSpaces(seg) == |seg| then Some(plist)
    else
      match ReadParam(seg)
      case None => None
      case Some((name, value)) =>
        Some(if LeadSpaces(value) == |value| then Add(plist, name, "", true)
             else Add(plist, Despace(name), Despace(value), true))
  }

  /** A decimal number below 2^64 - 1, as strtoull() reads it to the end. */
  predicate NumberOk(s: string) {
    var digits := if s != "" && s[0] == '+' then s[1..] else s;
    digits != "" && OnlyDigits(digits) && Decimal(digits) < 0xffff_ffff_ffff_ffff
  }

  predicate OnlyDigits(s: string) {
    forall i :: 0 <= i < |s| ==> '0' <= s[i] <= '9'
  }

  function Decimal(s: string): (n: int) {
    if s == "" then 0 else Decimal(s[..|s| - 1]) * 10 + (s[|s| - 1] as int - '0' as int)
  }

  predicate Has(plist: seq<Param>, name: string) {
    Get(plist, name) != None
  }

  /** What each kind of list must have. */
  predicate Complete(kind: SetType, plist: seq<Param>) {
    match kind
    case Signature =>
      && Has(plist, "s") && Has(plist, "h") && Has(plist, "d") && Has(plist, "b") && Has(plist, "v") && Has(plist, "a")
      && (Has(plist, "t") ==> NumberOk(Get(plist, "t").value))
      && (Has(plist, "x") ==> NumberOk(Get(plist, "x").value))
    case Policy => Has(plist, "dkim")
    case Key => true
  }

  function Defaults(kind: SetType, plist: seq<Param>): (r: seq<Param>) {
    match kind
    case Signature => Add(Add(plist, "c", "simple/simple", false), "q", "dns/txt", false)
    case Policy => plist
    case Key => Add(Add(Add(plist, "g", "*", false), "k", "rsa", false), "s", "*", false)
  }

  /** A C string ends at its first NUL. */
  function UpToNul(data: string): (str: string)
    ensures str <= data && '\0' !in str
  {
    data[..TokenLength(data, '\0')]
  }

  function Process(kind: SetType, data: string): (r: Result) {
    ProcessText(kind, UpToNul(data))
  }

  lemma WithoutNul(kind: SetType, str: string)
    requires forall i :: 0 <= i < |str| ==> Readable(str[i])
    ensures Process(kind, str) == ProcessText(kind, str)
  {
    hide ProcessText;
    TokenLengthIs(str, "", '\0');
    assert str + "" == str;
  }

  function ProcessText(kind: SetType, str: string): (r: Result) {
    if exists i :: 0 <= i < |str| && !Readable(str[i]) then Syntax
    else
      match ParseFrom(str, [])
      case None => Syntax
      case Some(plist) => if Complete(kind, plist) then Ok(Defaults(kind, plist)) else Syntax
  }

  /** The value of a tag that a list of this kind has when it is not given. */
  function DefaultFor(kind: SetType, name: string): (v: Option<string>) {
    match kind
    case Signature => if name == "c" then Some("simple/simple") else if name == "q" then Some("dns/txt") else None
    case Policy => None
    case Key => if name == "g" || name == "s" then Some("*") else if name == "k" then Some("rsa") else None
  }

  /** A default never replaces a value. It is there exactly when no name was like its own; a name in another case keeps
      it out. */
  lemma DefaultsFill(kind: SetType, plist: seq<Param>, name: string)
    ensures Get(Defaults(kind, plist), name)
         == if Has(plist, name) then Get(plist, name)
            else if Find(plist, name) == |plist| then DefaultFor(kind, name)
            else None
  {
    hide Find, Add, Get;
    FoldedApart();
    match kind
    case Signature =>
      AddDefault(plist, "c", "simple/simple", name);
      AddDefault(plist, "c", "simple/simple", "q");
      AddDefault(Add(plist, "c", "simple/simple", false), "q", "dns/txt", name);
    case Policy =>
      HasFound(plist, name);
    case Key =>
      var g := Add(plist, "g", "*", false);
      var k := Add(g, "k", "rsa", false);
      AddDefault(plist, "g", "*", name);
      AddDefault(plist, "g", "*", "k");
      AddDefault(plist, "g", "*", "s");
      AddDefault(g, "k", "rsa", name);
      AddDefault(g, "k", "rsa", "s");
      AddDefault(k, "s", "*", name);
  }

  lemma FoldedApart()
    ensures Fold("c")[0] == 'c' && Fold("q")[0] == 'q' && Fold("g")[0] == 'g' && Fold("k")[0] == 'k' && Fold("s")[0] == 's'
  {
  }

  /** One default: other names are not concerned. */
  lemma AddDefault(plist: seq<Param>, name: string, value: string, other: string)
    ensures var r := Add(plist, name, value, false);
            && Get(r, other) == (if Find(plist, name) == |plist| && other == name then Some(value) else Get(plist, other))
            && (Has(plist, other) ==> Get(r, other) == Get(plist, other))
            && (Fold(other) != Fold(name) ==> (Find(r, other) == |r| <==> Find(plist, other) == |plist|))
  {
    HasFound(plist, other);
    assert ([Param(name, value)] + plist)[1..] == plist;
  }

  lemma {:induction false} HasFound(plist: seq<Param>, name: string)
    ensures Has(plist, name) ==> Find(plist, name) < |plist|
  {
    if plist != [] {
      HasFound(plist[1..], name);
    }
  }

  // ---------- The code ----------

  /** What the variables of the loop say about the segment from b to e, of which the part up to p is read. */
  ghost predicate Reading(str: string, b: nat, p: nat, e: nat, state: int, spaced: bool, param: int, eq: int, value: int)
  {
    && b <= p <= e <= |str| && e == b + TokenLength(str[b..], ';')
    && 0 <= state <= 3
    && (state <= 2 ==> value == -1)
    && (state == 0 ==> AllSpace(str[b..p]))
    && (state > 0 ==> b <= param < p && AllSpace(str[b..param]) && IsAlnum(str[param]))
    && (state == 1 ==> '=' !in str[param..p] && NameOk(str[param..p]) && spaced == HasSpace(str[param..p]))
    && (state > 1 ==> param < eq < p && str[eq] == '=' && '=' !in str[param..eq] && NameOk(str[param..eq]))
    && (state == 2 ==> AllSpace(str[eq + 1..p]))
    && (state == 3 ==> eq < value < p && AllSpace(str[eq + 1..value]) && !IsSpace(str[value]))
  }

  lemma AtEnd(str: string, b: nat, p: nat, e: nat)
    requires b <= p <= e <= |str| && e == b + TokenLength(str[b..], ';') && p < |str|
    ensures str[p] == ';' <==> p == e
  {
    var n := TokenLength(str[b..], ';');
    if p < e {
      assert str[p] == str[b..][..n][p - b];
    } else {
      assert str[p] == str[b..][n];
    }
  }

  lemma {:induction false} LeadIs(s: string, a: nat)
    requires a <= |s| && AllSpace(s[..a]) && (a < |s| ==> !IsSpace(s[a]))
    ensures LeadSpaces(s) == a
  {
    if a > 0 {
      assert s[..a][0] == s[0] && s[1..][..a - 1] == s[..a][1..];
      LeadIs(s[1..], a - 1);
    }
  }

  lemma {:induction false} NameOkPrefix(s: string, n: nat)
    requires n <= |s| && NameOk(s)
    ensures NameOk(s[..n])
  {
    if n < |s| {
      NameOkPrefix(s[..|s| - 1], n);
      assert s[..|s| - 1][..n] == s[..n];
    } else {
      assert s[..n] == s;
    }
  }

  lemma SpaceSnoc(s: string, b: nat, p: nat)
    requires b <= p < |s| && AllSpace(s[b..p]) && IsSpace(s[p])
    ensures AllSpace(s[b..p + 1])
  {
    assert s[b..p + 1] == s[b..p] + [s[p]];
  }

  lemma NameSnoc(str: string, a: nat, p: nat)
    requires a <= p < |str| && '=' !in str[a..p] && str[p] != '='
    ensures '=' !in str[a..p + 1]
    ensures HasSpace(str[a..p + 1]) == (IsSpace(str[p]) || HasSpace(str[a..p]))
    ensures NameOk(str[a..p + 1]) == (NameOk(str[a..p]) && (HasSpace(str[a..p]) ==> IsSpace(str[p])))
  {
    var t := str[a..p + 1];
    assert t == str[a..p] + [str[p]] && t[..|t| - 1] == str[a..p];
  }

  /** One byte, not the end of the segment: how the variables change, or that the list is bad. */
  lemma ReadByte(str: string, b: nat, p: nat, e: nat, state: int, spaced: bool, param: int, eq: int, value: int)
    requires p < |str| && str[p] != ';' && Reading(str, b, p, e, state, spaced, param, eq, value)
    ensures p < e
    ensures state == 0 && IsSpace(str[p]) ==> Reading(str, b, p + 1, e, 0, spaced, param, eq, value)
    ensures state == 0 && IsAlnum(str[p]) ==> Reading(str, b, p + 1, e, 1, false, p, eq, value)
    ensures state == 1 && IsSpace(str[p]) ==> Reading(str, b, p + 1, e, 1, true, param, eq, value)
    ensures state == 1 && str[p] == '=' ==> Reading(str, b, p + 1, e, 2, false, param, p, value)
    ensures state == 1 && !IsSpace(str[p]) && str[p] != '=' && !spaced ==>
              Reading(str, b, p + 1, e, 1, spaced, param, eq, value)
    ensures state == 2 && IsSpace(str[p]) ==> Reading(str, b, p + 1, e, 2, spaced, param, eq, value)
    ensures state == 2 && !IsSpace(str[p]) ==> Reading(str, b, p + 1, e, 3, spaced, param, eq, p)
    ensures state == 3 ==> Reading(str, b, p + 1, e, 3, spaced, param, eq, value)
  {
    hide IsSpace, IsAlnum, AllSpace, HasSpace, NameOk;
    AtEnd(str, b, p, e);
    ByteKinds(str[p]);
    if state == 0 && IsSpace(str[p]) {
      SpaceSnoc(str, b, p);
    } else if state == 0 && IsAlnum(str[p]) {
      assert str[p..p] == "" && HasSpace("") == false && NameOk("") by { NoName(); }
      NameSnoc(str, p, p);
    } else if state == 1 {
      if str[p] == '=' {
        assert str[p + 1..p + 1] == "";
        assert AllSpace("") by { NoName(); }
      } else {
        NameSnoc(str, param, p);
      }
    } else if state == 2 && IsSpace(str[p]) {
      SpaceSnoc(str, eq + 1, p);
    }
  }

  lemma NoName()
    ensures !HasSpace("") && NameOk("") && AllSpace("")
  {
  }

  lemma ByteKinds(c: char)
    ensures IsAlnum(c) ==> c != '=' && c != ';' && !IsSpace(c)
    ensures IsSpace(c) ==> c != '='
  {
  }

  /** Where the first '=' after the name's start is. */
  lemma EqualsAt(seg: string, a: nat, n: nat)
    requires a + n <= |seg| && '=' !in seg[a..a + n]
    ensures TokenLength(seg[a..], '=') >= n
    ensures a + n < |seg| && seg[a + n] == '=' ==> TokenLength(seg[a..], '=') == n
  {
    var s := seg[a..];
    var k := TokenLength(s, '=');
    if a + n < |seg| && seg[a + n] == '=' {
      TokenLengthIs(seg[a..a + n], seg[a + n..], '=');
      assert seg[a..a + n] + seg[a + n..] == s;
    } else if a + n == |seg| {
      TokenLengthIs(seg[a..a + n], "", '=');
      assert seg[a..a + n] + "" == s;
    } else {
      LongToken(seg[a..a + n], seg[a + n..], '=');
      assert seg[a..a + n] + seg[a + n..] == s;
    }
  }

  lemma {:induction false} LongToken(t: string, rest: string, d: char)
    requires d !in t
    ensures TokenLength(t + rest, d) >= |t|
  {
    if t != "" {
      assert (t + rest)[1..] == t[1..] + rest && t[0] in t;
      LongToken(t[1..], rest, d);
    }
  }

  /** A segment whose name and value are where the variables say. */
  lemma SegmentIs(seg: string, a: nat, n: nat)
    requires a + n < |seg| && AllSpace(seg[..a]) && IsAlnum(seg[a])
    requires '=' !in seg[a..a + n] && seg[a + n] == '=' && NameOk(seg[a..a + n])
    ensures ReadParam(seg) == Some((seg[a..a + n], seg[a + n + 1..])) && LeadSpaces(seg) == a
  {
    hide IsAlnum, IsSpace, NameOk, AllSpace;
    ByteKinds(seg[a]);
    LeadIs(seg, a);
    EqualsAt(seg, a, n);
  }

  /** A segment that starts with neither white space alone nor a name. */
  lemma SegmentBad(seg: string, a: nat)
    requires a < |seg| && AllSpace(seg[..a]) && !IsSpace(seg[a]) && !IsAlnum(seg[a])
    ensures ReadParam(seg) == None && LeadSpaces(seg) != |seg|
  {
    LeadIs(seg, a);
  }

  /** A segment whose name is not a name, or never ends. */
  lemma NameBad(seg: string, a: nat, m: nat)
    requires a + m <= |seg| && 0 < m && AllSpace(seg[..a]) && IsAlnum(seg[a])
    requires '=' !in seg[a..a + m] && (a + m == |seg| || !NameOk(seg[a..a + m]))
    ensures ReadParam(seg) == None && LeadSpaces(seg) != |seg|
  {
    hide IsAlnum, IsSpace, NameOk, AllSpace, TokenLength, ReadParam, LeadSpaces;
    ByteKinds(seg[a]);
    LeadIs(seg, a);
    EqualsAt(seg, a, m);
    var n := TokenLength(seg[a..], '=');
    if a + m < |seg| {
      NameOkLonger(seg, a, m, n);
    }
    NoParam(seg, a, n);
  }

  lemma NoParam(seg: string, a: nat, n: nat)
    requires a == LeadSpaces(seg) < |seg| && n == TokenLength(seg[a..], '=')
    requires a + n == |seg| || !NameOk(seg[a..a + n])
    ensures ReadParam(seg) == None
  {
    hide LeadSpaces, TokenLength, NameOk, IsSpace, IsAlnum;
  }

  lemma NameOkLonger(seg: string, a: nat, m: nat, n: nat)
    requires m <= n && a + n <= |seg| && !NameOk(seg[a..a + m])
    ensures !NameOk(seg[a..a + n])
  {
    hide NameOk;
    assert seg[a..a + n][..m] == seg[a..a + m];
    if NameOk(seg[a..a + n]) {
      NameOkPrefix(seg[a..a + n], m);
    }
  }

  lemma SliceOfSlice(str: string, b: nat, e: nat, i: nat, j: nat)
    requires b <= i <= j <= e <= |str|
    ensures str[b..e][i - b..j - b] == str[i..j] && (i < e ==> str[b..e][i - b] == str[i])
  {
    var s, t := str[b..e][i - b..j - b], str[i..j];
    assert |s| == |t| && forall k :: 0 <= k < |s| ==> s[k] == t[k];
  }

  lemma EndsInName(str: string, b: nat, e: nat, param: nat, p: nat)
    requires b <= param < p <= e <= |str| && AllSpace(str[b..param]) && IsAlnum(str[param])
    requires '=' !in str[param..p] && (p == e || !NameOk(str[param..p]))
    ensures ReadParam(str[b..e]) == None && LeadSpaces(str[b..e]) != e - b
  {
    hide IsAlnum, IsSpace, NameOk, AllSpace, ReadParam, LeadSpaces;
    SliceOfSlice(str, b, e, b, param);
    SliceOfSlice(str, b, e, param, p);
    NameBad(str[b..e], param - b, p - param);
  }

  lemma EndsInValue(str: string, b: nat, e: nat, param: nat, eq: nat)
    requires b <= param < eq < e <= |str| && AllSpace(str[b..param]) && IsAlnum(str[param])
    requires '=' !in str[param..eq] && str[eq] == '=' && NameOk(str[param..eq])
    ensures ReadParam(str[b..e]) == Some((str[param..eq], str[eq + 1..e])) && LeadSpaces(str[b..e]) != e - b
  {
    hide IsAlnum, IsSpace, NameOk, AllSpace, ReadParam, LeadSpaces;
    SliceOfSlice(str, b, e, b, param);
    SliceOfSlice(str, b, e, param, eq);
    SliceOfSlice(str, b, e, eq, eq);
    SliceOfSlice(str, b, e, eq + 1, e);
    assert str[b..e][eq + 1 - b..] == str[b..e][eq + 1 - b..e - b];
    SegmentIs(str[b..e], param - b, eq - param);
  }

  /** White space before a value goes with the rest. */
  lemma ValueStarts(v: string, k: nat)
    requires k <= |v| && AllSpace(v[..k]) && (k < |v| ==> !IsSpace(v[k]))
    ensures LeadSpaces(v) == k && Despace(v) == Despace(v[k..])
  {
    hide AllSpace, Despace, IsSpace;
    LeadIs(v, k);
    SpaceGone(v[..k]);
    DespaceSplit(v[..k], v[k..]);
    assert v == v[..k] + v[k..] && "" + Despace(v[k..]) == Despace(v[k..]);
  }

  /** The end of a segment: what it holds, in the terms of the variables. */
  lemma SegmentEnds(str: string, b: nat, e: nat, state: int, spaced: bool, param: int, eq: int, value: int)
    requires Reading(str, b, e, e, state, spaced, param, eq, value)
    ensures state == 0 <==> LeadSpaces(str[b..e]) == e - b
    ensures state <= 1 ==> ReadParam(str[b..e]) == None
    ensures state > 1 ==> ReadParam(str[b..e]) == Some((str[param..eq], str[eq + 1..e]))
    ensures state == 2 ==> LeadSpaces(str[eq + 1..e]) == e - eq - 1 && Despace(str[eq + 1..e]) == ""
    ensures state == 3 ==> LeadSpaces(str[eq + 1..e]) < e - eq - 1 && Despace(str[eq + 1..e]) == Despace(str[value..e])
  {
    hide IsAlnum, IsSpace, NameOk, AllSpace, ReadParam, HasSpace, LeadSpaces, Despace;
    if state == 0 {
      var seg := str[b..e];
      assert seg[..e - b] == seg;
      LeadIs(seg, e - b);
      EmptyParam(seg);
    } else if state == 1 {
      EndsInName(str, b, e, param, e);
    } else {
      EndsInValue(str, b, e, param, eq);
      var v := str[eq + 1..e];
      if state == 2 {
        assert v[..|v|] == v && v[|v|..] == "";
        ValueStarts(v, |v|);
        SpaceGone(v);
      } else {
        SliceOfSlice(str, eq + 1, e, eq + 1, value);
        SliceOfSlice(str, eq + 1, e, value, e);
        assert v[value - eq - 1..] == v[value - eq - 1..e - eq - 1];
        ValueStarts(v, value - eq - 1);
      }
    }
  }

  lemma EmptyParam(seg: string)
    requires LeadSpaces(seg) == |seg|
    ensures ReadParam(seg) == None
  {
  }

  lemma {:induction false} SpaceGone(s: string)
    requires AllSpace(s)
    ensures Despace(s) == ""
  {
    if s != "" {
      assert s[0] in s && forall c :: c in s[1..] ==> c in s;
      SpaceGone(s[1..]);
    }
  }

  /** A byte that cannot stand where it is. */
  lemma BadByte(str: string, b: nat, p: nat, e: nat, state: int, spaced: bool, param: int, eq: int, value: int)
    requires p < |str| && str[p] != ';' && Reading(str, b, p, e, state, spaced, param, eq, value)
    requires (state == 0 && !IsSpace(str[p]) && !IsAlnum(str[p]))
          || (state == 1 && !IsSpace(str[p]) && str[p] != '=' && spaced)
    ensures ReadParam(str[b..e]) == None && LeadSpaces(str[b..e]) != e - b
  {
    hide IsAlnum, IsSpace, NameOk, AllSpace, ReadParam, HasSpace, LeadSpaces, TokenLength;
    AtEnd(str, b, p, e);
    if state == 0 {
      SliceOfSlice(str, b, e, b, p);
      SliceOfSlice(str, b, e, p, e);
      SegmentBad(str[b..e], p - b);
    } else {
      NameSnoc(str, param, p);
      EndsInName(str, b, e, param, p + 1);
    }
  }

  /** ParseFrom on the rest of the string, segment found. */
  lemma ParseSegment(str: string, b: nat, e: nat, plist: seq<Param>)
    requires b <= e <= |str| && e == b + TokenLength(str[b..], ';')
    ensures ReadParam(str[b..e]) == None && LeadSpaces(str[b..e]) != e - b ==> ParseFrom(str[b..], plist) == None
    ensures e < |str| && ReadParam(str[b..e]) == None ==> ParseFrom(str[b..], plist) == None
    ensures e < |str| && ReadParam(str[b..e]) != None ==>
              var (name, value) := ReadParam(str[b..e]).value;
              ParseFrom(str[b..], plist) == ParseFrom(str[e + 1..], Add(plist, Despace(name), Despace(value), true))
    ensures e == |str| && LeadSpaces(str[b..e]) == e - b ==> ParseFrom(str[b..], plist) == Some(plist)
    ensures e == |str| && ReadParam(str[b..e]) != None && LeadSpaces(str[b..e]) != e - b ==>
              var (name, value) := ReadParam(str[b..e]).value;
              ParseFrom(str[b..], plist) ==
              Some(if LeadSpaces(value) == |value| then Add(plist, name, "", true)
                   else Add(plist, Despace(name), Despace(value), true))
  {
    hide ReadParam, Add, Despace, LeadSpaces, TokenLength;
    var s, n := str[b..], e - b;
    assert s[..n] == str[b..e];
    if e < |str| {
      assert s[n + 1..] == str[e + 1..];
    }
  }

  lemma StartSegment(str: string, b: nat, spaced: bool, param: int, eq: int)
    requires b <= |str|
    ensures Reading(str, b, b, b + TokenLength(str[b..], ';'), 0, spaced, param, eq, -1)
  {
    assert str[b..b] == "";
    NoName();
  }

  lemma Rejected(kind: SetType, str: string)
    requires ParseFrom(str, []) == None || exists i :: 0 <= i < |str| && !Readable(str[i])
    ensures ProcessText(kind, str) == Syntax
  {
  }

  lemma Accepted(kind: SetType, str: string, plist: seq<Param>)
    requires ParseFrom(str, []) == Some(plist) && forall i :: 0 <= i < |str| ==> Readable(str[i])
    ensures ProcessText(kind, str) == if Complete(kind, plist) then Ok(Defaults(kind, plist)) else Syntax
  {
  }

  /** dkim_process_set. The code cuts its copy of the text at eq and at each semicolon; here these are slices.
      A value of -1 is the null pointer. */
  method ProcessSet(kind: SetType, data: string) returns (r: Result)
    ensures r == Process(kind, data)
  {
    hide ProcessText, ParseFrom, ReadParam, Reading, Add, Complete, Defaults, Despace, LeadSpaces, TokenLength, IsSpace,
      IsAlnum, Readable;
    var str := UpToNul(data);
    var plist: seq<Param> := [];
    var state, spaced, param, eq, value, p := 0, false, 0, 0, -1, 0;
    assert str[0..] == str;
    ghost var b: nat, e: nat := 0, TokenLength(str, ';');
    StartSegment(str, 0, spaced, param, eq);
    while p < |str|
      invariant b <= p <= |str| && forall i :: 0 <= i < p ==> Readable(str[i])
      invariant Reading(str, b, p, e, state, spaced, param, eq, value)
      invariant ParseFrom(str, []) == ParseFrom(str[b..], plist)
    {
      Bounds(str, b, p, e, state, spaced, param, eq, value);
      ParseSegment(str, b, e, plist);
      if !Readable(str[p]) {
        Rejected(kind, str);
        return Syntax;
      }
      if str[p] == ';' {
        SegmentEnds(str, b, e, state, spaced, param, eq, value);
        Semicolon();
      } else {
        ReadByte(str, b, p, e, state, spaced, param, eq, value);
      }
      match state {
      case 0 =>
        if IsSpace(str[p]) {
        } else if IsAlnum(str[p]) {
          param, state, spaced := p, 1, false;
        } else {
          if str[p] != ';' {
            BadByte(str, b, p, e, state, spaced, param, eq, value);
          }
          Rejected(kind, str);
          return Syntax;
        }
      case 1 =>
        if IsSpace(str[p]) {
          spaced := true;
        } else if str[p] == '=' {
          eq, state, spaced := p, 2, false;
        } else if str[p] == ';' || spaced {
          if str[p] != ';' {
            BadByte(str, b, p, e, state, spaced, param, eq, value);
          }
          Rejected(kind, str);
          return Syntax;
        }
      case 2 =>
        if IsSpace(str[p]) {
        } else if str[p] == ';' {
          plist := AddPlist(plist, Despace(str[param..eq]), "", true);
          value, state := -1, 0;
          b, e := p + 1, p + 1 + TokenLength(str[p + 1..], ';');
          StartSegment(str, b, spaced, param, eq);
        } else {
          value, state := p, 3;
        }
      case _ =>
        if str[p] == ';' {
          plist := AddPlist(plist, Despace(str[param..eq]), Despace(str[value..p]), true);
          value, state := -1, 0;
          b, e := p + 1, p + 1 + TokenLength(str[p + 1..], ';');
          StartSegment(str, b, spaced, param, eq);
        }
      }
      p := p + 1;
    }
    Bounds(str, b, p, e, state, spaced, param, eq, value);
    SegmentEnds(str, b, e, state, spaced, param, eq, value);
    ParseSegment(str, b, e, plist);
    assert state == 3 ==> |str[eq + 1..e]| == e - eq - 1;
    assert state == 2 ==> |str[eq + 1..e]| == e - eq - 1;
    match state {
    case 1 =>
      Rejected(kind, str);
      return Syntax;
    case 2 =>
      plist := AddPlist(plist, str[param..eq], "", true);
    case _ =>
      if value != -1 {
        plist := AddPlist(plist, Despace(str[param..eq]), Despace(str[value..p]), true);
      }
    }
    Accepted(kind, str, plist);
    if !Complete(kind, plist) {
      return Syntax;
    }
    plist := AddDefaults(kind, plist);
    r := Ok(plist);
  }

  method AddDefaults(kind: SetType, plist: seq<Param>) returns (r: seq<Param>)
    ensures r == Defaults(kind, plist)
    ensures forall name :: Get(r, name) == if Has(plist, name) then Get(plist, name)
                                           else if Find(plist, name) == |plist| then DefaultFor(kind, name)
                                           else None
  {
    hide Find, Add, Get;
    r := plist;
    match kind {
    case Signature =>
      r := AddPlist(r, "c", "simple/simple", false);
      r := AddPlist(r, "q", "dns/txt", false);
    case Policy =>
    case Key =>
      r := AddPlist(r, "g", "*", false);
      r := AddPlist(r, "k", "rsa", false);
      r := AddPlist(r, "s", "*", false);
    }
    forall name
      ensures Get(r, name) == if Has(plist, name) then Get(plist, name)
                              else if Find(plist, name) == |plist| then DefaultFor(kind, name)
                              else None
    {
      DefaultsFill(kind, plist, name);
    }
  }

  lemma Semicolon()
    ensures !IsSpace(';') && !IsAlnum(';')
  {
  }

  /** Where the variables point, and which of them are pointers at all. */
  lemma Bounds(str: string, b: nat, p: nat, e: nat, state: int, spaced: bool, param: int, eq: int, value: int)
    requires Reading(str, b, p, e, state, spaced, param, eq, value)
    ensures b <= p <= e <= |str| && e == b + TokenLength(str[b..], ';') && 0 <= state <= 3
    ensures p < |str| ==> (str[p] == ';' <==> p == e)
    ensures state <= 2 ==> value == -1
    ensures state > 0 ==> 0 <= param < p
    ensures state > 1 ==> param < eq < p
    ensures state == 3 ==> eq < value < p
  {
    if p < |str| {
      AtEnd(str, b, p, e);
    }
  }
}
