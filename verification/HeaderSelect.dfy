/** Which header fields are signed, and how the h= tag makes the verifier find the same ones
    (section 5.4 of RFC 4871). */
module HeaderSelect {
  import opened Text

  const DKIM_MAXHEADER: nat := 4096

  datatype Field = Field(name: string, text: string)

  /** strncasecmp() over names of equal length. */
  predicate SameName(a: string, b: string) {
    Fold(a) == Fold(b)
  }

  function TrimRight(s: string): (r: string) {
    if s != "" && IsSpace(s[|s| - 1]) then TrimRight(s[..|s| - 1]) else s
  }

  function TrimAll(ts: seq<string>): (r: seq<string>)
    ensures |r| == |ts| && forall i :: 0 <= i < |ts| ==> r[i] == TrimRight(ts[i])
  {
    seq(|ts|, i requires 0 <= i < |ts| => TrimRight(ts[i]))
  }

  /** The names in a header list: its copy is truncated, split at colons, and each piece trimmed on the right. */
  function ListedNames(hdrlist: string): (names: seq<string>) {
    TrimAll(Tokens(if |hdrlist| >= DKIM_MAXHEADER then hdrlist[..DKIM_MAXHEADER - 1] else hdrlist, ':'))
  }

  // ---------- Selection ----------

  /** The last of the first n fields that has the name and is not used, or -1. */
  function LastUnused(fields: seq<Field>, name: string, used: set<nat>, n: nat): (i: int)
    requires n <= |fields|
    ensures -1 <= i < n
  {
    if n == 0 then -1
    else if n - 1 !in used && SameName(fields[n - 1].name, name) then n - 1
    else LastUnused(fields, name, used, n - 1)
  }

  lemma {:induction false} LastUnusedIs(fields: seq<Field>, name: string, used: set<nat>, n: nat)
    requires n <= |fields|
    ensures var i := LastUnused(fields, name, used, n);
            && (i >= 0 ==> SameName(fields[i].name, name) && i !in used)
            && forall j :: i < j < n ==> j in used || !SameName(fields[j].name, name)
  {
    if n != 0 && !(n - 1 !in used && SameName(fields[n - 1].name, name)) {
      LastUnusedIs(fields, name, used, n - 1);
    }
  }

  lemma LastUnusedFree(fields: seq<Field>, name: string, used: set<nat>)
    ensures var i := LastUnused(fields, name, used, |fields|); i >= 0 ==> i !in used
  {
    LastUnusedIs(fields, name, used, |fields|);
  }

  /** Name by name, the last unused field of that name, if there is one. */
  function Select(fields: seq<Field>, names: seq<string>, used: set<nat>): (chosen: seq<nat>)
    ensures forall k :: 0 <= k < |chosen| ==> chosen[k] < |fields|
    decreases |names|
  {
    if names == [] then []
    else
      var i := LastUnused(fields, names[0], used, |fields|);
      if i < 0 then Select(fields, names[1..], used)
      else [i] + Select(fields, names[1..], used + {i})
  }

  function Marked(flags: seq<bool>): (s: set<nat>)
    ensures forall i: nat :: i in s <==> i < |flags| && flags[i]
  {
    set i: nat | i < |flags| && flags[i]
  }

  function Indices(chosen: seq<nat>): (s: set<nat>)
    ensures forall i :: i in s <==> i in chosen
  {
    set i | i in chosen
  }

  lemma {:induction false} MarkedBound(s: set<nat>, n: nat)
    requires forall i :: i in s ==> i < n
    ensures |s| <= n
  {
    if n == 0 {
      assert s == {};
    } else {
      MarkedBound(s - {n - 1}, n - 1);
    }
  }

  method ClearFlags(flags: array<bool>)
    modifies flags
    ensures Marked(flags[..]) == {}
  {
    var k := 0;
    while k < flags.Length
      invariant k <= flags.Length && forall j :: 0 <= j < k ==> !flags[j]
    {
      flags[k] := false;
      k := k + 1;
    }
  }

  /** The inner loop: a later match replaces an earlier one. */
  method FindUnused(fields: seq<Field>, flags: array<bool>, name: string) returns (found: int)
    requires flags.Length == |fields|
    ensures found == LastUnused(fields, name, Marked(flags[..]), |fields|)
  {
    found := -1;
    var h := 0;
    while h < |fields|
      invariant h <= |fields|
      invariant found == LastUnused(fields, name, Marked(flags[..]), h)
    {
      if !flags[h] && SameName(fields[h].name, name) {
        found := h;
      }
      h := h + 1;
    }
  }

  /** One turn of the outer loop. */
  method Pick(fields: seq<Field>, flags: array<bool>, lhdrs: array<int>, shcnt: nat, name: string, ghost picked: seq<nat>)
    returns (found: bool, ghost next: seq<nat>)
    requires flags.Length == |fields| && |picked| == shcnt < lhdrs.Length
    requires forall j :: 0 <= j < |picked| ==> lhdrs[j] == picked[j]
    requires Marked(flags[..]) == Indices(picked)
    modifies flags, lhdrs
    ensures |next| <= lhdrs.Length && forall j :: 0 <= j < |next| ==> lhdrs[j] == next[j]
    ensures Marked(flags[..]) == Indices(next)
    ensures var i := LastUnused(fields, name, Indices(picked), |fields|);
            && found == (i >= 0)
            && next == (if i >= 0 then picked + [i] else picked)
            && (found ==> i !in Indices(picked))
  {
    hide LastUnused, Indices, Marked;
    next := picked;
    lhdrs[shcnt] := -1;
    var i := FindUnused(fields, flags, name);
    LastUnusedFree(fields, name, Indices(picked));
    found := i >= 0;
    if found {
      lhdrs[shcnt] := i;
      Mark(flags, i);
      next := picked + [i];
      assert Indices(next) == Indices(picked) + {i};
    }
  }

  /** strtok_r(), until it finds nothing more. */
  method SplitOut(list: string) returns (hdrs: seq<string>)
    ensures hdrs == Tokens(list, ':')
  {
    hide Tokens;
    hdrs := [];
    var rest := list;
    assert [] + Tokens(list, ':') == Tokens(list, ':');
    while rest != ""
      invariant hdrs + Tokens(rest, ':') == Tokens(list, ':')
      decreases |rest|
    {
      TokensStep(rest, ':');
      if rest[0] == ':' {
        rest := rest[1..];
      } else {
        var n := TokenEnd(rest);
        Associative(hdrs, [rest[..n]], Tokens(rest[n..], ':'));
        hdrs := hdrs + [rest[..n]];
        rest := rest[n..];
      }
    }
    NoTokens(':');
    assert hdrs + [] == hdrs;
  }

  method TokenEnd(rest: string) returns (n: nat)
    requires rest != "" && rest[0] != ':'
    ensures 0 < n <= |rest| && n == TokenLength(rest, ':')
  {
    n := 0;
    while n < |rest| && rest[n] != ':'
      invariant n <= |rest| && TokenLength(rest, ':') == n + TokenLength(rest[n..], ':')
    {
      assert rest[n..][1..] == rest[n + 1..];
      n := n + 1;
    }
  }

  lemma TokensStep(s: string, d: char)
    requires s != ""
    ensures Tokens(s, d) == if s[0] == d then Tokens(s[1..], d)
                            else [s[..TokenLength(s, d)]] + Tokens(s[TokenLength(s, d)..], d)
  {
  }

  method TrimName(hdr: string) returns (name: string)
    ensures name == TrimRight(hdr)
  {
    var len := |hdr|;
    assert hdr[..len] == hdr;
    while len > 0 && IsSpace(hdr[len - 1])
      invariant len <= |hdr| && TrimRight(hdr[..len]) == TrimRight(hdr)
    {
      assert hdr[..len][..len - 1] == hdr[..len - 1];
      len := len - 1;
    }
    name := hdr[..len];
  }

  /** Without a list of names all fields are used. */
  method UseAll(fields: seq<Field>, nptrs: nat) returns (count: int, ptrs: seq<nat>)
    ensures if |fields| > nptrs then count == -1
            else count == |fields| == |ptrs| && forall i :: 0 <= i < |fields| ==> ptrs[i] == i
  {
    ptrs := [];
    var n := 0;
    while n < |fields|
      invariant n == |ptrs| <= |fields| && n <= nptrs && forall i :: 0 <= i < n ==> ptrs[i] == i
    {
      if n >= nptrs {
        return -1, [];
      }
      ptrs := ptrs + [n];
      n := n + 1;
    }
    count := n;
  }

  /** dkim_canon_selecthdrs; flags are the DKIM_HDR_SIGNED bits. */
  method SelectHdrs(fields: seq<Field>, flags: array<bool>, hdrlist: Option<string>, nptrs: nat)
    returns (count: int, ptrs: seq<nat>)
    requires flags.Length == |fields|
    modifies flags
    ensures hdrlist.None? ==>
              && flags[..] == old(flags[..])
              && if |fields| > nptrs then count == -1
                 else count == |fields| == |ptrs| && forall i :: 0 <= i < |fields| ==> ptrs[i] == i
    ensures hdrlist.Some? ==>
              var chosen := Select(fields, ListedNames(hdrlist.value), {});
              && Marked(flags[..]) == Indices(chosen)
              && (if |chosen| > nptrs then count == -1 else count == |chosen| && ptrs == chosen)
  {
    if hdrlist.None? {
      count, ptrs := UseAll(fields, nptrs);
    } else {
      count, ptrs := SelectNamed(fields, flags, hdrlist.value, nptrs);
    }
  }

  lemma ListedAre(hdrlist: string)
    ensures ListedNames(hdrlist) == TrimAll(Tokens(if |hdrlist| >= DKIM_MAXHEADER then hdrlist[..DKIM_MAXHEADER - 1] else hdrlist, ':'))
  {
  }

  /** With the first c names looked for, and `picked` found. */
  ghost predicate Choosing(fields: seq<Field>, flags: array<bool>, lhdrs: array<int>, names: seq<string>, c: nat, picked: seq<nat>)
    reads flags, lhdrs
  {
    && c <= |names| && |picked| == |Indices(picked)| <= |fields| == flags.Length && lhdrs.Length == |fields| + 1
    && (forall j :: 0 <= j < |picked| ==> lhdrs[j] == picked[j])
    && Marked(flags[..]) == Indices(picked)
    && picked + Select(fields, names[c..], Indices(picked)) == Select(fields, names, {})
  }

  /** One name more. */
  method PickNext(fields: seq<Field>, flags: array<bool>, lhdrs: array<int>, shcnt: nat, name: string,
                  ghost names: seq<string>, ghost c: nat, ghost picked: seq<nat>)
    returns (shcnt': nat, ghost next: seq<nat>)
    requires Choosing(fields, flags, lhdrs, names, c, picked) && shcnt == |picked| && c < |names| && name == names[c]
    modifies flags, lhdrs
    ensures Choosing(fields, flags, lhdrs, names, c + 1, next) && shcnt' == |next|
  {
    hide Select, LastUnused, Indices, Marked;
    SelectStep(fields, names[c..], Indices(picked));
    assert names[c..][0] == name && names[c..][1..] == names[c + 1..];
    var found;
    found, next := Pick(fields, flags, lhdrs, shcnt, name, picked);
    shcnt' := shcnt;
    if found {
      shcnt' := shcnt + 1;
      ghost var i := next[shcnt];
      PickedNext(picked, i, Select(fields, names[c + 1..], Indices(picked) + {i}));
      MarkedBound(Marked(flags[..]), |fields|);
    }
  }

  lemma ChoosingStarts(fields: seq<Field>, flags: array<bool>, lhdrs: array<int>, names: seq<string>)
    requires flags.Length == |fields| && lhdrs.Length == |fields| + 1 && Marked(flags[..]) == {}
    ensures Choosing(fields, flags, lhdrs, names, 0, [])
  {
    hide Select, LastUnused, Marked;
    assert names[0..] == names && Indices([]) == {} && [] + Select(fields, names, {}) == Select(fields, names, {});
  }

  lemma ChoosingEnds(fields: seq<Field>, flags: array<bool>, lhdrs: array<int>, names: seq<string>, picked: seq<nat>)
    requires Choosing(fields, flags, lhdrs, names, |names|, picked)
    ensures picked == Select(fields, names, {}) && Marked(flags[..]) == Indices(picked) && |picked| <= lhdrs.Length
    ensures forall j :: 0 <= j < |picked| ==> lhdrs[j] == picked[j]
  {
    hide Select, LastUnused, Indices, Marked;
    SelectNone(fields, Indices(picked));
    assert names[|names|..] == [] && picked + [] == picked;
  }

  /** With such a list, and one slot of scratch space to spare. */
  method SelectNamed(fields: seq<Field>, flags: array<bool>, hdrlist: string, nptrs: nat)
    returns (count: int, ptrs: seq<nat>)
    requires flags.Length == |fields|
    modifies flags
    ensures var chosen := Select(fields, ListedNames(hdrlist), {});
            && Marked(flags[..]) == Indices(chosen)
            && (if |chosen| > nptrs then count == -1 else count == |chosen| && ptrs == chosen)
  {
    hide Select, LastUnused, Indices, Marked, TrimRight, Tokens, ListedNames, Choosing;
    ClearFlags(flags);
    var hdrs := SplitOut(if |hdrlist| >= DKIM_MAXHEADER then hdrlist[..DKIM_MAXHEADER - 1] else hdrlist);
    ghost var names := TrimAll(hdrs);
    assert names == ListedNames(hdrlist) by { ListedAre(hdrlist); }
    var lhdrs := new int[|fields| + 1];
    var shcnt, c := 0, 0;
    ghost var picked: seq<nat> := [];
    ChoosingStarts(fields, flags, lhdrs, names);
    while c < |hdrs|
      invariant c <= |hdrs| && shcnt == |picked| && fresh(lhdrs) && Choosing(fields, flags, lhdrs, names, c, picked)
    {
      var name := TrimName(hdrs[c]);
      shcnt, picked := PickNext(fields, flags, lhdrs, shcnt, name, names, c, picked);
      c := c + 1;
    }
    ChoosingEnds(fields, flags, lhdrs, names, picked);
    if shcnt > nptrs {
      return -1, [];
    }
    count := shcnt;
    ptrs := CopyOut(lhdrs, shcnt);
    assert ptrs == picked;
  }

  /** The last loop: what was found goes to the caller's array. */
  method CopyOut(lhdrs: array<int>, shcnt: nat) returns (ptrs: seq<nat>)
    requires shcnt <= lhdrs.Length && forall j :: 0 <= j < shcnt ==> lhdrs[j] >= 0
    ensures |ptrs| == shcnt && forall j :: 0 <= j < shcnt ==> ptrs[j] == lhdrs[j]
  {
    ptrs := [];
    var c := 0;
    while c < shcnt
      invariant c == |ptrs| <= shcnt && forall j :: 0 <= j < c ==> ptrs[j] == lhdrs[j]
    {
      ptrs := ptrs + [lhdrs[c]];
      c := c + 1;
    }
  }

  method Mark(flags: array<bool>, i: nat)
    requires i < flags.Length
    modifies flags
    ensures Marked(flags[..]) == Marked(old(flags[..])) + {i}
  {
    flags[i] := true;
  }

  lemma PickedNext(picked: seq<nat>, i: nat, rest: seq<nat>)
    ensures picked + ([i] + rest) == picked + [i] + rest
    ensures Indices(picked + [i]) == Indices(picked) + {i}
  {
  }

  // ---------- Properties of the selection ----------

  lemma {:induction false} SelectUnused(fields: seq<Field>, names: seq<string>, used: set<nat>, k: nat)
    requires k < |Select(fields, names, used)|
    ensures Select(fields, names, used)[k] !in used
    decreases |names|
  {
    var i := LastUnused(fields, names[0], used, |fields|);
    LastUnusedIs(fields, names[0], used, |fields|);
    if i < 0 {
      SelectUnused(fields, names[1..], used, k);
    } else if k > 0 {
      SelectUnused(fields, names[1..], used + {i}, k - 1);
    }
  }

  /** No field is chosen twice, and of the fields with one name those further down are chosen first. */
  lemma {:induction false} SelectBottomUp(fields: seq<Field>, names: seq<string>, used: set<nat>, a: nat, b: nat)
    requires a < b < |Select(fields, names, used)|
    ensures var chosen := Select(fields, names, used);
            && chosen[a] != chosen[b]
            && (SameName(fields[chosen[a]].name, fields[chosen[b]].name) ==> chosen[b] < chosen[a])
    decreases |names|
  {
    var i := LastUnused(fields, names[0], used, |fields|);
    if i < 0 {
      SelectBottomUp(fields, names[1..], used, a, b);
    } else if a > 0 {
      SelectBottomUp(fields, names[1..], used + {i}, a - 1, b - 1);
    } else {
      SelectUnused(fields, names[1..], used + {i}, b - 1);
      LastUnusedIs(fields, names[0], used, |fields|);
    }
  }

  function Shifted(chosen: seq<nat>, d: nat): (r: seq<nat>)
    ensures |r| == |chosen| && forall k :: 0 <= k < |chosen| ==> r[k] == chosen[k] + d
  {
    seq(|chosen|, k requires 0 <= k < |chosen| => chosen[k] + d)
  }

  function ShiftedSet(used: set<nat>, d: nat): (r: set<nat>)
    ensures forall k: nat :: k in r <==> k >= d && k - d in used
  {
    set k | k in used :: k + d
  }

  lemma {:induction false} LastUnusedShift(pre: seq<Field>, fields: seq<Field>, name: string, used: set<nat>, n: nat)
    requires n <= |fields| && LastUnused(fields, name, used, n) >= 0
    ensures LastUnused(pre + fields, name, ShiftedSet(used, |pre|), |pre| + n)
         == LastUnused(fields, name, used, n) + |pre|
  {
    assert (pre + fields)[|pre| + n - 1] == fields[n - 1];
    if n - 1 in used || !SameName(fields[n - 1].name, name) {
      LastUnusedShift(pre, fields, name, used, n - 1);
    }
  }

  lemma SelectStep(fields: seq<Field>, names: seq<string>, used: set<nat>)
    requires names != []
    ensures var i := LastUnused(fields, names[0], used, |fields|);
            Select(fields, names, used) == if i < 0 then Select(fields, names[1..], used)
                                           else [i] + Select(fields, names[1..], used + {i})
  {
  }

  /** When every name is found, fields put in front change nothing. */
  lemma {:induction false} SelectShift(pre: seq<Field>, fields: seq<Field>, names: seq<string>, used: set<nat>)
    requires |Select(fields, names, used)| == |names|
    ensures Select(pre + fields, names, ShiftedSet(used, |pre|)) == Shifted(Select(fields, names, used), |pre|)
    decreases |names|
  {
    hide Select, LastUnused, ShiftedSet, Shifted;
    if names != [] {
      var i := LastUnused(fields, names[0], used, |fields|);
      SelectStep(fields, names, used);
      SelectStep(pre + fields, names, ShiftedSet(used, |pre|));
      SelectAtMost(fields, names[1..], used);
      LastUnusedShift(pre, fields, names[0], used, |fields|);
      SelectShift(pre, fields, names[1..], used + {i});
      ShiftedSetMore(used, i, |pre|);
      ShiftedMore(i, Select(fields, names[1..], used + {i}), |pre|);
    } else {
      NothingShifted(pre, fields, names, used);
    }
  }

  lemma NothingShifted(pre: seq<Field>, fields: seq<Field>, names: seq<string>, used: set<nat>)
    requires names == []
    ensures Select(pre + fields, names, ShiftedSet(used, |pre|)) == Shifted(Select(fields, names, used), |pre|)
  {
  }

  lemma ShiftedSetMore(used: set<nat>, i: nat, d: nat)
    ensures ShiftedSet(used + {i}, d) == ShiftedSet(used, d) + {i + d}
  {
  }

  lemma ShiftedMore(i: nat, chosen: seq<nat>, d: nat)
    ensures Shifted([i] + chosen, d) == [i + d] + Shifted(chosen, d)
  {
  }

  lemma {:induction false} SelectAtMost(fields: seq<Field>, names: seq<string>, used: set<nat>)
    ensures |Select(fields, names, used)| <= |names|
    decreases |names|
  {
    if names != [] {
      var i := LastUnused(fields, names[0], used, |fields|);
      SelectAtMost(fields, names[1..], if i < 0 then used else used + {i});
    }
  }

  // ---------- Signer and verifier ----------

  /** The names of those of the first n fields that are kept. */
  function KeptNames(fields: seq<Field>, keep: seq<bool>, n: nat): (names: seq<string>)
    requires n <= |fields| == |keep|
  {
    if n == 0 then []
    else KeptNames(fields, keep, n - 1) + if keep[n - 1] then [fields[n - 1].name] else []
  }

  /** Field names in different case are the same name, so they are kept alike (the list of names to sign is
      matched without regard to case). */
  predicate CaseBlind(fields: seq<Field>, keep: seq<bool>)
    requires |fields| == |keep|
  {
    forall i, j :: 0 <= i < |fields| && 0 <= j < |fields| && SameName(fields[i].name, fields[j].name) ==> keep[i] == keep[j]
  }

  function Class(fields: seq<Field>, name: string): (s: set<nat>)
    ensures forall i: nat :: i in s <==> i < |fields| && SameName(fields[i].name, name)
  {
    set i: nat | i < |fields| && SameName(fields[i].name, name)
  }

  function Below(s: set<nat>, n: nat): (r: set<nat>)
    ensures forall i :: i in r <==> i in s && i < n
  {
    set i | i in s && i < n
  }

  lemma {:induction false} SelectAppend(fields: seq<Field>, a: seq<string>, b: seq<string>, used: set<nat>)
    ensures Select(fields, a + b, used)
         == Select(fields, a, used) + Select(fields, b, used + Indices(Select(fields, a, used)))
    decreases |a|
  {
    hide Select, LastUnused;
    if a == [] {
      assert a + b == b && used + {} == used;
      SelectNothing(fields, used);
      assert Indices([]) == {} && [] + Select(fields, b, used) == Select(fields, b, used);
    } else {
      var n, t := a[0], a[1..];
      assert a == [n] + t && a + b == [n] + (t + b);
      SelectCons(fields, n, t, used);
      SelectCons(fields, n, t + b, used);
      var i := LastUnused(fields, n, used, |fields|);
      if i < 0 {
        SelectAppend(fields, t, b, used);
      } else {
        SelectAppend(fields, t, b, used + {i});
        var rest := Select(fields, t, used + {i});
        assert used + {i} + Indices(rest) == used + Indices([i] + rest);
        Associative([i], rest, Select(fields, b, used + Indices([i] + rest)));
      }
    }
  }

  lemma SelectNothing(fields: seq<Field>, used: set<nat>)
    ensures Select(fields, [], used) == []
  {
  }

  lemma SelectCons(fields: seq<Field>, n: string, t: seq<string>, used: set<nat>)
    ensures Select(fields, [n] + t, used) == var i := LastUnused(fields, n, used, |fields|);
                                             if i < 0 then Select(fields, t, used) else [i] + Select(fields, t, used + {i})
  {
    assert ([n] + t)[1..] == t;
  }

  lemma Smaller(a: set<nat>, b: set<nat>, x: nat)
    requires a <= b && x in b && x !in a
    ensures |a| < |b|
  {
    SubsetSize(a, b - {x});
  }

  lemma {:induction false} SubsetSize(a: set<nat>, b: set<nat>)
    requires a <= b
    ensures |a| <= |b| && (|a| == |b| ==> a == b)
  {
    if a != {} {
      var x :| x in a;
      SubsetSize(a - {x}, b - {x});
      assert a == a - {x} + {x} && b == b - {x} + {x};
    }
  }

  /** The used fields of every kept name are as many as that name has had fields so far. */
  ghost predicate Balanced(fields: seq<Field>, keep: seq<bool>, used: set<nat>, n: nat)
    requires |fields| == |keep|
  {
    && used <= Marked(keep)
    && forall m :: 0 <= m < |fields| && keep[m] ==>
         |used * Class(fields, fields[m].name)| == |Below(Class(fields, fields[m].name), n)|
  }

  lemma NextIsFree(fields: seq<Field>, keep: seq<bool>, used: set<nat>, n: nat)
    requires n < |fields| == |keep| && keep[n] && Balanced(fields, keep, used, n)
    ensures LastUnused(fields, fields[n].name, used, |fields|) >= 0
  {
    hide LastUnused, Marked, SameName, Below, Class;
    var name := fields[n].name;
    var c := Class(fields, name);
    SameSelf(name);
    Smaller(Below(c, n), c, n);
    assert |used * c| == |Below(c, n)|;
    LastUnusedIs(fields, name, used, |fields|);
    assert c <= used ==> used * c == c;
    assert LastUnused(fields, name, used, |fields|) < 0 ==> c <= used;
  }

  lemma SameSelf(name: string)
    ensures SameName(name, name)
  {
  }

  lemma BelowNext(c: set<nat>, n: nat)
    ensures n in c ==> |Below(c, n + 1)| == |Below(c, n)| + 1
    ensures n !in c ==> Below(c, n + 1) == Below(c, n)
  {
    if n in c {
      assert Below(c, n + 1) == Below(c, n) + {n};
    }
  }

  lemma OneMore(used: set<nat>, i: nat, c: set<nat>)
    requires i !in used
    ensures i in c ==> |(used + {i}) * c| == |used * c| + 1
    ensures i !in c ==> (used + {i}) * c == used * c
  {
    if i in c {
      assert (used + {i}) * c == used * c + {i};
    }
  }

  lemma KeptAlike(fields: seq<Field>, keep: seq<bool>, i: nat, j: nat)
    requires |fields| == |keep| && CaseBlind(fields, keep) && i < |fields| && j < |fields|
    ensures SameName(fields[i].name, fields[j].name) ==> keep[i] == keep[j]
  {
  }

  lemma StaysBalancedAt(fields: seq<Field>, keep: seq<bool>, used: set<nat>, n: nat, i: nat, m: nat)
    requires n < |fields| == |keep| && i < |fields| && m < |fields|
    requires i !in used && SameName(fields[i].name, fields[n].name)
    requires |used * Class(fields, fields[m].name)| == |Below(Class(fields, fields[m].name), n)|
    ensures |(used + {i}) * Class(fields, fields[m].name)| == |Below(Class(fields, fields[m].name), n + 1)|
  {
    hide Class, Below, Fold;
    var c := Class(fields, fields[m].name);
    BelowNext(c, n);
    OneMore(used, i, c);
    assert i in c <==> n in c;
  }

  lemma StaysBalanced(fields: seq<Field>, keep: seq<bool>, used: set<nat>, n: nat, i: nat)
    requires n < |fields| == |keep| && keep[n] && CaseBlind(fields, keep) && Balanced(fields, keep, used, n)
    requires i < |fields| && i !in used && SameName(fields[i].name, fields[n].name)
    ensures Balanced(fields, keep, used + {i}, n + 1)
  {
    hide Class, Below, Marked, Fold, CaseBlind, SameName;
    KeptAlike(fields, keep, i, n);
    forall m | 0 <= m < |fields| && keep[m]
      ensures |(used + {i}) * Class(fields, fields[m].name)| == |Below(Class(fields, fields[m].name), n + 1)|
    {
      StaysBalancedAt(fields, keep, used, n, i, m);
    }
  }

  lemma KeptStep(fields: seq<Field>, keep: seq<bool>, before: seq<string>, chosen: seq<nat>, n: nat)
    requires n < |fields| == |keep| && keep[n] && CaseBlind(fields, keep)
    requires chosen == Select(fields, before, {}) && |chosen| == |before| && Balanced(fields, keep, Indices(chosen), n)
    ensures var next := Select(fields, before + [fields[n].name], {});
            |next| == |before| + 1 && Balanced(fields, keep, Indices(next), n + 1)
  {
    hide Select, LastUnused, Indices, Balanced, CaseBlind, SameName;
    var name, used := fields[n].name, Indices(chosen);
    SelectAppend(fields, before, [name], {});
    assert {} + used == used;
    NextIsFree(fields, keep, used, n);
    SelectStep(fields, [name], used);
    var i := LastUnused(fields, name, used, |fields|);
    LastUnusedIs(fields, name, used, |fields|);
    SelectNone(fields, used + {i});
    assert [name][1..] == [] && [i] + [] == [i];
    assert Select(fields, before + [name], {}) == chosen + [i];
    StaysBalanced(fields, keep, used, n, i);
    assert Indices(chosen + [i]) == used + {i};
  }

  lemma {:induction false} KeptAreFound(fields: seq<Field>, keep: seq<bool>, n: nat)
    requires n <= |fields| == |keep| && CaseBlind(fields, keep)
    ensures var chosen := Select(fields, KeptNames(fields, keep, n), {});
            |chosen| == |KeptNames(fields, keep, n)| && Balanced(fields, keep, Indices(chosen), n)
  {
    hide Select, Balanced, CaseBlind;
    if n == 0 {
      SelectNone(fields, {});
      assert Indices([]) == {};
      NoneBalanced(fields, keep);
    } else {
      var before := KeptNames(fields, keep, n - 1);
      KeptAreFound(fields, keep, n - 1);
      var chosen := Select(fields, before, {});
      if keep[n - 1] {
        KeptStep(fields, keep, before, chosen, n - 1);
      } else {
        assert before + [] == before;
        SkipBalanced(fields, keep, Indices(chosen), n - 1);
      }
    }
  }

  lemma SelectNone(fields: seq<Field>, used: set<nat>)
    ensures Select(fields, [], used) == []
  {
  }

  lemma NoneBalanced(fields: seq<Field>, keep: seq<bool>)
    requires |fields| == |keep|
    ensures Balanced(fields, keep, {}, 0)
  {
    forall m | 0 <= m < |fields| && keep[m]
      ensures |{} * Class(fields, fields[m].name)| == |Below(Class(fields, fields[m].name), 0)|
    {
      assert Below(Class(fields, fields[m].name), 0) == {};
      assert {} * Class(fields, fields[m].name) == {};
    }
  }

  lemma SkipBalanced(fields: seq<Field>, keep: seq<bool>, used: set<nat>, n: nat)
    requires n < |fields| == |keep| && !keep[n] && CaseBlind(fields, keep) && Balanced(fields, keep, used, n)
    ensures Balanced(fields, keep, used, n + 1)
  {
    hide Class, Below, Marked, Fold, CaseBlind;
    forall m | 0 <= m < |fields| && keep[m]
      ensures |used * Class(fields, fields[m].name)| == |Below(Class(fields, fields[m].name), n + 1)|
    {
      KeptAlike(fields, keep, n, m);
      BelowNext(Class(fields, fields[m].name), n);
    }
  }

  /** The signer's selection is every field it keeps. */
  lemma SignerTakesAll(fields: seq<Field>, keep: seq<bool>)
    requires |fields| == |keep| && CaseBlind(fields, keep)
    ensures Indices(Select(fields, KeptNames(fields, keep, |fields|), {})) == Marked(keep)
  {
    hide Select, KeptNames, Indices, CaseBlind, Balanced;
    KeptAreFound(fields, keep, |fields|);
    AllUsed(fields, keep, Indices(Select(fields, KeptNames(fields, keep, |fields|), {})));
  }

  lemma AllUsed(fields: seq<Field>, keep: seq<bool>, used: set<nat>)
    requires |fields| == |keep| && Balanced(fields, keep, used, |fields|)
    ensures used == Marked(keep)
  {
    hide SameName, Class, Below;
    forall m | m in Marked(keep)
      ensures m in used
    {
      var c := Class(fields, fields[m].name);
      SameSelf(fields[m].name);
      assert Below(c, |fields|) == c;
      assert |used * c| == |c|;
      SubsetSize(used * c, c);
      assert m in used * c;
    }
  }

  predicate WellFormedName(name: string) {
    name != "" && forall c :: c in name ==> c != ':' && !IsSpace(c)
  }

  predicate WellFormed(fields: seq<Field>) {
    forall i :: 0 <= i < |fields| ==> WellFormedName(fields[i].name)
  }

  lemma {:induction false} KeptWellFormed(fields: seq<Field>, keep: seq<bool>, n: nat)
    requires n <= |fields| == |keep| && WellFormed(fields)
    ensures forall name :: name in KeptNames(fields, keep, n) ==> WellFormedName(name)
    ensures Joined(KeptNames(fields, keep, n), ':') == "" <==> KeptNames(fields, keep, n) == []
  {
    if n > 0 {
      KeptWellFormed(fields, keep, n - 1);
      JoinedSnoc(KeptNames(fields, keep, n - 1), fields[n - 1].name, ':');
    }
  }

  /** A list printed from well-formed names and short enough for its copy is read back as those names. */
  lemma ListedJoined(names: seq<string>)
    requires forall name :: name in names ==> WellFormedName(name)
    requires |Joined(names, ':')| < 4096
    ensures ListedNames(Joined(names, ':')) == names
  {
    TokensOfJoined(names, ':');
    forall i | 0 <= i < |names|
      ensures TrimRight(names[i]) == names[i]
    {
      assert WellFormedName(names[i]);
      assert names[i][|names[i]| - 1] in names[i];
    }
  }

  /** A colon goes in front of a name when there is something in the list already; names that are empty do not count
      as something. */
  function FromNonEmpty(names: seq<string>): (r: seq<string>) {
    if names != [] && names[0] == "" then FromNonEmpty(names[1..]) else names
  }

  lemma {:induction false} FromNonEmptySnoc(names: seq<string>, name: string)
    ensures FromNonEmpty(names + [name]) == if FromNonEmpty(names) == [] then FromNonEmpty([name]) else FromNonEmpty(names) + [name]
    ensures FromNonEmpty(names) == [] <==> Joined(FromNonEmpty(names), ':') == ""
    ensures FromNonEmpty([name]) == if name == "" then [] else [name]
    ensures forall n :: n in FromNonEmpty(names) ==> n in names
  {
    if names == [] {
      assert [] + [name] == [name];
    } else {
      assert (names + [name])[1..] == names[1..] + [name];
      FromNonEmptySnoc(names[1..], name);
    }
  }

  lemma NoneEmpty(names: seq<string>)
    requires forall name :: name in names ==> name != ""
    ensures FromNonEmpty(names) == names
  {
    assert names != [] ==> names[0] in names;
  }

  /** dkim_canon_runheaders, signing: the list of the names of the fields to be signed. */
  method NamesToSign(fields: seq<Field>, keep: seq<bool>) returns (hdrlist: string)
    requires |fields| == |keep|
    ensures hdrlist == Joined(FromNonEmpty(KeptNames(fields, keep, |fields|)), ':')
  {
    hide FromNonEmpty, Joined;
    hdrlist := "";
    var h := 0;
    FromNonEmptySnoc([], "");
    assert [] + [""] == [""];
    JoinedNothing(':');
    assert FromNonEmpty([]) == [] by { NoneEmpty([]); }
    while h < |fields|
      invariant h <= |fields| && hdrlist == Joined(FromNonEmpty(KeptNames(fields, keep, h)), ':')
    {
      var names := KeptNames(fields, keep, h);
      FromNonEmptySnoc(names, fields[h].name);
      if keep[h] {
        JoinedSnoc(FromNonEmpty(names), fields[h].name, ':');
        if hdrlist != "" {
          hdrlist := hdrlist + ":";
        }
        hdrlist := hdrlist + fields[h].name;
        JoinedOne(fields[h].name);
      } else {
        assert names + [] == names;
      }
      h := h + 1;
    }
  }

  lemma JoinedOne(name: string)
    ensures Joined(FromNonEmpty([name]), ':') == name
  {
  }

  /** dkim_gensighdr: the value of h=, from the flags the selection left behind (no "always sign" list). */
  method PrintedNames(fields: seq<Field>, flags: array<bool>) returns (value: string)
    requires flags.Length == |fields|
    ensures value == Joined(KeptNames(fields, flags[..], |fields|), ':')
  {
    value := "";
    var firsthdr := true;
    var h := 0;
    while h < |fields|
      invariant h <= |fields| && value == Joined(KeptNames(fields, flags[..], h), ':')
      invariant firsthdr == (KeptNames(fields, flags[..], h) == [])
    {
      JoinedSnoc(KeptNames(fields, flags[..], h), fields[h].name, ':');
      if flags[h] {
        if !firsthdr {
          value := value + ":";
        }
        firsthdr := false;
        value := value + fields[h].name;
      } else {
        assert KeptNames(fields, flags[..], h) + [] == KeptNames(fields, flags[..], h);
      }
      h := h + 1;
    }
  }

  lemma SameMarks(a: seq<bool>, b: seq<bool>)
    requires |a| == |b| && Marked(a) == Marked(b)
    ensures a == b
  {
    forall i | 0 <= i < |a|
      ensures a[i] == b[i]
    {
      assert i in Marked(a) <==> a[i];
      assert i in Marked(b) <==> b[i];
    }
  }

  /** The h= value the signer prints makes the verifier take the same fields in the same order, whatever fields
      have been put in front since. */
  method SignThenVerify(fields: seq<Field>, keep: seq<bool>, pre: seq<Field>)
    returns (signed: seq<nat>, hdrlist: string, verified: seq<nat>)
    requires |fields| == |keep| && WellFormed(fields) && CaseBlind(fields, keep)
    requires |Joined(KeptNames(fields, keep, |fields|), ':')| < 4096
    ensures Indices(signed) == Marked(keep)
    ensures verified == Shifted(signed, |pre|)
    ensures forall k :: 0 <= k < |verified| ==> verified[k] < |pre + fields| && (pre + fields)[verified[k]] == fields[signed[k]]
  {
    hide Select, ListedNames, KeptNames, Joined, Marked, Indices, Shifted, ShiftedSet, FromNonEmpty, WellFormed, CaseBlind,
      Balanced;
    ghost var names := KeptNames(fields, keep, |fields|);
    KeptWellFormed(fields, keep, |fields|);
    ListedJoined(names);
    SignerTakesAll(fields, keep);
    KeptAreFound(fields, keep, |fields|);
    SelectSmall(fields, names);
    hdrlist := NamesToSign(fields, keep);
    NoneEmpty(names);
    var flags := new bool[|fields|];
    var count;
    count, signed := SelectHdrs(fields, flags, Some(hdrlist), |fields|);
    SameMarks(flags[..], keep);
    var value := PrintedNames(fields, flags);
    assert value == hdrlist;
    SelectShift(pre, fields, names, {});
    assert ShiftedSet({}, |pre|) == {} by { NoneShifted(|pre|); }
    SelectSmall(pre + fields, names);
    var flags' := new bool[|pre + fields|];
    count, verified := SelectHdrs(pre + fields, flags', Some(value), |pre + fields|);
    ShiftedFields(pre, fields, signed);
  }

  lemma NoneShifted(d: nat)
    ensures ShiftedSet({}, d) == {}
  {
  }

  lemma ShiftedFields(pre: seq<Field>, fields: seq<Field>, signed: seq<nat>)
    requires forall k :: 0 <= k < |signed| ==> signed[k] < |fields|
    ensures var verified := Shifted(signed, |pre|);
            forall k :: 0 <= k < |verified| ==> verified[k] < |pre + fields| && (pre + fields)[verified[k]] == fields[signed[k]]
  {
  }

  /** No more fields are chosen than there are. */
  lemma SelectSmall(fields: seq<Field>, names: seq<string>)
    ensures |Select(fields, names, {})| <= |fields|
  {
    var chosen := Select(fields, names, {});
    DistinctSize(fields, names, |chosen|);
    MarkedBound(Indices(chosen), |fields|);
    assert chosen[..|chosen|] == chosen;
  }

  lemma {:induction false} DistinctSize(fields: seq<Field>, names: seq<string>, n: nat)
    requires n <= |Select(fields, names, {})|
    ensures |Indices(Select(fields, names, {})[..n])| == n
  {
    hide Select, Indices;
    var chosen := Select(fields, names, {});
    if n > 0 {
      DistinctSize(fields, names, n - 1);
      forall a | 0 <= a < n - 1
        ensures chosen[a] != chosen[n - 1]
      {
        SelectBottomUp(fields, names, {}, a, n - 1);
      }
      assert chosen[..n] == chosen[..n - 1] + [chosen[n - 1]];
      IndicesSnoc(chosen[..n - 1], chosen[n - 1]);
    } else {
      NoIndices();
    }
  }

  lemma IndicesSnoc(chosen: seq<nat>, i: nat)
    requires i !in chosen
    ensures |Indices(chosen + [i])| == |Indices(chosen)| + 1
  {
    assert Indices(chosen + [i]) == Indices(chosen) + {i};
  }

  lemma NoIndices()
    ensures Indices([]) == {}
  {
  }
}
