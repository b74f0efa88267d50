/** What rfc2822_mailbox_split makes of addresses written with phrases, quotes and comments
    (section 3.4 of RFC 2822). */
module Addresses {
  import opened Text
  import opened Mailbox

  // ---------- How addresses are written ----------

  /** The inside of a comment: comments nest, and a backslash takes any byte along. */
  datatype Comment = CommentEnd | Plain(c: char, rest: Comment) | Escaped(c: char, rest: Comment)
                   | Nested(inner: Comment, rest: Comment)

  predicate CommentOk(k: Comment) {
    match k
    case CommentEnd => true
    case Plain(c, rest) => c != '(' && c != ')' && c != '\\' && c != NUL && CommentOk(rest)
    case Escaped(c, rest) => c != NUL && CommentOk(rest)
    case Nested(inner, rest) => CommentOk(inner) && CommentOk(rest)
  }

  function ShowComment(k: Comment): (s: string) {
    match k
    case CommentEnd => ""
    case Plain(c, rest) => [c] + ShowComment(rest)
    case Escaped(c, rest) => ['\\', c] + ShowComment(rest)
    case Nested(inner, rest) => ['('] + ShowComment(inner) + [')'] + ShowComment(rest)
  }

  /** The inside of a quoted string, or of a domain literal. */
  datatype Quoted = QuoteEnd | QuotedChar(c: char, rest: Quoted) | QuotedPair(c: char, rest: Quoted)

  predicate QuotedOk(q: Quoted, close: char) {
    match q
    case QuoteEnd => true
    case QuotedChar(c, rest) => c != close && c != '\\' && c != NUL && QuotedOk(rest, close)
    case QuotedPair(c, rest) => c != NUL && QuotedOk(rest, close)
  }

  function ShowQuoted(q: Quoted): (s: string) {
    match q
    case QuoteEnd => ""
    case QuotedChar(c, rest) => [c] + ShowQuoted(rest)
    case QuotedPair(c, rest) => ['\\', c] + ShowQuoted(rest)
  }

  datatype Item = Space(c: char) | Comment(k: Comment) | Word(w: string) | Quote(q: Quoted) | Literal(q: Quoted)

  predicate ItemOk(i: Item) {
    match i
    case Space(c) => IsSpace(c)
    case Comment(k) => CommentOk(k)
    case Word(w) => AtomOk(w)
    case Quote(q) => QuotedOk(q, '"')
    case Literal(q) => QuotedOk(q, ']')
  }

  predicate AtomOk(w: string) {
    w != "" && forall c :: c in w ==> IsAtomChar(c)
  }

  /** The characters of atoms, by their codes. */
  lemma AtomCharIs(c: char)
    ensures IsAtomChar(c) <==>
              c as int !in {0, 9, 10, 11, 12, 13, 32, 34, 40, 44, 47, 58, 59, 60, 61, 62, 63, 64, 91, 92, 93}
  {
  }

  function ShowItem(i: Item): (s: string) {
    match i
    case Space(c) => [c]
    case Comment(k) => ['('] + ShowComment(k) + [')']
    case Word(w) => w
    case Quote(q) => ['"'] + ShowQuoted(q) + ['"']
    case Literal(q) => ['['] + ShowQuoted(q) + [']']
  }

  function Show(items: seq<Item>): (s: string) {
    if items == [] then "" else ShowItem(items[0]) + Show(items[1..])
  }

  predicate ItemsOk(items: seq<Item>) {
    forall i :: 0 <= i < |items| ==> ItemOk(items[i])
  }

  /** An atom, a quoted string or a domain literal. */
  ghost predicate PartOk(t: string) {
    exists i: Item :: ItemOk(i) && !i.Space? && !i.Comment? && ShowItem(i) == t
  }

  /** Only atoms have white space before them noticed. */
  predicate Atomic(t: string) {
    t != "" && t[0] != '"' && t[0] != '['
  }

  /** White space and comments only. */
  predicate Blank(items: seq<Item>) {
    forall i :: 0 <= i < |items| ==> ItemOk(items[i]) && (items[i].Space? || items[i].Comment?)
  }

  /** White space outside comments. */
  predicate Spaced(items: seq<Item>) {
    exists i :: 0 <= i < |items| && items[i].Space?
  }

  // ---------- Reading what is written at a position ----------

  predicate At(s: string, p: nat, t: string) {
    p + |t| <= |s| && s[p..p + |t|] == t
  }

  lemma AtSplit(s: string, p: nat, t: string, u: string)
    requires At(s, p, t + u)
    ensures At(s, p, t) && At(s, p + |t|, u) && p + |t + u| == p + |t| + |u|
  {
    assert s[p..p + |t + u|][..|t|] == s[p..p + |t|] && (t + u)[..|t|] == t;
    assert s[p..p + |t + u|][|t|..] == s[p + |t|..p + |t| + |u|] && (t + u)[|t|..] == u;
  }

  lemma AtChar(s: string, p: nat, c: char)
    requires At(s, p, [c])
    ensures p < |s| && s[p] == c
  {
    assert s[p..p + 1][0] == s[p];
  }

  lemma {:induction false} MatchComment(s: string, p: nat, k: Comment, paren: nat)
    requires CommentOk(k) && At(s, p, ShowComment(k)) && paren > 0
    ensures Matching(s, p, '(', ')', paren) == Matching(s, p + |ShowComment(k)|, '(', ')', paren)
    decreases k
  {
    hide At, Matching;
    AtWithin(s, p, ShowComment(k));
    match k
    case CommentEnd =>
    case Plain(c, rest) =>
      AtSplit(s, p, [c], ShowComment(rest));
      AtChar(s, p, c);
      MatchStep(s, p, paren);
      MatchComment(s, p + 1, rest, paren);
    case Escaped(c, rest) =>
      MatchEscaped(s, p, c, rest);
      MatchStep(s, p, paren);
      MatchComment(s, p + 2, rest, paren);
    case Nested(inner, rest) =>
      MatchNested(s, p, inner, rest);
      MatchStep(s, p, paren);
      MatchComment(s, p + 1, inner, paren + 1);
      MatchStep(s, p + 1 + |ShowComment(inner)|, paren + 1);
      MatchComment(s, p + 1 + |ShowComment(inner)| + 1, rest, paren);
  }

  lemma MatchStep(s: string, p: nat, paren: nat)
    requires p < |s| && paren > 0
    ensures s[p] == '(' ==> Matching(s, p, '(', ')', paren) == Matching(s, p + 1, '(', ')', paren + 1)
    ensures s[p] == ')' && paren > 1 ==> Matching(s, p, '(', ')', paren) == Matching(s, p + 1, '(', ')', paren - 1)
    ensures s[p] == '\\' && p + 1 < |s| ==> Matching(s, p, '(', ')', paren) == Matching(s, p + 2, '(', ')', paren)
    ensures s[p] != '(' && s[p] != ')' && s[p] != '\\' ==>
              Matching(s, p, '(', ')', paren) == Matching(s, p + 1, '(', ')', paren)
  {
  }

  lemma AtWithin(s: string, p: nat, t: string)
    requires At(s, p, t)
    ensures p + |t| <= |s|
  {
  }

  lemma MatchEscaped(s: string, p: nat, c: char, rest: Comment)
    requires At(s, p, ShowComment(Escaped(c, rest)))
    ensures p + 1 < |s| && s[p] == '\\' && At(s, p + 2, ShowComment(rest))
  {
    hide At;
    AtSplit(s, p, ['\\', c], ShowComment(rest));
    assert ['\\', c] == ['\\'] + [c];
    AtSplit(s, p, ['\\'], [c]);
    AtChar(s, p, '\\');
    AtChar(s, p + 1, c);
  }

  lemma MatchNested(s: string, p: nat, inner: Comment, rest: Comment)
    requires At(s, p, ShowComment(Nested(inner, rest)))
    ensures p + 1 + |ShowComment(inner)| < |s|
    ensures s[p] == '(' && At(s, p + 1, ShowComment(inner)) && s[p + 1 + |ShowComment(inner)|] == ')'
    ensures At(s, p + 1 + |ShowComment(inner)| + 1, ShowComment(rest))
  {
    hide At;
    var t := ShowComment(inner);
    AtSplit(s, p, ['('] + t + [')'], ShowComment(rest));
    AtSplit(s, p, ['('] + t, [')']);
    AtSplit(s, p, ['('], t);
    AtChar(s, p, '(');
    AtChar(s, p + 1 + |t|, ')');
  }

  lemma {:induction false} MatchQuoted(s: string, p: nat, q: Quoted, close: char)
    requires close != NUL && close != '\\' && QuotedOk(q, close) && At(s, p, ShowQuoted(q))
    ensures Matching(s, p, NUL, close, 1) == Matching(s, p + |ShowQuoted(q)|, NUL, close, 1)
    decreases q
  {
    hide At;
    AtWithin(s, p, ShowQuoted(q));
    match q
    case QuoteEnd =>
    case QuotedChar(c, rest) =>
      AtSplit(s, p, [c], ShowQuoted(rest));
      AtChar(s, p, c);
      MatchQuoted(s, p + 1, rest, close);
    case QuotedPair(c, rest) =>
      AtSplit(s, p, ['\\', c], ShowQuoted(rest));
      assert ['\\', c] == ['\\'] + [c];
      AtSplit(s, p, ['\\'], [c]);
      AtChar(s, p, '\\');
      AtChar(s, p + 1, c);
      MatchQuoted(s, p + 2, rest, close);
  }

  /** A whole comment. */
  lemma SkipComment(s: string, p: nat, k: Comment, ws: bool)
    requires CommentOk(k) && At(s, p, ['('] + ShowComment(k) + [')'])
    ensures p + |ShowComment(k)| + 2 <= |s|
    ensures Skip(s, p, ws) == Skip(s, p + |ShowComment(k)| + 2, ws)
  {
    hide At, ShowComment;
    var t := ShowComment(k);
    AtWithin(s, p, ['('] + t + [')']);
    AtSplit(s, p, ['('] + t, [')']);
    AtSplit(s, p, ['('], t);
    AtChar(s, p, '(');
    AtChar(s, p + 1 + |t|, ')');
    MatchComment(s, p + 1, k, 1);
  }

  lemma ShowCons(items: seq<Item>)
    requires items != []
    ensures Show(items) == ShowItem(items[0]) + Show(items[1..])
    ensures ItemsOk(items) ==> ItemOk(items[0]) && ItemsOk(items[1..])
    ensures Blank(items) ==> ItemOk(items[0]) && (items[0].Space? || items[0].Comment?) && Blank(items[1..])
  {
  }

  lemma ShowNothing()
    ensures Show([]) == "" && !Spaced([])
  {
  }

  lemma {:induction false} SkipBlank(s: string, p: nat, items: seq<Item>, ws: bool)
    requires Blank(items) && At(s, p, Show(items))
    ensures p + |Show(items)| <= |s|
    ensures Skip(s, p, ws) == Skip(s, p + |Show(items)|, ws || Spaced(items))
    decreases |items|
  {
    hide At, ShowComment, Skip, Spaced, Blank, Show, ItemsOk;
    AtWithin(s, p, Show(items));
    if items == [] {
      ShowNothing();
    } else {
      var i, rest := items[0], items[1..];
      ShowCons(items);
      AtSplit(s, p, ShowItem(i), Show(rest));
      SpacedCons(items);
      SkipItem(s, p, i, ws);
      SkipBlank(s, p + |ShowItem(i)|, rest, ws || i.Space?);
    }
  }

  lemma SkipItem(s: string, p: nat, i: Item, ws: bool)
    requires ItemOk(i) && (i.Space? || i.Comment?) && At(s, p, ShowItem(i))
    ensures p + |ShowItem(i)| <= |s| && Skip(s, p, ws) == Skip(s, p + |ShowItem(i)|, ws || i.Space?)
  {
    hide At, ShowComment, Skip;
    if i.Space? {
      AtChar(s, p, i.c);
      SkipOne(s, p, ws);
    } else {
      SkipComment(s, p, i.k, ws);
    }
  }

  lemma SkipOne(s: string, p: nat, ws: bool)
    requires p < |s| && IsSpace(s[p])
    ensures Skip(s, p, ws) == Skip(s, p + 1, true)
  {
  }

  lemma SpacedCons(items: seq<Item>)
    requires items != []
    ensures Spaced(items) == (items[0].Space? || Spaced(items[1..]))
  {
    if Spaced(items) && !items[0].Space? {
      var i :| 0 <= i < |items| && items[i].Space?;
      assert items[1..][i - 1] == items[i];
    }
    if Spaced(items[1..]) {
      var i :| 0 <= i < |items[1..]| && items[1..][i].Space?;
      assert items[i + 1].Space?;
    }
  }

  // ---------- The first special ----------

  lemma {:induction false} SkipSame(s: string, p: nat, ws: bool, ws': bool)
    requires p <= |s|
    ensures Skip(s, p, ws).NeverCloses? == Skip(s, p, ws').NeverCloses?
    ensures Skip(s, p, ws).Skipped? ==> Skip(s, p, ws).p == Skip(s, p, ws').p
    decreases |s| - p
  {
    hide Matching;
    if p < |s| && s[p] == '(' {
      var q := Matching(s, p + 1, '(', ')', 1);
      if q < |s| {
        SkipSame(s, q + 1, ws, ws');
      }
    } else if p < |s| && IsSpace(s[p]) {
      SkipSame(s, p + 1, true, true);
    }
  }

  /** Positions that skip to the same token. */
  lemma SpecialSkips(s: string, p: nat, q: nat, ws: bool, at: Option<nat>)
    requires p <= q <= |s| && Skip(s, p, false) == Skip(s, q, ws) && (at.Some? ==> at.value < p && s[at.value] == '@')
    ensures FirstSpecial(s, p, at) == FirstSpecial(s, q, at)
  {
    hide SpecialFrom, Skip;
    SkipSame(s, q, ws, false);
    SkipEnd(s, q);
    SpecialAtEnd(s, at);
  }

  lemma SpecialAtEnd(s: string, at: Option<nat>)
    requires at.Some? ==> at.value < |s| && s[at.value] == '@'
    ensures SpecialFrom(s, |s|, at) == Found(|s|)
  {
  }

  lemma SkipEnd(s: string, q: nat)
    requires q <= |s|
    ensures q == |s| ==> Skip(s, q, false) == Skipped(q, false)
  {
  }

  lemma SpecialAtom(s: string, p: nat, at: Option<nat>)
    requires p < |s| && IsAtomChar(s[p]) && (at.Some? ==> at.value < p && s[at.value] == '@')
    ensures FirstSpecial(s, p, at) == FirstSpecial(s, p + 1, at)
  {
    hide FirstSpecial, SpecialFrom, IsAtomChar;
    FromAtom(s, p, at);
    if p + 1 < |s| && IsAtomChar(s[p + 1]) {
      FromAtom(s, p + 1, at);
    }
  }

  lemma FromAtom(s: string, p: nat, at: Option<nat>)
    requires p < |s| && IsAtomChar(s[p]) && (at.Some? ==> at.value < p && s[at.value] == '@')
    ensures FirstSpecial(s, p, at) == FirstSpecial(s, RunEnd(s, p + 1), at)
  {
    hide Matching, RunEnd;
    AtomPlain(s[p]);
    assert Skip(s, p, false) == Skipped(p, false);
  }

  lemma AtomPlain(c: char)
    requires IsAtomChar(c)
    ensures c !in SPECIALS && c !in "\"[<:;,@" && !IsSpace(c) && c != '(' && c != NUL
  {
  }

  lemma {:induction false} SpecialWord(s: string, p: nat, w: string, at: Option<nat>)
    requires At(s, p, w) && (forall c :: c in w ==> IsAtomChar(c)) && (at.Some? ==> at.value < p && s[at.value] == '@')
    ensures p + |w| <= |s| && FirstSpecial(s, p, at) == FirstSpecial(s, p + |w|, at)
    decreases |w|
  {
    hide At, FirstSpecial, IsAtomChar;
    AtWithin(s, p, w);
    if w != "" {
      assert w == [w[0]] + w[1..];
      AtSplit(s, p, [w[0]], w[1..]);
      AtChar(s, p, w[0]);
      SpecialAtom(s, p, at);
      SpecialWord(s, p + 1, w[1..], at);
    }
  }

  lemma MatchedQuote(s: string, p: nat)
    requires p < |s|
    ensures s[p] == '"' ==> Matching(s, p, NUL, '"', 1) == p
    ensures s[p] == ']' ==> Matching(s, p, NUL, ']', 1) == p
  {
  }

  lemma SkipsNone(s: string, p: nat, ws: bool)
    requires p < |s| && (s[p] == '"' || s[p] == '[')
    ensures Skip(s, p, ws) == Skipped(p, ws)
  {
  }

  /** A quoted string or a domain literal, from the opening character to the closing one. */
  lemma QuoteEnds(s: string, p: nat, i: Item)
    requires (i.Quote? || i.Literal?) && ItemOk(i) && At(s, p, ShowItem(i))
    ensures var m := p + |ShowItem(i)| - 1;
            && p < m < |s| && s[p] == (if i.Quote? then '"' else '[')
            && m == Matching(s, p + 1, NUL, if i.Quote? then '"' else ']', 1)
  {
    hide At, ShowQuoted, Matching, QuotedOk;
    var t, open, close := ShowQuoted(i.q), if i.Quote? then '"' else '[', if i.Quote? then '"' else ']';
    AtSplit(s, p, [open] + t, [close]);
    AtSplit(s, p, [open], t);
    AtChar(s, p, open);
    AtChar(s, p + 1 + |t|, close);
    MatchQuoted(s, p + 1, i.q, close);
    MatchedQuote(s, p + 1 + |t|);
  }

  lemma SpecialQuote(s: string, p: nat, i: Item, at: Option<nat>)
    requires (i.Quote? || i.Literal?) && ItemOk(i) && At(s, p, ShowItem(i)) && NUL !in s
    requires at.Some? ==> at.value < p && s[at.value] == '@'
    ensures p + |ShowItem(i)| <= |s| && FirstSpecial(s, p, at) == FirstSpecial(s, p + |ShowItem(i)|, at)
  {
    hide At, FirstSpecial, ShowItem, ItemOk, Skip, Matching;
    QuoteEnds(s, p, i);
    SkipsNone(s, p, false);
    SpecialStep(s, p, at, p, false);
  }

  lemma SpecialItem(s: string, p: nat, i: Item, at: Option<nat>)
    requires ItemOk(i) && At(s, p, ShowItem(i)) && NUL !in s && (at.Some? ==> at.value < p && s[at.value] == '@')
    ensures p + |ShowItem(i)| <= |s| && FirstSpecial(s, p, at) == FirstSpecial(s, p + |ShowItem(i)|, at)
  {
    hide At, FirstSpecial, ShowComment, ShowQuoted, Skip, IsAtomChar;
    match i
    case Space(_) =>
      SkipItem(s, p, i, false);
      SpecialSkips(s, p, p + 1, true, at);
    case Comment(_) =>
      SkipItem(s, p, i, false);
      SpecialSkips(s, p, p + |ShowItem(i)|, false, at);
    case Word(w) => SpecialWord(s, p, w, at);
    case _ => SpecialQuote(s, p, i, at);
  }

  /** Words, quotes, comments and white space are all passed over. */
  lemma {:induction false} SpecialItems(s: string, p: nat, items: seq<Item>, at: Option<nat>)
    requires ItemsOk(items) && At(s, p, Show(items)) && NUL !in s && (at.Some? ==> at.value < p && s[at.value] == '@')
    ensures p + |Show(items)| <= |s| && FirstSpecial(s, p, at) == FirstSpecial(s, p + |Show(items)|, at)
    decreases |items|
  {
    hide At, FirstSpecial, ShowItem, Show, ItemOk, ItemsOk;
    AtWithin(s, p, Show(items));
    if items == [] {
      ShowNothing();
    } else {
      var i, rest := items[0], items[1..];
      ShowCons(items);
      AtSplit(s, p, ShowItem(i), Show(rest));
      SpecialItem(s, p, i, at);
      SpecialItems(s, p + |ShowItem(i)|, rest, at);
    }
  }

  // ---------- Tokens ----------

  lemma {:induction false} RunWord(s: string, p: nat, w: string)
    requires At(s, p, w) && (forall c :: c in w ==> IsAtomChar(c))
    requires p + |w| < |s| ==> !IsAtomChar(s[p + |w|])
    ensures p + |w| <= |s| && RunEnd(s, p) == p + |w|
    decreases |w|
  {
    hide At, IsAtomChar;
    AtWithin(s, p, w);
    if w != "" {
      assert w == [w[0]] + w[1..];
      AtSplit(s, p, [w[0]], w[1..]);
      AtChar(s, p, w[0]);
      RunWord(s, p + 1, w[1..]);
    }
  }

  lemma TokenAtom(s: string, p: nat, blank: seq<Item>, w: string, ws: bool)
    requires Blank(blank) && AtomOk(w) && At(s, p, Show(blank) + w)
    requires p + |Show(blank)| + |w| < |s| ==> !IsAtomChar(s[p + |Show(blank)| + |w|])
    ensures var q := p + |Show(blank)|;
            q + |w| <= |s| && NextToken(s, p, ws) == Token('x', q, q + |w|, ws || Spaced(blank))
  {
    hide At, Show, Spaced, IsAtomChar, Matching, NextToken, Skip, RunEnd, Blank;
    AtSplit(s, p, Show(blank), w);
    SkipBlank(s, p, blank, ws);
    var q := p + |Show(blank)|;
    AtWithin(s, q, w);
    assert w == [w[0]] + w[1..];
    AtSplit(s, q, [w[0]], w[1..]);
    AtChar(s, q, w[0]);
    AtomPlain(w[0]);
    RunWord(s, q + 1, w[1..]);
    TokenHere(s, p, q, ws, Spaced(blank));
  }

  lemma TokenHere(s: string, p: nat, q: nat, ws: bool, spaced: bool)
    requires p <= q < |s| && Skip(s, p, ws) == Skip(s, q, ws || spaced) && IsAtomChar(s[q])
    ensures NextToken(s, p, ws) == Token('x', q, RunEnd(s, q + 1), ws || spaced)
  {
    hide Matching, RunEnd;
    AtomPlain(s[q]);
  }

  lemma TokenQuote(s: string, p: nat, blank: seq<Item>, i: Item, ws: bool)
    requires Blank(blank) && (i.Quote? || i.Literal?) && ItemOk(i) && At(s, p, Show(blank) + ShowItem(i))
    ensures var q := p + |Show(blank)|;
            && q + |ShowItem(i)| <= |s|
            && NextToken(s, p, ws) == Token(if i.Quote? then '"' else '[', q, q + |ShowItem(i)|, ws || Spaced(blank))
  {
    hide At, Show, Spaced, Matching, Skip, Blank, ShowItem, ItemOk;
    AtSplit(s, p, Show(blank), ShowItem(i));
    SkipBlank(s, p, blank, ws);
    var q := p + |Show(blank)|;
    QuoteEnds(s, q, i);
    SkipsNone(s, q, ws || Spaced(blank));
  }

  lemma PartShape(i: Item)
    requires ItemOk(i) && !i.Space? && !i.Comment?
    ensures i.Word? <==> Atomic(ShowItem(i))
    ensures i.Quote? ==> ShowItem(i)[0] == '"'
    ensures i.Literal? ==> ShowItem(i)[0] == '['
    ensures ShowItem(i) != "" && NUL !in ShowItem(i)
  {
    match i
    case Word(w) => assert IsAtomChar(w[0]) && NUL !in w;
    case Quote(q) => QuotedNoNul(q, '"');
    case Literal(q) => QuotedNoNul(q, ']');
  }

  lemma {:induction false} QuotedNoNul(q: Quoted, close: char)
    requires QuotedOk(q, close)
    ensures NUL !in ShowQuoted(q)
  {
    if !q.QuoteEnd? {
      QuotedNoNul(q.rest, close);
    }
  }

  /** The next token after blanks is the whole atom, quoted string or domain literal. */
  lemma TokenPart(s: string, p: nat, blank: seq<Item>, w: string, ws: bool)
    requires Blank(blank) && PartOk(w) && At(s, p, Show(blank) + w)
    requires p + |Show(blank)| + |w| < |s| ==> !IsAtomChar(s[p + |Show(blank)| + |w|])
    ensures w != ""
    ensures var q := p + |Show(blank)|;
            && q + |w| <= |s|
            && NextToken(s, p, ws) == Token(if Atomic(w) then 'x' else w[0], q, q + |w|, ws || Spaced(blank))
  {
    hide At, Show, Spaced, IsAtomChar, NextToken, Blank, ShowItem, ItemOk, Atomic;
    var i: Item :| ItemOk(i) && !i.Space? && !i.Comment? && ShowItem(i) == w;
    PartShape(i);
    match i
    case Word(_) =>
      WordShown(i);
      TokenAtom(s, p, blank, w, ws);
    case _ => TokenQuote(s, p, blank, i, ws);
  }

  lemma WordShown(i: Item)
    requires i.Word? && ItemOk(i)
    ensures ShowItem(i) == i.w && AtomOk(i.w)
  {
  }

  lemma TokenSpecial(s: string, p: nat, blank: seq<Item>, c: char, ws: bool)
    requires Blank(blank) && c in "<>@,;:" && At(s, p, Show(blank) + [c])
    ensures var q := p + |Show(blank)|;
            q < |s| && s[q] == c && NextToken(s, p, ws) == Token(c, q, q + 1, ws || Spaced(blank))
  {
    hide At, Show, Spaced, Matching;
    AtSplit(s, p, Show(blank), [c]);
    SkipBlank(s, p, blank, ws);
    AtChar(s, p + |Show(blank)|, c);
  }

  lemma TokenLast(s: string, p: nat, blank: seq<Item>, ws: bool)
    requires Blank(blank) && At(s, p, Show(blank)) && p + |Show(blank)| == |s|
    ensures p <= |s| && NextToken(s, p, ws) == TokenEnd
  {
    hide At, Show, Spaced;
    SkipBlank(s, p, blank, ws);
  }

  lemma {:induction false} ShowEnds(blank: seq<Item>, rest: string)
    requires Blank(blank) && rest != "" && !IsAtomChar(rest[0])
    ensures Show(blank) + rest != "" && !IsAtomChar((Show(blank) + rest)[0])
  {
    if blank != [] {
      assert ItemOk(blank[0]);
    }
  }

  // ---------- Results ----------

  /** The C string that starts at a place of the text written. */
  function CString(o: Outcome, start: Option<nat>): (r: Option<string>) {
    if o.Failed? || start.None? || start.value > |o.r.out| then None
    else
      var t := o.r.out[start.value..];
      Some(t[..TokenLength(t, NUL)])
  }

  function User(o: Outcome): (r: Option<string>) {
    CString(o, o.r.user)
  }

  function Domain(o: Outcome): (r: Option<string>) {
    CString(o, o.r.domain)
  }

  lemma CStringIs(o: Outcome, before: string, t: string, rest: string)
    requires o.Done? && o.r.out == before + (t + rest) && NUL !in t && (rest == "" || rest[0] == NUL)
    ensures CString(o, Some(|before|)) == Some(t)
  {
    assert o.r.out[|before|..] == t + rest;
    TokenLengthIs(t, rest, NUL);
  }

  lemma ResultsAre(before: string, local: string, domain: string)
    requires NUL !in local && NUL !in domain
    ensures var o := Done(Result(before + local + [NUL] + domain, Some(|before|), Some(|before| + |local| + 1)));
            User(o) == Some(local) && Domain(o) == Some(domain)
  {
    hide CString;
    var o := Done(Result(before + local + [NUL] + domain, Some(|before|), Some(|before| + |local| + 1)));
    assert o.r.out == before + (local + ([NUL] + domain)) == before + local + [NUL] + (domain + "");
    CStringIs(o, before, local, [NUL] + domain);
    CStringIs(o, before + local + [NUL], domain, "");
  }

  lemma PartNoNul(w: string)
    requires PartOk(w)
    ensures NUL !in w
  {
    hide ShowItem, ItemOk, Atomic;
    var i: Item :| ItemOk(i) && !i.Space? && !i.Comment? && ShowItem(i) == w;
    PartShape(i);
  }

  // ---------- Local part and domain, in any blanks ----------

  /** local @ domain with blanks around every token. */
  function Address(b1: seq<Item>, local: string, b2: seq<Item>, b3: seq<Item>, domain: string, b4: seq<Item>): (t: string) {
    Show(b1) + local + (Show(b2) + ['@']) + (Show(b3) + domain) + Show(b4)
  }

  ghost predicate PartsOk(b1: seq<Item>, local: string, b2: seq<Item>, b3: seq<Item>, domain: string, b4: seq<Item>) {
    Blank(b1) && PartOk(local) && Blank(b2) && Blank(b3) && PartOk(domain) && Blank(b4)
  }

  /** A space is put before an atom that white space stands before. */
  function Gap(b3: seq<Item>, domain: string): (gap: string) {
    if Spaced(b3) && Atomic(domain) then " " else ""
  }

  lemma BlankItems(blank: seq<Item>)
    requires Blank(blank)
    ensures ItemsOk(blank)
  {
  }

  /** Where the parts of an address at p are; the text goes on with `tail`, which cannot continue a word. */
  lemma Layout(s: string, p: nat, b1: seq<Item>, local: string, b2: seq<Item>, b3: seq<Item>, domain: string, b4: seq<Item>, tail: string)
    returns (q: nat, r: nat)
    requires PartsOk(b1, local, b2, b3, domain, b4) && At(s, p, Address(b1, local, b2, b3, domain, b4) + tail)
    requires p + |Address(b1, local, b2, b3, domain, b4) + tail| == |s|
    requires tail != "" ==> !IsAtomChar(tail[0])
    ensures q == p + |Show(b1)| + |local| && At(s, p, Show(b1) + local) && q < |s| && !IsAtomChar(s[q])
    ensures At(s, q, Show(b2) + ['@']) && q + |Show(b2)| + 1 <= |s|
    ensures r == q + |Show(b2)| + 1 + |Show(b3)| + |domain| && At(s, q + |Show(b2)| + 1, Show(b3) + domain)
    ensures r <= |s| && (r < |s| ==> !IsAtomChar(s[r])) && At(s, r, Show(b4)) && At(s, r + |Show(b4)|, tail)
    ensures r + |Show(b4)| + |tail| == |s|
  {
    hide At, Show, Blank, PartOk, IsAtomChar;
    var t1, t2, t3 := Show(b1) + local, Show(b2) + ['@'], Show(b3) + domain;
    q, r := p + |t1|, p + |t1| + |t2| + |t3|;
    AtSplit(s, p, t1 + t2 + t3 + Show(b4), tail);
    AtSplit(s, p, t1 + t2 + t3, Show(b4));
    AtSplit(s, p, t1 + t2, t3);
    AtSplit(s, p, t1, t2);
    AtWithin(s, r, Show(b4));
    AtNotAtom();
    ShowEnds(b2, ['@']);
    AtFirst(s, q, t2);
    if Show(b4) + tail != "" {
      assert At(s, r, Show(b4) + tail) by { AtJoin(s, r, Show(b4), tail); }
      AtFirst(s, r, Show(b4) + tail);
      BlankThen(b4, tail);
    }
  }

  lemma AtNotAtom()
    ensures !IsAtomChar('@')
  {
  }

  lemma AtFirst(s: string, p: nat, t: string)
    requires At(s, p, t) && t != ""
    ensures p < |s| && s[p] == t[0]
  {
    assert s[p..p + |t|][0] == s[p];
  }

  lemma AtJoin(s: string, p: nat, t: string, u: string)
    requires At(s, p, t) && At(s, p + |t|, u)
    ensures At(s, p, t + u)
  {
    assert s[p..p + |t + u|] == s[p..p + |t|] + s[p + |t|..p + |t| + |u|];
  }

  lemma BlankThen(blank: seq<Item>, tail: string)
    requires Blank(blank) && (tail != "" ==> !IsAtomChar(tail[0])) && Show(blank) + tail != ""
    ensures !IsAtomChar((Show(blank) + tail)[0])
  {
    if blank != [] {
      assert ItemOk(blank[0]);
      ShowCons(blank);
    }
  }

  // ---------- Bare addresses ----------

  /** Up to the '@'. */
  lemma BareLocal(s: string, p: nat, b1: seq<Item>, local: string, b2: seq<Item>)
    requires Blank(b1) && PartOk(local) && Blank(b2) && At(s, p, Show(b1) + local)
    requires var q := p + |Show(b1)| + |local|; q < |s| && !IsAtomChar(s[q]) && At(s, q, Show(b2) + ['@'])
    ensures var q := p + |Show(b1)| + |local| + |Show(b2)| + 1;
            q <= |s| && Bare(s, p, false, NOTHING) == Bare(s, q, false, Result(local + [NUL], Some(0), Some(|local| + 1)))
  {
    hide At, Show, Blank, PartOk, IsAtomChar, Bare, NextToken, Spaced;
    var q := p + |Show(b1)| + |local|;
    TokenPart(s, p, b1, local, false);
    BareStep(s, p, NOTHING);
    AtSplit(s, p, Show(b1), local);
    AtText(s, p + |Show(b1)|, local);
    assert "" + "" + local == local;
    TokenSpecial(s, q, b2, '@', false);
    BareStep(s, q, Result(local, Some(0), None));
  }

  /** The domain, and the end. */
  lemma BareDomain(s: string, p: nat, b3: seq<Item>, domain: string, b4: seq<Item>, tail: string, r: Result)
    requires Blank(b3) && PartOk(domain) && Blank(b4) && r.user.Some? && At(s, p, Show(b3) + domain)
    requires var q := p + |Show(b3)| + |domain|;
             q <= |s| && (q < |s| ==> !IsAtomChar(s[q])) && At(s, q, Show(b4)) && At(s, q + |Show(b4)|, tail)
             && q + |Show(b4)| + |tail| == |s|
    requires tail != "" ==> tail[0] == ',' || tail[0] == ';'
    ensures p <= |s| && Bare(s, p, false, r) == Done(r.(out := r.out + (Gap(b3, domain) + domain)))
  {
    hide At, Show, Blank, PartOk, IsAtomChar, Bare, NextToken, Spaced;
    var q := p + |Show(b3)| + |domain|;
    TokenPart(s, p, b3, domain, false);
    BareStep(s, p, r);
    AtSplit(s, p, Show(b3), domain);
    AtText(s, p + |Show(b3)|, domain);
    var gap := Gap(b3, domain);
    Associative(r.out, gap, domain);
    BareStep(s, q, r.(out := r.out + (gap + domain)));
    if tail == "" {
      TokenLast(s, q, b4, false);
    } else {
      TailEnds(tail);
      assert tail == [tail[0]] + tail[1..];
      AtSplit(s, q + |Show(b4)|, [tail[0]], tail[1..]);
      AtJoin(s, q, Show(b4), [tail[0]]);
      TokenSpecial(s, q, b4, tail[0], false);
    }
  }

  /** A list of one address or more: the first one ends at a comma, a semicolon or the end. */
  lemma BareIs(s: string, p: nat, b1: seq<Item>, local: string, b2: seq<Item>, b3: seq<Item>, domain: string, b4: seq<Item>, tail: string)
    requires PartsOk(b1, local, b2, b3, domain, b4)
    requires EndsIn(s, p, Address(b1, local, b2, b3, domain, b4) + tail)
    requires tail != "" ==> tail[0] == ',' || tail[0] == ';'
    ensures Bare(s, p, false, NOTHING)
         == Done(Result(local + [NUL] + (Gap(b3, domain) + domain), Some(0), Some(|local| + 1)))
  {
    hide At, Show, Blank, PartOk, IsAtomChar, Bare, Spaced, Address;
    TailEnds(tail);
    var q, r := Layout(s, p, b1, local, b2, b3, domain, b4, tail);
    BareLocal(s, p, b1, local, b2);
    BareDomain(s, q + |Show(b2)| + 1, b3, domain, b4, tail, Result(local + [NUL], Some(0), Some(|local| + 1)));
  }

  lemma TailEnds(tail: string)
    requires tail != "" ==> tail[0] == ',' || tail[0] == ';'
    ensures tail != "" ==> !IsAtomChar(tail[0]) && tail[0] in "<>@,;:"
  {
  }

  lemma AtAll(s: string)
    ensures At(s, 0, s)
  {
  }

  lemma AtText(s: string, p: nat, t: string)
    requires At(s, p, t)
    ensures p + |t| <= |s| && s[p..p + |t|] == t
  {
  }

  lemma SpecialMark(s: string, p: nat, at: Option<nat>)
    requires p < |s| && NUL !in s && (at.Some? ==> at.value < p && s[at.value] == '@')
    ensures s[p] == '@' ==> FirstSpecial(s, p, at) == FirstSpecial(s, p + 1, Some(p))
    ensures s[p] == '<' ==> FirstSpecial(s, p, at) == Found(p)
    ensures s[p] == ',' || s[p] == ';' || s[p] == ':' ==> FirstSpecial(s, p, at) == Found(if at.Some? then at.value else p)
  {
    hide Skip, FirstSpecial;
    if s[p] == '@' || s[p] == '<' || s[p] == ',' || s[p] == ';' || s[p] == ':' {
      SkipNothing(s, p);
      SpecialStep(s, p, at, p, false);
    }
  }

  lemma SpecialPart(s: string, p: nat, w: string, at: Option<nat>)
    requires At(s, p, w) && PartOk(w) && NUL !in s && (at.Some? ==> at.value < p && s[at.value] == '@')
    ensures p + |w| <= |s| && FirstSpecial(s, p, at) == FirstSpecial(s, p + |w|, at)
  {
    hide At, FirstSpecial, ShowItem, ItemOk;
    var i: Item :| ItemOk(i) && !i.Space? && !i.Comment? && ShowItem(i) == w;
    SpecialItem(s, p, i, at);
  }

  /** From p on the text is t. */
  predicate EndsIn(s: string, p: nat, t: string) {
    At(s, p, t) && p + |t| == |s|
  }

  /** Blanks, an atom, quoted string or literal, and blanks. */
  lemma SpecialWordIn(s: string, p: nat, before: seq<Item>, w: string, after: seq<Item>, at: Option<nat>)
    requires Blank(before) && PartOk(w) && Blank(after) && NUL !in s
    requires At(s, p, Show(before) + w) && At(s, p + |Show(before)| + |w|, Show(after))
    requires at.Some? ==> at.value < p && s[at.value] == '@'
    ensures var q := p + |Show(before)| + |w| + |Show(after)|;
            q <= |s| && FirstSpecial(s, p, at) == FirstSpecial(s, q, at)
  {
    hide At, Show, Blank, IsAtomChar, FirstSpecial, ItemsOk;
    BlankItems(before);
    BlankItems(after);
    AtSplit(s, p, Show(before), w);
    SpecialItems(s, p, before, at);
    SpecialPart(s, p + |Show(before)|, w, at);
    SpecialItems(s, p + |Show(before)| + |w|, after, at);
  }

  /** The '@' is found and kept. */
  lemma SpecialLocal(s: string, p: nat, b1: seq<Item>, local: string, b2: seq<Item>)
    requires Blank(b1) && PartOk(local) && Blank(b2) && NUL !in s && At(s, p, Show(b1) + local)
    requires var q := p + |Show(b1)| + |local|; At(s, q, Show(b2) + ['@'])
    ensures var a := p + |Show(b1)| + |local| + |Show(b2)|;
            a < |s| && s[a] == '@' && FirstSpecial(s, p, None) == FirstSpecial(s, a + 1, Some(a))
  {
    hide At, Show, Blank, PartOk, FirstSpecial;
    var q := p + |Show(b1)| + |local|;
    AtSplit(s, q, Show(b2), ['@']);
    SpecialWordIn(s, p, b1, local, b2, None);
    AtChar(s, q + |Show(b2)|, '@');
    SpecialMark(s, q + |Show(b2)|, None);
  }

  /** Nothing in an address makes it be taken for anything but a bare one. */
  lemma BareSpecial(s: string, p: nat, b1: seq<Item>, local: string, b2: seq<Item>, b3: seq<Item>, domain: string, b4: seq<Item>, tail: string)
    requires PartsOk(b1, local, b2, b3, domain, b4) && EndsIn(s, p, Address(b1, local, b2, b3, domain, b4) + tail) && NUL !in s
    requires tail != "" ==> tail[0] == ',' || tail[0] == ';'
    ensures var f := FirstSpecial(s, p, None);
            f.Found? && (f.p == |s| || s[f.p] == '@')
  {
    hide At, Show, Blank, PartOk, IsAtomChar, FirstSpecial, Address;
    TailEnds(tail);
    var q, r := Layout(s, p, b1, local, b2, b3, domain, b4, tail);
    SpecialLocal(s, p, b1, local, b2);
    var a := q + |Show(b2)|;
    SpecialWordIn(s, a + 1, b3, domain, b4, Some(a));
    var z := r + |Show(b4)|;
    if tail == "" {
      AtTheEnd(s, z, Some(a));
    } else {
      AtFirst(s, z, tail);
      SpecialMark(s, z, Some(a));
    }
  }

  lemma SkipNothing(s: string, p: nat)
    requires p < |s| && s[p] in "<>@,;:"
    ensures Skip(s, p, false) == Skipped(p, false)
  {
  }

  lemma BareFrom(s: string, p: nat, b1: seq<Item>, local: string, b2: seq<Item>, b3: seq<Item>, domain: string, b4: seq<Item>,
                 tail: string)
    requires PartsOk(b1, local, b2, b3, domain, b4) && EndsIn(s, p, Address(b1, local, b2, b3, domain, b4) + tail) && NUL !in s
    requires tail != "" ==> tail[0] == ',' || tail[0] == ';'
    ensures var o := SplitFrom(s, p);
            User(o) == Some(local) && (Domain(o) == Some(domain) <==> !(Spaced(b3) && Atomic(domain)))
  {
    hide Address, Spaced, Bare, FirstSpecial, Blank, PartOk, User, Domain;
    BareSpecial(s, p, b1, local, b2, b3, domain, b4, tail);
    BareIs(s, p, b1, local, b2, b3, domain, b4, tail);
    PartNoNul(local);
    PartNoNul(domain);
    var gap := Gap(b3, domain);
    ResultsAre("", local, gap + domain);
    assert "" + local == local && "" + domain == domain && |" " + domain| == |domain| + 1;
  }

  /** A bare address gives its local part always, and its domain exactly unless it is an atom with white space outside
      comments between the '@' and it. */
  lemma BareAddress(b1: seq<Item>, local: string, b2: seq<Item>, b3: seq<Item>, domain: string, b4: seq<Item>, tail: string)
    requires PartsOk(b1, local, b2, b3, domain, b4) && NUL !in Address(b1, local, b2, b3, domain, b4) + tail
    requires tail != "" ==> tail[0] == ',' || tail[0] == ';'
    ensures var o := SplitFrom(Address(b1, local, b2, b3, domain, b4) + tail, 0);
            User(o) == Some(local) && (Domain(o) == Some(domain) <==> !(Spaced(b3) && Atomic(domain)))
  {
    hide Address, Spaced, User, Domain, PartsOk, Atomic;
    AtAll(Address(b1, local, b2, b3, domain, b4) + tail);
    BareFrom(Address(b1, local, b2, b3, domain, b4) + tail, 0, b1, local, b2, b3, domain, b4, tail);
  }

  /** A colon, semicolon or comma, with nothing but a phrase before it, is passed over: the name of a group, and an
      address that is missing. */
  lemma MarkSkipped(s: string, p: nat, phrase: seq<Item>, mark: char)
    requires ItemsOk(phrase) && At(s, p, Show(phrase) + [mark]) && NUL !in s
    requires mark == ':' || mark == ';' || mark == ','
    ensures p + |Show(phrase)| < |s| && SplitFrom(s, p) == SplitFrom(s, p + |Show(phrase)| + 1)
  {
    hide At, Show, ItemsOk, FirstSpecial, Bare, Angle;
    AtSplit(s, p, Show(phrase), [mark]);
    AtChar(s, p + |Show(phrase)|, mark);
    SpecialItems(s, p, phrase, None);
    SpecialMark(s, p + |Show(phrase)|, None);
  }

  /** So the first address of a group is read like any other. */
  lemma GroupAddress(phrase: seq<Item>, b1: seq<Item>, local: string, b2: seq<Item>, b3: seq<Item>, domain: string,
                     b4: seq<Item>, tail: string)
    requires ItemsOk(phrase) && PartsOk(b1, local, b2, b3, domain, b4)
    requires NUL !in Show(phrase) + ":" + (Address(b1, local, b2, b3, domain, b4) + tail)
    requires tail != "" ==> tail[0] == ',' || tail[0] == ';'
    ensures var o := SplitFrom(Show(phrase) + ":" + (Address(b1, local, b2, b3, domain, b4) + tail), 0);
            User(o) == Some(local) && (Domain(o) == Some(domain) <==> !(Spaced(b3) && Atomic(domain)))
  {
    hide At, Show, Address, Spaced, User, Domain, PartsOk, Atomic, ItemsOk, SplitFrom;
    var inside := Address(b1, local, b2, b3, domain, b4) + tail;
    var s := Show(phrase) + ":" + inside;
    AtAll(s);
    AtSplit(s, 0, Show(phrase) + ":", inside);
    MarkSkipped(s, 0, phrase, ':');
    BareFrom(s, |Show(phrase)| + 1, b1, local, b2, b3, domain, b4, tail);
  }

  // ---------- Addresses in angle brackets ----------

  /** Up to the '@'. */
  lemma AngleLocal(s: string, p: nat, ws: bool, b1: seq<Item>, local: string, b2: seq<Item>, r: Result)
    requires r.user.None? && Blank(b1) && PartOk(local) && Blank(b2) && At(s, p, Show(b1) + local)
    requires var q := p + |Show(b1)| + |local|; q < |s| && !IsAtomChar(s[q]) && At(s, q, Show(b2) + ['@'])
    ensures var q := p + |Show(b1)| + |local| + |Show(b2)| + 1;
            q <= |s| && Angle(s, p, ws, r) == Angle(s, q, ws || Spaced(b1) || Spaced(b2), AtRead(r, local))
  {
    hide At, Show, Blank, PartOk, IsAtomChar, Angle, NextToken, Spaced;
    var q := p + |Show(b1)| + |local|;
    TokenPart(s, p, b1, local, ws);
    AngleStep(s, p, ws, r);
    AtSplit(s, p, Show(b1), local);
    AtText(s, p + |Show(b1)|, local);
    TokenSpecial(s, q, b2, '@', ws || Spaced(b1));
    AngleStep(s, q, ws || Spaced(b1), r.(out := r.out + local, user := Some(|r.out|)));
  }

  /** The local part and the '@' have been read. */
  function AtRead(r: Result, local: string): (r': Result) {
    Result(r.out + local + [NUL], Some(|r.out|), Some(|r.out| + |local| + 1))
  }

  /** From there to the '>'. */
  lemma AngleDomain(s: string, p: nat, b3: seq<Item>, domain: string, b4: seq<Item>, ws: bool, r: Result)
    requires Blank(b3) && PartOk(domain) && Blank(b4) && r.user.Some? && At(s, p, Show(b3) + domain)
    requires var q := p + |Show(b3)| + |domain|; q < |s| && !IsAtomChar(s[q]) && At(s, q, Show(b4) + ['>'])
    ensures p <= |s| && Angle(s, p, ws, r) == Done(r.(out := r.out + domain))
  {
    hide At, Show, Blank, PartOk, IsAtomChar, Angle, NextToken, Spaced;
    var q := p + |Show(b3)| + |domain|;
    TokenPart(s, p, b3, domain, ws);
    AngleStep(s, p, ws, r);
    AtSplit(s, p, Show(b3), domain);
    AtText(s, p + |Show(b3)|, domain);
    TokenSpecial(s, q, b4, '>', ws || Spaced(b3));
    AngleStep(s, q, ws || Spaced(b3), r.(out := r.out + domain));
  }

  lemma AngleIs(s: string, p: nat, ws: bool, b1: seq<Item>, local: string, b2: seq<Item>, b3: seq<Item>, domain: string, b4: seq<Item>,
                tail: string, r: Result)
    requires PartsOk(b1, local, b2, b3, domain, b4) && tail != "" && tail[0] == '>' && r.user.None?
    requires EndsIn(s, p, Address(b1, local, b2, b3, domain, b4) + tail)
    ensures Angle(s, p, ws, r)
         == Done(Result(r.out + local + [NUL] + domain, Some(|r.out|), Some(|r.out| + |local| + 1)))
  {
    hide At, Show, Blank, PartOk, IsAtomChar, Angle, Spaced, Address;
    BracketNotAtom();
    var q, z := Layout(s, p, b1, local, b2, b3, domain, b4, tail);
    AngleLocal(s, p, ws, b1, local, b2, r);
    assert tail == ['>'] + tail[1..];
    AtSplit(s, z + |Show(b4)|, ['>'], tail[1..]);
    AtJoin(s, z, Show(b4), ['>']);
    AngleDomain(s, q + |Show(b2)| + 1, b3, domain, b4, ws || Spaced(b1) || Spaced(b2), AtRead(r, local));
  }

  lemma BracketNotAtom()
    ensures !IsAtomChar('>')
  {
  }

  /** A hop of a source route, and the comma or colon after it. */
  datatype Hop = Hop(b1: seq<Item>, b2: seq<Item>, domain: string, b3: seq<Item>, mark: char)

  ghost predicate HopOk(h: Hop) {
    Blank(h.b1) && Blank(h.b2) && PartOk(h.domain) && Blank(h.b3) && (h.mark == ',' || h.mark == ':')
  }

  function ShowHop(h: Hop): (t: string) {
    Show(h.b1) + ['@'] + (Show(h.b2) + h.domain) + (Show(h.b3) + [h.mark])
  }

  function ShowRoute(route: seq<Hop>): (t: string) {
    if route == [] then "" else ShowHop(route[0]) + ShowRoute(route[1..])
  }

  lemma MarkNotAtom(blank: seq<Item>, mark: char)
    requires Blank(blank) && (mark == ',' || mark == ':')
    ensures !IsAtomChar((Show(blank) + [mark])[0])
  {
    BlankThen(blank, [mark]);
  }

  lemma HopLayout(s: string, p: nat, h: Hop) returns (q: nat, z: nat)
    requires HopOk(h) && At(s, p, ShowHop(h))
    ensures q == p + |Show(h.b1)| + 1 && At(s, p, Show(h.b1) + ['@']) && At(s, q, Show(h.b2) + h.domain)
    ensures z == q + |Show(h.b2)| + |h.domain| && z < |s| && !IsAtomChar(s[z]) && At(s, z, Show(h.b3) + [h.mark])
    ensures p + |ShowHop(h)| == z + |Show(h.b3)| + 1 <= |s|
  {
    hide At, Show, PartOk, IsAtomChar;
    var t1, t2, t3 := Show(h.b1) + ['@'], Show(h.b2) + h.domain, Show(h.b3) + [h.mark];
    AtSplit(s, p, t1 + t2, t3);
    AtSplit(s, p, t1, t2);
    q, z := p + |t1|, p + |t1 + t2|;
    AtFirst(s, z, t3);
    AtWithin(s, z, t3);
    MarkNotAtom(h.b3, h.mark);
  }

  /** The domain of a hop, which is taken for a local part, */
  lemma AngleWord(s: string, q: nat, ws: bool, b2: seq<Item>, domain: string, r: Result)
    requires Blank(b2) && PartOk(domain) && At(s, q, Show(b2) + domain) && r.user.None?
    requires var z := q + |Show(b2)| + |domain|; z < |s| && !IsAtomChar(s[z])
    ensures var z := q + |Show(b2)| + |domain|;
            Angle(s, q, ws, r) == Angle(s, z, ws || Spaced(b2), r.(out := r.out + domain, user := Some(|r.out|)))
  {
    hide At, Show, Blank, PartOk, IsAtomChar, Angle, NextToken, Spaced;
    TokenPart(s, q, b2, domain, ws);
    AngleStep(s, q, ws, r);
    AtSplit(s, q, Show(b2), domain);
    AtText(s, q + |Show(b2)|, domain);
  }

  /** and all of it is forgotten. */
  lemma AngleHop(s: string, p: nat, ws: bool, h: Hop, r: Result) returns (ws': bool, r': Result)
    requires HopOk(h) && At(s, p, ShowHop(h)) && r.user.None?
    ensures p + |ShowHop(h)| <= |s| && r'.user.None?
    ensures Angle(s, p, ws, r) == Angle(s, p + |ShowHop(h)|, ws', r')
  {
    hide At, Show, Blank, PartOk, IsAtomChar, Angle, NextToken, Spaced, ShowHop;
    var q, z := HopLayout(s, p, h);
    TokenSpecial(s, p, h.b1, '@', ws);
    AngleStep(s, p, ws, r);
    var ws1, r1 := ws || Spaced(h.b1), r.(out := r.out + [NUL], domain := Some(|r.out| + 1));
    AngleWord(s, q, ws1, h.b2, h.domain, r1);
    var ws2, r2 := ws1 || Spaced(h.b2), r1.(out := r1.out + h.domain, user := Some(|r1.out|));
    TokenSpecial(s, z, h.b3, h.mark, ws2);
    AngleStep(s, z, ws2, r2);
    ws', r' := ws2 || Spaced(h.b3), r2.(user := None, domain := None);
  }

  lemma {:induction false} AngleRoute(s: string, p: nat, ws: bool, route: seq<Hop>, r: Result) returns (ws': bool, r': Result)
    requires (forall h :: h in route ==> HopOk(h)) && At(s, p, ShowRoute(route)) && r.user.None?
    ensures p + |ShowRoute(route)| <= |s| && r'.user.None?
    ensures Angle(s, p, ws, r) == Angle(s, p + |ShowRoute(route)|, ws', r')
    decreases |route|
  {
    hide At, HopOk, ShowHop, Angle;
    ws', r' := ws, r;
    AtWithin(s, p, ShowRoute(route));
    if route != [] {
      var h, rest := route[0], route[1..];
      assert h in route && forall g :: g in rest ==> g in route;
      AtSplit(s, p, ShowHop(h), ShowRoute(rest));
      ws', r' := AngleHop(s, p, ws, h, r);
      ws', r' := AngleRoute(s, p + |ShowHop(h)|, ws', rest, r');
    }
  }

  /** After a phrase of words, quoted strings and comments, an address in angle brackets gives exactly its local part
      and its domain, whatever route and blanks are in it and whatever follows it. */
  lemma AngleAddress(phrase: seq<Item>, route: seq<Hop>, b1: seq<Item>, local: string, b2: seq<Item>, b3: seq<Item>, domain: string,
                     b4: seq<Item>, after: string)
    requires ItemsOk(phrase) && PartsOk(b1, local, b2, b3, domain, b4) && forall h :: h in route ==> HopOk(h)
    requires NUL !in Show(phrase) + "<" + (ShowRoute(route) + (Address(b1, local, b2, b3, domain, b4) + (">" + after)))
    ensures var o := SplitFrom(Show(phrase) + "<" + (ShowRoute(route) + (Address(b1, local, b2, b3, domain, b4) + (">" + after))), 0);
            User(o) == Some(local) && Domain(o) == Some(domain)
  {
    hide At, Address, Show, Angle, FirstSpecial, Blank, PartOk, User, Domain, Skip, ItemsOk, HopOk, ShowRoute;
    var address := Address(b1, local, b2, b3, domain, b4) + (">" + after);
    var inside := ShowRoute(route) + address;
    var s := Show(phrase) + "<" + inside;
    AtAll(s);
    AtSplit(s, 0, Show(phrase) + "<", inside);
    AtSplit(s, 0, Show(phrase), "<");
    var p := |Show(phrase)|;
    AtChar(s, p, '<');
    SpecialItems(s, 0, phrase, None);
    SpecialMark(s, p, None);
    assert ">" + after != "" && (">" + after)[0] == '>';
    AtSplit(s, p + 1, ShowRoute(route), address);
    var ws, r := AngleRoute(s, p + 1, false, route, NOTHING);
    AngleIs(s, p + 1 + |ShowRoute(route)|, ws, b1, local, b2, b3, domain, b4, ">" + after, r);
    PartNoNul(local);
    PartNoNul(domain);
    ResultsAre(r.out, local, domain);
  }

  // ---------- What is not closed ----------

  /** A comment, a quoted string or a domain literal that the text ends in. */
  function LeftOpen(i: Item): (t: string)
    requires !i.Space? && !i.Word?
  {
    match i
    case Comment(k) => ['('] + ShowComment(k)
    case Quote(q) => ['"'] + ShowQuoted(q)
    case Literal(q) => ['['] + ShowQuoted(q)
  }

  lemma MatchingEnd(s: string)
    ensures forall open, close :: Matching(s, |s|, open, close, 1) == |s|
  {
  }

  lemma OpenHere(s: string, p: nat, i: Item)
    requires !i.Space? && !i.Word? && ItemOk(i) && At(s, p, LeftOpen(i)) && p + |LeftOpen(i)| == |s|
    ensures p < |s| && s[p] == (if i.Comment? then '(' else if i.Quote? then '"' else '[')
    ensures i.Comment? ==> Matching(s, p + 1, '(', ')', 1) == |s|
    ensures i.Quote? ==> Matching(s, p + 1, NUL, '"', 1) == |s|
    ensures i.Literal? ==> Matching(s, p + 1, NUL, ']', 1) == |s|
  {
    hide At, ShowComment, ShowQuoted, Matching, CommentOk, QuotedOk;
    var inside := if i.Comment? then ShowComment(i.k) else ShowQuoted(i.q);
    AtSplit(s, p, [LeftOpen(i)[0]], inside);
    AtChar(s, p, LeftOpen(i)[0]);
    MatchingEnd(s);
    match i
    case Comment(k) => MatchComment(s, p + 1, k, 1);
    case Quote(q) => MatchQuoted(s, p + 1, q, '"');
    case Literal(q) => MatchQuoted(s, p + 1, q, ']');
  }

  lemma OpenSpecial(s: string, p: nat, i: Item)
    requires !i.Space? && !i.Word? && ItemOk(i) && At(s, p, LeftOpen(i)) && p + |LeftOpen(i)| == |s|
    ensures FirstSpecial(s, p, None) == Bad(if i.Comment? then Paren else if i.Quote? then Err.Quote else Square)
  {
    hide At, Matching, ShowComment, ShowQuoted, ItemOk;
    OpenHere(s, p, i);
  }

  /** A comment, a quoted string or a domain literal that is not closed is an error, and which it is. */
  lemma OpenFails(phrase: seq<Item>, i: Item)
    requires ItemsOk(phrase) && !i.Space? && !i.Word? && ItemOk(i) && NUL !in Show(phrase) + LeftOpen(i)
    ensures SplitFrom(Show(phrase) + LeftOpen(i), 0)
         == Failed(if i.Comment? then Paren else if i.Quote? then Err.Quote else Square, NOTHING)
  {
    hide At, FirstSpecial, LeftOpen, Show, ItemOk, ItemsOk;
    var s := Show(phrase) + LeftOpen(i);
    AtAll(s);
    AtSplit(s, 0, Show(phrase), LeftOpen(i));
    SpecialItems(s, 0, phrase, None);
    OpenSpecial(s, |Show(phrase)|, i);
  }
}
