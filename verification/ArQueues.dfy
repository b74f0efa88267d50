/** The resolver's queues (libar/ar.c): queries wait in the pending list, then for a reply in the active one, and are
    kept for reuse in the recycle list. Every method here is one region of code run under the library's lock. */
module ArQueues {

  // ---------- What the operations do to the three lists ----------

  datatype Queues<T> = Queues(pending: seq<T>, active: seq<T>, recycle: seq<T>) {
    function All(): (all: seq<T>) {
      pending + active + recycle
    }
  }

  ghost predicate Distinct<T>(s: seq<T>) {
    forall i, j :: 0 <= i < j < |s| ==> s[i] != s[j]
  }

  function Without<T(==)>(s: seq<T>, x: T): (r: seq<T>) {
    if s == [] then [] else if s[0] == x then s[1..] else [s[0]] + Without(s[1..], x)
  }

  datatype Op<T> =
    | Obtain            // take a recycled query to fill in
    | Submit(x: T)      // append a query that is in no list to the pending list
    | Send              // move the first pending query to the end of the active list
    | Requery(x: T)     // move an active query to the front of the pending list
    | Requeue           // move the whole active list in front of the pending one
    | Cancel(x: T)      // move a query to the recycle list
    | AllDead           // move the whole pending list behind the active one

  ghost predicate Allowed<T>(s: Queues<T>, op: Op<T>) {
    match op
    case Submit(x) => NotIn(x, s)
    case Requery(x) => x in s.active
    case _ => true
  }

  function Step<T(==)>(s: Queues<T>, op: Op<T>): (r: Queues<T>) {
    match op
    case Obtain => if s.recycle == [] then s else s.(recycle := s.recycle[1..])
    case Submit(x) => s.(pending := s.pending + [x])
    case Send => if s.pending == [] then s else s.(pending := s.pending[1..], active := s.active + [s.pending[0]])
    case Requery(x) => s.(pending := [x] + s.pending, active := Without(s.active, x))
    case Requeue => s.(pending := s.active + s.pending, active := [])
    case Cancel(x) =>
      if x in s.pending then s.(pending := Without(s.pending, x), recycle := [x] + s.recycle)
      else if x in s.active then s.(active := Without(s.active, x), recycle := [x] + s.recycle)
      else s
    case AllDead => s.(pending := [], active := s.active + s.pending)
  }

  /** What an operation brings in and takes out. */
  ghost function Gained<T>(op: Op<T>): (m: multiset<T>) {
    if op.Submit? then multiset{op.x} else multiset{}
  }

  ghost function Lost<T>(s: Queues<T>, op: Op<T>): (m: multiset<T>) {
    if op.Obtain? && s.recycle != [] then multiset{s.recycle[0]} else multiset{}
  }

  lemma {:induction false} WithoutIs<T>(s: seq<T>, x: T, i: nat)
    requires i < |s| && s[i] == x && x !in s[..i]
    ensures Without(s, x) == s[..i] + s[i + 1..]
  {
    if i > 0 {
      assert s[0] in s[..i] && s[1..][..i - 1] == s[1..i];
      assert forall y :: y in s[1..i] ==> y in s[..i];
      WithoutIs(s[1..], x, i - 1);
      assert s[1..][i..] == s[i + 1..];
      assert [s[0]] + (s[1..i] + s[i + 1..]) == s[..i] + s[i + 1..];
    } else {
      assert s[..0] + s[1..] == s[1..];
    }
  }

  lemma {:induction false} WithoutCount<T>(s: seq<T>, x: T)
    requires x in s
    ensures multiset(Without(s, x)) == multiset(s) - multiset{x}
  {
    assert s == [s[0]] + s[1..];
    if s[0] != x {
      WithoutCount(s[1..], x);
    }
  }

  ghost function Count<T>(s: Queues<T>, x: T): (n: nat) {
    multiset(s.pending)[x] + multiset(s.active)[x] + multiset(s.recycle)[x]
  }

  lemma CountAll<T>(s: Queues<T>, x: T)
    ensures Count(s, x) == multiset(s.All())[x]
  {
  }

  lemma FirstApart<T>(s: seq<T>)
    requires s != []
    ensures multiset(s) == multiset{s[0]} + multiset(s[1..])
  {
    assert s == [s[0]] + s[1..];
  }

  lemma SendConserves<T>(s: Queues<T>, y: T)
    ensures Count(Step(s, Send), y) == Count(s, y)
  {
    if s.pending != [] {
      FirstApart(s.pending);
      var r := Step(s, Send);
      assert multiset(r.active) == multiset(s.active) + multiset{s.pending[0]};
    }
  }

  lemma CancelConserves<T>(s: Queues<T>, x: T, y: T)
    ensures Count(Step(s, Cancel(x)), y) == Count(s, y)
  {
    hide Without;
    if x in s.pending {
      WithoutCount(s.pending, x);
    } else if x in s.active {
      WithoutCount(s.active, x);
    }
  }

  lemma RequeryConserves<T>(s: Queues<T>, x: T, y: T)
    requires x in s.active
    ensures Count(Step(s, Requery(x)), y) == Count(s, y)
  {
    hide Without;
    WithoutCount(s.active, x);
  }

  lemma StepConserves<T>(s: Queues<T>, op: Op<T>, y: T)
    requires Allowed(s, op)
    ensures Count(Step(s, op), y) == Count(s, y) + Gained(op)[y] - Lost(s, op)[y]
  {
    hide Without;
    match op
    case Obtain =>
      if s.recycle != [] {
        FirstApart(s.recycle);
      }
    case Send => SendConserves(s, y);
    case Requery(x) => RequeryConserves(s, x, y);
    case Cancel(x) => CancelConserves(s, x, y);
    case _ =>
  }

  lemma {:induction false} DistinctCounts<T>(s: seq<T>)
    ensures Distinct(s) <==> forall x :: multiset(s)[x] <= 1
  {
    if s != [] {
      var t, y := s[..|s| - 1], s[|s| - 1];
      assert s == t + [y];
      DistinctCounts(t);
      if Distinct(s) {
        assert y !in t;
        assert multiset(t)[y] == 0;
      }
      if forall x :: multiset(s)[x] <= 1 {
        forall x
          ensures multiset(t)[x] <= 1
        {
          assert multiset(s)[x] <= 1;
        }
        assert multiset(s)[y] == multiset(t)[y] + 1;
        assert y !in multiset(t);
      }
    }
  }

  ghost function Run<T>(s: Queues<T>, ops: seq<Op<T>>): (r: Queues<T>) {
    if ops == [] then s else Step(Run(s, ops[..|ops| - 1]), ops[|ops| - 1])
  }

  ghost predicate RunAllowed<T>(s: Queues<T>, ops: seq<Op<T>>) {
    ops == [] || (RunAllowed(s, ops[..|ops| - 1]) && Allowed(Run(s, ops[..|ops| - 1]), ops[|ops| - 1]))
  }

  /** How often a run submits a query, and how often it takes it out for reuse. */
  ghost function Submitted<T>(ops: seq<Op<T>>, x: T): (n: nat) {
    if ops == [] then 0
    else Submitted(ops[..|ops| - 1], x) + Gained(ops[|ops| - 1])[x]
  }

  ghost function Obtained<T>(s: Queues<T>, ops: seq<Op<T>>, x: T): (n: nat) {
    if ops == [] then 0
    else Obtained(s, ops[..|ops| - 1], x) + Lost(Run(s, ops[..|ops| - 1]), ops[|ops| - 1])[x]
  }

  /** Over every run no query is lost or doubled: it is in exactly one list, once, from each submission until it is
      taken out again. */
  lemma {:induction false} RunConserves<T>(s: Queues<T>, ops: seq<Op<T>>, x: T)
    requires RunAllowed(s, ops) && Distinct(s.All())
    ensures Distinct(Run(s, ops).All())
    ensures multiset(Run(s, ops).All())[x] + Obtained(s, ops, x) == multiset(s.All())[x] + Submitted(ops, x)
  {
    if ops != [] {
      var init, op := ops[..|ops| - 1], ops[|ops| - 1];
      var t := Run(s, init);
      RunConserves(s, init, x);
      StepConserves(t, op, x);
      CountAll(t, x);
      CountAll(Step(t, op), x);
      DistinctCounts(t.All());
      forall y
        ensures multiset(Step(t, op).All())[y] <= 1
      {
        StepConserves(t, op, y);
        CountAll(t, y);
        CountAll(Step(t, op), y);
        if op == Submit(y) {
          assert y !in t.All();
        }
      }
      DistinctCounts(Step(t, op).All());
    }
  }

  // ---------- The linked lists ----------

  class Query {
    var next: Query?
    var noReply: bool     // QUERY_NOREPLY
    var error: bool       // QUERY_ERROR
    var resend: bool      // QUERY_RESEND

    constructor ()
      ensures next == null && !noReply && !error && !resend
    {
      next, noReply, error, resend := null, false, false, false;
    }
  }

  ghost function After(s: seq<Query>, i: nat): (q: Query?) {
    if i + 1 < |s| then s[i + 1] else null
  }

  /** head is the first of the queries linked through next, in this order and to the end. */
  ghost predicate Linked(s: seq<Query>, head: Query?)
    reads s`next
  {
    && head == (if s == [] then null else s[0])
    && (forall i :: 0 <= i < |s| ==> s[i].next == After(s, i))
  }

  ghost predicate NotIn<T>(x: T, q: Queues<T>) {
    x !in q.pending && x !in q.active && x !in q.recycle
  }

  ghost predicate Disjoint<T>(s: seq<T>, t: seq<T>) {
    forall i, j :: 0 <= i < |s| && 0 <= j < |t| ==> s[i] != t[j]
  }

  ghost predicate Apart<T>(q: Queues<T>) {
    && Distinct(q.pending) && Distinct(q.active) && Distinct(q.recycle)
    && Disjoint(q.pending, q.active) && Disjoint(q.pending, q.recycle) && Disjoint(q.active, q.recycle)
  }

  lemma ApartIsDistinct<T>(q: Queues<T>)
    ensures Apart(q) <==> Distinct(q.All())
  {
    var p, a, r, all := q.pending, q.active, q.recycle, q.All();
    assert forall i :: 0 <= i < |p| ==> all[i] == p[i];
    assert forall i :: 0 <= i < |a| ==> all[|p| + i] == a[i];
    assert forall i :: 0 <= i < |r| ==> all[|p| + |a| + i] == r[i];
  }

  /** Every operation keeps the lists apart. */
  lemma StepApart<T>(s: Queues<T>, op: Op<T>)
    requires Apart(s) && Allowed(s, op)
    ensures Apart(Step(s, op))
    ensures op.Obtain? && s.recycle != [] ==> NotIn(s.recycle[0], Step(s, op))
  {
    ApartIsDistinct(s);
    DistinctCounts(s.All());
    forall y
      ensures multiset(Step(s, op).All())[y] <= 1
    {
      StepConserves(s, op, y);
      CountAll(s, y);
      CountAll(Step(s, op), y);
    }
    DistinctCounts(Step(s, op).All());
    ApartIsDistinct(Step(s, op));
  }

  ghost function IndexOf<T>(s: seq<T>, x: T): (k: nat)
    requires x in s
    ensures k < |s| && s[k] == x && x !in s[..k]
  {
    if s[0] == x then 0
    else
      var k := IndexOf(s[1..], x);
      assert s[..k + 1] == [s[0]] + s[1..][..k];
      k + 1
  }

  lemma WithoutDrops<T>(s: seq<T>, x: T)
    requires Distinct(s) && x in s
    ensures x !in Without(s, x) && forall y :: y in Without(s, x) ==> y in s
    ensures |Without(s, x)| == |s| - 1
  {
    var k := IndexOf(s, x);
    WithoutIs(s, x, k);
  }

  ghost function Tail(s: seq<Query>): (q: Query?) {
    if s == [] then null else s[|s| - 1]
  }

  // ---------- Operations on one list ----------

  /** The query goes to the end of the list. */
  method Append(head: Query?, tail: Query?, q: Query, ghost s: seq<Query>) returns (head': Query, tail': Query)
    requires Linked(s, head) && tail == Tail(s) && Distinct(s) && q !in s
    modifies s, q
    ensures Linked(s + [q], head') && tail' == q
    ensures q.noReply == old(q.noReply) && q.error == old(q.error)
  {
    q.next := null;
    if tail == null {
      head', tail' := q, q;
    } else {
      tail.next := q;
      head', tail' := head, q;
      ghost var t := s + [q];
      forall i | 0 <= i < |t|
        ensures t[i].next == After(t, i)
      {
        assert i < |s| - 1 ==> s[i] != tail && s[i].next == After(s, i);
      }
    }
  }

  /** The first query comes off the list. */
  lemma Pop(s: seq<Query>, head: Query?, tail: Query?)
    requires Linked(s, head) && tail == Tail(s) && s != []
    ensures Linked(s[1..], s[0].next) && Tail(s[1..]) == (if s[0].next == null then null else tail)
  {
    var t := s[1..];
    assert s[0].next == After(s, 0);
    forall i | 0 <= i < |t|
      ensures t[i].next == After(t, i)
    {
      assert s[i + 1].next == After(s, i + 1);
    }
  }

  /** The query goes in front of the list. */
  method Push(head: Query?, q: Query, ghost s: seq<Query>)
    requires Linked(s, head) && q !in s
    modifies q`next
    ensures Linked([q] + s, q)
  {
    q.next := head;
    ghost var t := [q] + s;
    forall i | 0 <= i < |t|
      ensures t[i].next == After(t, i)
    {
      assert i > 0 ==> s[i - 1].next == After(s, i - 1);
    }
  }

  /** The second list is hung on the end of the first. */
  method Splice(head: Query, tail: Query, head2: Query?, ghost s: seq<Query>, ghost t: seq<Query>)
    requires s != [] && Linked(s, head) && tail == Tail(s) && Linked(t, head2)
    requires Distinct(s) && Disjoint(s, t)
    modifies tail`next
    ensures Linked(s + t, head)
  {
    tail.next := head2;
    ghost var u := s + t;
    forall i | 0 <= i < |u|
      ensures u[i].next == After(u, i)
    {
      if i < |s| - 1 {
        assert s[i] != tail && s[i].next == After(s, i);
      } else if i >= |s| {
        assert t[i - |s|] != tail && t[i - |s|].next == After(t, i - |s|);
      }
    }
  }

  /** The loop of ar_cancelquery, twice, and of ar_requery: find the query and take it out of the list. */
  method Unlink(head: Query?, tail: Query?, query: Query, ghost s: seq<Query>)
    returns (found: bool, head': Query?, tail': Query?)
    requires Linked(s, head) && tail == Tail(s) && Distinct(s)
    modifies s`next
    ensures found == (query in s)
    ensures found ==> Linked(Without(s, query), head') && tail' == Tail(Without(s, query))
    ensures !found ==> Linked(s, head) && head' == head && tail' == tail
  {
    hide Without;
    var q, last := head, null;
    ghost var i := 0;
    while q != null
      invariant 0 <= i <= |s| && q == (if i < |s| then s[i] else null)
      invariant last == (if i > 0 then s[i - 1] else null)
      invariant Linked(s, head) && query !in s[..i]
      decreases |s| - i
    {
      assert s[i].next == After(s, i);
      if query == q {
        WithoutIs(s, query, i);
        ghost var t := s[..i] + s[i + 1..];
        head', tail' := head, tail;
        if last == null {
          head' := q.next;
          if head' == null {
            tail' := null;
          }
        } else {
          last.next := q.next;
          if tail == q {
            tail' := last;
          }
        }
        forall j | 0 <= j < |t|
          ensures t[j].next == After(t, j)
        {
          var k := if j < i then j else j + 1;
          assert t[j] == s[k];
          assert k != i - 1 ==> s[k].next == old(s[k].next) == After(s, k);
        }
        return true, head', tail';
      }
      last, q, i := q, q.next, i + 1;
    }
    return false, head, tail;
  }

  class Lib {
    var pending: Query?
    var pendingtail: Query?
    var queries: Query?
    var queriestail: Query?
    var recycle: Query?
    var resending: int           // ar_resend
    ghost var lists: Queues<Query>

    ghost predicate Valid()
      reads this, lists.pending`next, lists.active`next, lists.recycle`next
    {
      && Apart(lists)
      && Linked(lists.pending, pending) && Linked(lists.active, queries) && Linked(lists.recycle, recycle)
      && pendingtail == Tail(lists.pending)
      && queriestail == Tail(lists.active)
    }

    lemma IsValid()
      requires Apart(lists) && Linked(lists.pending, pending) && Linked(lists.active, queries) && Linked(lists.recycle, recycle)
      requires pendingtail == Tail(lists.pending) && queriestail == Tail(lists.active)
      ensures Valid()
    {
    }

    constructor ()
      ensures Valid() && lists == Queues([], [], [])
    {
      pending, pendingtail, queries, queriestail, recycle := null, null, null, null, null;
      resending := 0;
      lists := Queues([], [], []);
    }

    /** ar_addquery, first region: take a query to reuse, or make one. */
    method Obtain() returns (q: Query)
      requires Valid()
      modifies this
      ensures Valid() && lists == Step(old(lists), Op.Obtain) && NotIn(q, lists)
      ensures if old(lists).recycle == [] then fresh(q) else q == old(lists).recycle[0]
    {
      StepApart(lists, Op.Obtain);
      if recycle != null {
        Pop(lists.recycle, recycle, Tail(lists.recycle));
        q := recycle;
        recycle := q.next;
        lists := Step(lists, Op.Obtain);
      } else {
        q := new Query();
      }
    }

    /** ar_addquery, second region: the query goes to the end of the pending list. */
    method Submit(q: Query)
      requires Valid() && NotIn(q, lists)
      modifies this, q, lists.pending
      ensures Valid() && lists == Step(old(lists), Op.Submit(q))
    {
      hide Apart, Linked, Step, Tail;
      ghost var l := lists;
      StepApart(l, Op.Submit(q));
      Facts(l);
      q.noReply, q.error, q.resend := false, false, false;
      pending, pendingtail := Append(pending, pendingtail, q, l.pending);
      lists := Step(l, Op.Submit(q));
      StepFields(l, Op.Submit(q));
      TailOfAppended(l.pending, q);
    }

    /** ar_dispatcher, "send a pending query"; sending it leaves the lists alone. */
    method Send() returns (q: Query?)
      requires Valid()
      modifies this, lists.pending, lists.active
      ensures Valid() && lists == Step(old(lists), Op.Send)
      ensures q == if old(lists).pending == [] then null else old(lists).pending[0]
    {
      hide Apart, Linked, Step, Tail;
      ghost var l := lists;
      StepApart(l, Op.Send);
      StepFields(l, Op.Send);
      Facts(l);
      HeadOf(l.pending, pending);
      q := pending;
      if q != null {
        ghost var rest := l.pending[1..];
        Pop(l.pending, pending, pendingtail);
        RestFacts(l.pending, l.active);
        pending := q.next;
        if pending == null {
          pendingtail := null;
        }
        queries, queriestail := Append(queries, queriestail, q, l.active);
        TailOfAppended(l.active, q);
        RestFacts(l.pending, l.recycle);
      }
      lists := Step(l, Op.Send);
    }

    method TakePending(query: Query) returns (found: bool)
      requires Valid()
      modifies `pending, `pendingtail, `lists, lists.pending`next
      ensures Valid() && found == (query in old(lists).pending)
      ensures !found ==> lists == old(lists)
      ensures found ==> lists == old(lists).(pending := Without(old(lists).pending, query)) && NotIn(query, lists)
    {
      hide Apart, Linked, Tail, Without, Disjoint, Distinct, NotIn;
      ghost var l := lists;
      Facts(l);
      InOne(l, query);
      found, pending, pendingtail := Unlink(pending, pendingtail, query, l.pending);
      if found {
        TakenApart(l, query);
        lists := l.(pending := Without(l.pending, query));
        IsValid();
      }
    }

    method TakeActive(query: Query) returns (found: bool)
      requires Valid()
      modifies `queries, `queriestail, `lists, lists.active`next
      ensures Valid() && found == (query in old(lists).active)
      ensures !found ==> lists == old(lists)
      ensures found ==> lists == old(lists).(active := Without(old(lists).active, query)) && NotIn(query, lists)
    {
      hide Apart, Linked, Tail, Without, Disjoint, Distinct, NotIn;
      ghost var l := lists;
      Facts(l);
      InOne(l, query);
      found, queries, queriestail := Unlink(queries, queriestail, query, l.active);
      if found {
        TakenApart(l, query);
        lists := l.(active := Without(l.active, query));
        IsValid();
      }
    }

    method PushPending(query: Query)
      requires Valid() && NotIn(query, lists)
      modifies `pending, `pendingtail, `lists, query`next
      ensures Valid() && lists == old(lists).(pending := [query] + old(lists).pending)
    {
      hide Apart, Linked, Tail;
      ghost var l := lists;
      PushedApart(l, query);
      HeadOf(l.pending, pending);
      TailOfPushed(query, l.pending);
      if pending == null {
        pendingtail := query;
      }
      Push(pending, query, l.pending);
      pending := query;
      lists := l.(pending := [query] + l.pending);
    }

    method PushRecycle(query: Query)
      requires Valid() && NotIn(query, lists)
      modifies `recycle, `lists, query`next
      ensures Valid() && lists == old(lists).(recycle := [query] + old(lists).recycle)
    {
      hide Apart, Linked, Tail;
      ghost var l := lists;
      PushedApart(l, query);
      Push(recycle, query, l.recycle);
      recycle := query;
      lists := l.(recycle := [query] + l.recycle);
    }

    /** ar_requery, for a query of the active list: to the front of the pending one. */
    method Requery(query: Query)
      requires Valid() && query in lists.active
      modifies this, lists.active`next
      ensures Valid() && lists == Step(old(lists), Op.Requery(query))
    {
      hide Without, Apart, Linked, NotIn;
      var found := TakeActive(query);
      if query.resend {
        resending := resending - 1;
      }
      PushPending(query);
    }

    /** ar_requeue: after a reconnect every active query is to be sent again, before the pending ones. */
    method Requeue()
      requires Valid()
      modifies this, lists.active
      ensures Valid() && lists == Step(old(lists), Op.Requeue)
    {
      hide Apart, Linked, Step, Disjoint, Distinct, Tail, After;
      ghost var l, joined := lists, lists.active + lists.pending;
      TailOfJoined(l.active, l.pending);
      TailElsewhere(l);
      StepApart(l, Op.Requeue);
      StepFields(l, Op.Requeue);
      Facts(l);
      HeadOf(l.pending, pending);
      HeadOf(l.active, queries);
      lists := Step(l, Op.Requeue);
      assert lists == Queues(joined, [], l.recycle);
      if queries != null {
        if pending != null {
          Splice(queries, queriestail, pending, l.active, l.pending);
        } else {
          pendingtail := queriestail;
          assert joined == l.active;
        }
        pending := queries;
        queries := null;
        queriestail := null;
      } else {
        assert joined == l.pending;
      }
      NoneLinked();
      IsValid();
    }

    /** ar_cancelquery: 0 when the query was in one of the lists, 1 when it was in neither. */
    method Cancel(query: Query) returns (status: int)
      requires Valid()
      modifies this, query`next, lists.pending`next, lists.active`next
      ensures Valid() && lists == Step(old(lists), Op.Cancel(query))
      ensures status == if query in old(lists).pending || query in old(lists).active then 0 else 1
    {
      hide Without, Apart, Linked, NotIn;
      var found := TakePending(query);
      if !found {
        found := TakeActive(query);
      }
      if !found {
        return 1;
      }
      if query.resend {
        resending := resending - 1;
      }
      PushRecycle(query);
      status := 0;
    }

    method AllActive()
      requires Valid()
      modifies this, lists.active`next
      ensures Valid() && lists == Step(old(lists), Op.AllDead)
    {
      hide Apart, Linked, Step, Disjoint, Distinct, Tail;
      ghost var l := lists;
      StepApart(l, Op.AllDead);
      StepFields(l, Op.AllDead);
      TailOfJoined(l.active, l.pending);
      HeadOf(l.pending, pending);
      if pending != null {
        HangPending();
        queriestail := pendingtail;
        pending := null;
        pendingtail := null;
      } else {
        assert l.active + l.pending == l.active;
      }
      lists := Step(l, Op.AllDead);
      NoneLinked();
      IsValid();
    }

    /** The pending list is hung on the end of the active one. */
    method HangPending()
      requires Valid() && pending != null
      modifies `queries, lists.active`next
      ensures Linked(lists.active + lists.pending, queries) && Linked(lists.recycle, recycle)
    {
      hide Apart, Linked, Disjoint, Distinct, Tail;
      ghost var l := lists;
      Facts(l);
      TailElsewhere(l);
      HeadOf(l.active, queries);
      TailOfJoined(l.active, l.pending);
      if queriestail != null {
        Splice(queries, queriestail, pending, l.active, l.pending);
      } else {
        queries := pending;
        assert l.active + l.pending == l.pending;
      }
    }

    /** ar_alldead: the resolver is gone; everything pending becomes active, and all of it is marked. */
    method AllDead()
      requires Valid()
      modifies this, lists.pending, lists.active
      ensures Valid() && lists == Step(old(lists), Op.AllDead)
      ensures forall q :: q in lists.active ==> q.noReply && q.error
    {
      hide Apart, Step, Tail, Linked, Disjoint, Distinct;
      ghost var l := lists;
      AllActive();
      StepFields(l, Op.AllDead);
      assert forall q :: q in lists.active ==> q in l.active || q in l.pending;
      MarkAll(queries, lists.active);
    }
  }

  method MarkAll(head: Query?, ghost s: seq<Query>)
    requires Linked(s, head)
    modifies s`noReply, s`error
    ensures forall q :: q in s ==> q.noReply && q.error
  {
    var q := head;
    ghost var i := 0;
    while q != null
      invariant 0 <= i <= |s| && q == (if i < |s| then s[i] else null)
      invariant Linked(s, head)
      invariant forall j :: 0 <= j < i ==> s[j].noReply && s[j].error
      decreases |s| - i
    {
      assert s[i].next == After(s, i);
      q.noReply, q.error := true, true;
      q, i := q.next, i + 1;
    }
  }

  lemma HeadOf(s: seq<Query>, head: Query?)
    requires Linked(s, head)
    ensures head == if s == [] then null else s[0]
    ensures s != [] ==> s[0].next == After(s, 0)
  {
  }

  lemma NoneLinked()
    ensures Linked([], null) && Tail([]) == null
  {
  }

  lemma TailElsewhere(q: Queues<Query>)
    requires Apart(q)
    ensures q.active != [] ==> Tail(q.active) !in q.recycle && Tail(q.active) !in q.pending
  {
  }

  lemma TailOfJoined(s: seq<Query>, t: seq<Query>)
    ensures Tail(s + t) == if t == [] then Tail(s) else Tail(t)
    ensures s != [] ==> Tail(s) == s[|s| - 1]
    ensures s == [] ==> Tail(s) == null
  {
    if t == [] {
      assert s + t == s;
    }
  }

  lemma TailOfPushed(q: Query, s: seq<Query>)
    ensures Tail([q] + s) == if s == [] then q else Tail(s)
  {
  }

  lemma RestFacts<T>(s: seq<T>, t: seq<T>)
    requires Distinct(s) && s != [] && Disjoint(s, t)
    ensures s[0] !in s[1..] && s[0] !in t && Distinct(s[1..]) && Disjoint(s[1..], t) && Disjoint(t, s[1..])
  {
  }

  lemma Facts<T>(q: Queues<T>)
    requires Apart(q)
    ensures Distinct(q.pending) && Distinct(q.active) && Distinct(q.recycle)
    ensures Disjoint(q.pending, q.active) && Disjoint(q.active, q.pending)
    ensures Disjoint(q.pending, q.recycle) && Disjoint(q.recycle, q.pending)
    ensures Disjoint(q.active, q.recycle) && Disjoint(q.recycle, q.active)
  {
  }

  lemma InOne<T>(q: Queues<T>, x: T)
    requires Apart(q)
    ensures x in q.pending ==> x !in q.active && x !in q.recycle
    ensures x in q.active ==> x !in q.pending && x !in q.recycle
  {
  }

  lemma TakenApart<T>(q: Queues<T>, x: T)
    requires Apart(q)
    ensures x in q.pending ==>
              var r := q.(pending := Without(q.pending, x)); Apart(r) && NotIn(x, r)
    ensures x in q.active ==>
              var r := q.(active := Without(q.active, x)); Apart(r) && NotIn(x, r)
    ensures x in q.pending ==> forall y :: y in Without(q.pending, x) ==> y in q.pending
    ensures x in q.active ==> forall y :: y in Without(q.active, x) ==> y in q.active
  {
    hide Apart, Without;
    StepApart(q, Op.Cancel(x));
    InOne(q, x);
    Facts(q);
    if x in q.pending {
      WithoutDrops(q.pending, x);
      Unpush(q.(pending := Without(q.pending, x)), x);
    }
    if x in q.active {
      WithoutDrops(q.active, x);
      Unpush(q.(active := Without(q.active, x)), x);
    }
  }

  lemma Unpush<T>(q: Queues<T>, x: T)
    requires Apart(q.(recycle := [x] + q.recycle))
    ensures Apart(q) && NotIn(x, q)
  {
    var r := [x] + q.recycle;
    assert r[0] == x && forall i :: 0 <= i < |q.recycle| ==> r[i + 1] == q.recycle[i];
  }

  lemma PushedApart<T>(q: Queues<T>, x: T)
    requires Apart(q) && NotIn(x, q)
    ensures Apart(q.(pending := [x] + q.pending)) && Apart(q.(recycle := [x] + q.recycle))
  {
  }

  lemma StepFields<T>(s: Queues<T>, op: Op<T>)
    ensures op.Submit? ==> Step(s, op) == s.(pending := s.pending + [op.x])
    ensures op.Send? ==>
              Step(s, op) == if s.pending == [] then s
                             else s.(pending := s.pending[1..], active := s.active + [s.pending[0]])
    ensures op.Requery? ==> Step(s, op) == s.(pending := [op.x] + s.pending, active := Without(s.active, op.x))
    ensures op.Requeue? ==> Step(s, op) == s.(pending := s.active + s.pending, active := [])
    ensures op.Cancel? ==>
              Step(s, op) == if op.x in s.pending then s.(pending := Without(s.pending, op.x), recycle := [op.x] + s.recycle)
                             else if op.x in s.active then s.(active := Without(s.active, op.x), recycle := [op.x] + s.recycle)
                             else s
    ensures op.AllDead? ==> Step(s, op) == s.(pending := [], active := s.active + s.pending)
  {
  }

  lemma TailOfAppended(s: seq<Query>, q: Query)
    ensures Tail(s + [q]) == q
  {
  }
}
