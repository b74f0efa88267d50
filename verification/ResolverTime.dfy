/** The resolver's clock and its limits (libar/ar.c): how long the dispatcher sleeps, and how often a query is sent
    and sent again for another name. */
module ResolverTime {
  import opened ArQueues

  const AR_MAXTIMEOUT := 10000000
  const SECOND := 1000000

  datatype TimeVal = TimeVal(sec: int, usec: int)

  predicate Normal(t: TimeVal) {
    0 <= t.usec < 1000000
  }

  /** The time in microseconds. */
  function Micros(t: TimeVal): (m: int) {
    t.sec * 1000000 + t.usec
  }

  predicate Before(t: TimeVal, u: TimeVal) {
    t.sec < u.sec || (t.sec == u.sec && t.usec < u.usec)
  }

  /** Of normalised times the field-wise comparison compares the times. */
  lemma BeforeIs(t: TimeVal, u: TimeVal)
    requires Normal(t) && Normal(u)
    ensures Before(t, u) <==> Micros(t) < Micros(u)
  {
  }

  /** ar_timeleft at the clock reading `now`; without a start the length is the end. */
  method TimeLeft(start: TimeVal, haveStart: bool, length: TimeVal, now: TimeVal) returns (remain: TimeVal)
    requires Normal(now) && Normal(length) && (haveStart ==> Normal(start))
    ensures Normal(remain)
    ensures var end := Micros(length) + if haveStart then Micros(start) else 0;
            Micros(remain) == if Micros(now) > end then 0 else end - Micros(now)
  {
    var end := length;
    if haveStart {
      end := TimeVal(start.sec + length.sec, start.usec + length.usec);
      end := TimeVal(end.sec + end.usec / SECOND, end.usec % SECOND);
    }
    BeforeIs(end, now);
    if now.sec > end.sec || (now.sec == end.sec && now.usec > end.usec) {
      remain := TimeVal(0, 0);
    } else {
      remain := TimeVal(end.sec - now.sec, 0);
      if end.usec < now.usec {
        remain := TimeVal(remain.sec - 1, end.usec - now.usec + 1000000);
      } else {
        remain := TimeVal(remain.sec, end.usec - now.usec);
      }
    }
  }

  /** ar_elapsed, whose carry looks for more than a million. */
  predicate Elapsed(start: TimeVal, length: TimeVal, now: TimeVal) {
    var sum := TimeVal(start.sec + length.sec, start.usec + length.usec);
    Before(if sum.usec > SECOND then TimeVal(sum.sec + 1, sum.usec - SECOND) else sum, now)
  }

  /** So an interval is over when its end is past, and also at its very end if the microseconds add up to a second. */
  lemma ElapsedIs(start: TimeVal, length: TimeVal, now: TimeVal)
    requires Normal(start) && Normal(length) && Normal(now)
    ensures Elapsed(start, length, now) <==>
              var end := Micros(start) + Micros(length);
              end < Micros(now) || (end == Micros(now) && start.usec + length.usec == 1000000)
  {
  }

  // ---------- Queries ----------

  /** How sending a query goes: whether it can be made, whether it can be written, and the time. */
  datatype Sending = Sending(made: bool, written: bool, now: TimeVal)

  class Query {
    var depth: int
    var tries: int
    var sent: TimeVal
    var timeout: TimeVal        // the time of expiry
    var infinite: bool          // QUERY_INFINIWAIT
    var reply: bool             // QUERY_REPLY
    var noReply: bool           // QUERY_NOREPLY
    var error: bool             // QUERY_ERROR
    var resend: bool            // QUERY_RESEND
    ghost var limit: int        // the depth it was submitted with
    ghost var sends: int        // how often it has been sent
    ghost var recursions: int   // how often it has been queued again for a CNAME

    ghost predicate Ok(retries: int)
      reads this
    {
      && sends == tries >= 0 && (retries > 0 ==> tries <= retries)
      && 0 <= recursions && recursions + Least(depth) <= Least(limit)
      && Normal(sent) && Normal(timeout)
    }

    /** Sending has not touched it. */
    twostate predicate Left()
      reads this
    {
      error == old(error) && reply == old(reply) && tries == old(tries) && sends == old(sends) && sent == old(sent)
    }

    /** It has been sent, unless it has been sent too often already or cannot be made; then it is in error. */
    twostate predicate SentAs(retries: int, s: Sending)
      reads this
    {
      var sends := !(retries > 0 && old(tries) == retries) && s.made;
      && error == (old(error) || !sends)
      && tries == old(tries) + (if sends then 1 else 0)
      && this.sends == old(this.sends) + (if sends then 1 else 0)
      && sent == (if sends then s.now else old(sent))
      && reply == (old(reply) || (sends && !s.written))
    }

    /** As ar_addquery fills it in. */
    constructor (depth: int, infinite: bool, timeout: TimeVal)
      requires Normal(timeout)
      ensures forall retries :: Ok(retries)
      ensures sends == recursions == 0 && limit == depth
    {
      this.depth, this.infinite, this.timeout := depth, infinite, timeout;
      tries, sent := 0, TimeVal(0, 0);
      reply, noReply, error, resend := false, false, false, false;
      limit, sends, recursions := depth, 0, 0;
    }
  }

  function Least(depth: int): (n: nat) {
    if depth > 0 then depth else 0
  }

  // ---------- How long to sleep ----------

  /** What a query makes the dispatcher wait for at most. */
  ghost function Wait(q: Query, retry: TimeVal, now: TimeVal): (m: int)
    reads q
  {
    var expiry := Left(Micros(q.timeout), Micros(now));
    var again := Left(Micros(q.sent) + Micros(retry), Micros(now));
    if q.timeout.sec != 0 && !q.infinite && expiry < again then expiry else again
  }

  function Left(end: int, now: int): (m: int) {
    if now > end then 0 else end - now
  }

  ghost function LeastWait(active: seq<Query>, retry: TimeVal, now: TimeVal): (m: int)
    reads active
  {
    if active == [] then AR_MAXTIMEOUT * SECOND
    else
      var before, last := LeastWait(active[..|active| - 1], retry, now), Wait(active[|active| - 1], retry, now);
      if last < before then last else before
  }

  /** It is the least of these times in microseconds, and none of them is less: ten million seconds, the time to the next
      sending of each query, and the time to its expiry, unless it has none. A time that is past is 0. */
  lemma {:induction false} LeastWaitIs(active: seq<Query>, retry: TimeVal, now: TimeVal)
    ensures var m := LeastWait(active, retry, now);
            && m <= 10000000 * 1000000
            && (forall q :: q in active ==>
                  && (m <= 0 || m <= Micros(q.sent) + Micros(retry) - Micros(now))
                  && (q.timeout.sec != 0 && !q.infinite ==> m <= 0 || m <= Micros(q.timeout) - Micros(now)))
            && (|| m == 10000000 * 1000000
                || exists q :: q in active &&
                               (|| IsLeft(m, Micros(q.sent) + Micros(retry) - Micros(now))
                                || (q.timeout.sec != 0 && !q.infinite && IsLeft(m, Micros(q.timeout) - Micros(now)))))
  {
    if active != [] {
      var n := |active| - 1;
      LeastWaitIs(active[..n], retry, now);
      assert active == active[..n] + [active[n]];
    }
  }

  predicate IsLeft(m: int, d: int) {
    m == if d < 0 then 0 else d
  }

  lemma LeastWaitSnoc(active: seq<Query>, i: nat, retry: TimeVal, now: TimeVal)
    requires i < |active|
    ensures LeastWait(active[..i + 1], retry, now)
         == var before, last := LeastWait(active[..i], retry, now), Wait(active[i], retry, now);
            if last < before then last else before
  {
    assert active[..i + 1][..i] == active[..i] && active[..i + 1][i] == active[i];
  }

  /** One query more, in the two steps of the loop. */
  lemma LeastWaitNext(active: seq<Query>, i: nat, retry: TimeVal, now: TimeVal)
    requires i < |active|
    ensures var q, m := active[i], LeastWait(active[..i], retry, now);
            var expiry, again := Left(Micros(q.timeout), Micros(now)), Left(Micros(q.sent) + Micros(retry), Micros(now));
            var n := if q.timeout.sec != 0 && !q.infinite && expiry < m then expiry else m;
            LeastWait(active[..i + 1], retry, now) == if again < n then again else n
  {
    hide LeastWait, Left, Micros;
    LeastWaitSnoc(active, i, retry, now);
  }

  method Earlier(timeout: TimeVal, left: TimeVal) returns (t: TimeVal)
    requires Normal(timeout) && Normal(left)
    ensures Normal(t) && Micros(t) == if Micros(left) < Micros(timeout) then Micros(left) else Micros(timeout)
  {
    BeforeIs(left, timeout);
    t := if left.sec < timeout.sec || (left.sec == timeout.sec && left.usec < timeout.usec) then left else timeout;
  }

  /** The timeout for select(), computed by the dispatcher. */
  method SelectTimeout(active: seq<Query>, retry: TimeVal, now: TimeVal) returns (timeout: TimeVal)
    requires Normal(retry) && Normal(now) && forall q :: q in active ==> Normal(q.sent) && Normal(q.timeout)
    ensures Normal(timeout) && Micros(timeout) == LeastWait(active, retry, now)
  {
    hide LeastWait, Normal, Wait;
    assert Micros(TimeVal(AR_MAXTIMEOUT, 0)) == LeastWait([], retry, now) && Normal(TimeVal(AR_MAXTIMEOUT, 0)) by {
      NoWait(retry, now);
    }
    hide Micros;
    timeout := TimeVal(AR_MAXTIMEOUT, 0);
    var i := 0;
    assert active[..0] == [];
    while i < |active|
      invariant i <= |active| && Normal(timeout) && Micros(timeout) == LeastWait(active[..i], retry, now)
    {
      var q := active[i];
      LeastWaitNext(active, i, retry, now);
      assert q in active;
      if q.timeout.sec != 0 && !q.infinite {
        var left := TimeLeft(retry, false, q.timeout, now);
        timeout := Earlier(timeout, left);
      }
      var left := TimeLeft(q.sent, true, retry, now);
      timeout := Earlier(timeout, left);
      i := i + 1;
    }
    assert active[..i] == active;
  }

  lemma NoWait(retry: TimeVal, now: TimeVal)
    ensures LeastWait([], retry, now) == Micros(TimeVal(AR_MAXTIMEOUT, 0)) && Normal(TimeVal(AR_MAXTIMEOUT, 0))
  {
  }

  // ---------- The dispatcher ----------

  class Dispatcher {
    const retries: int
    const retry: TimeVal
    const tcp: bool
    var queues: Queues<Query>
    var dead: bool              // AR_FLAG_DEAD

    ghost predicate Valid()
      reads this, Known()
    {
      Apart(queues) && Normal(retry) && forall q :: q in Known() ==> q.Ok(retries)
    }

    ghost function Known(): (known: set<Query>)
      reads this
    {
      set q | q in queues.All()
    }

    /** ar_sendquery. */
    method SendQuery(q: Query, s: Sending)
      requires q.Ok(retries) && Normal(s.now)
      modifies q`error, q`reply, q`tries, q`sends, q`sent
      ensures q.Ok(retries) && q.SentAs(retries, s)
    {
      if retries > 0 && q.tries == retries {
        q.error := true;
        return;
      }
      if !s.made {
        q.error := true;
        return;
      }
      if !s.written {
        q.reply := true;
      }
      q.tries := q.tries + 1;
      q.sends := q.sends + 1;
      q.sent := s.now;
    }

    /** A reply to an active query, which may be too large for it, and a CNAME: this is followed while the depth lasts. */
    method Reply(q: Query, tooLarge: bool, cname: bool)
      requires Valid() && q in queues.active
      modifies this`queues, q`depth, q`recursions, q`reply
      ensures Valid() && Known() == old(Known())
      ensures if old(q.depth) > 0 && !tooLarge && cname
              then && q.depth == old(q.depth) - 1 && q.recursions == old(q.recursions) + 1 && q.reply == old(q.reply)
                   && queues == Step(old(queues), Requery(q))
              else && q.depth == (if tooLarge then 0 else old(q.depth)) && q.recursions == old(q.recursions) && q.reply
                   && queues == old(queues)
    {
      assert q in Known();
      if tooLarge {
        q.depth := 0;
      }
      if q.depth > 0 && cname {
        q.depth := q.depth - 1;
        q.recursions := q.recursions + 1;
        Move(Requery(q));
      } else {
        q.reply := true;
      }
    }

    /** One of the list operations that neither brings in a query nor loses one. */
    method Move(op: Op<Query>)
      requires Apart(queues) && Allowed(queues, op) && !op.Obtain? && !op.Submit?
      modifies this`queues
      ensures Apart(queues) && queues == Step(old(queues), op)
      ensures Known() == old(Known())
    {
      StepApart(queues, op);
      SameQueries(queues, op);
      queues := Step(queues, op);
    }

    /** ar_addquery: nothing is taken any more when the resolver is dead. The query is as good as new, be it a recycled
        one or not. */
    method Add(depth: int, infinite: bool, timeout: TimeVal) returns (q: Query?)
      requires Valid() && Normal(timeout)
      modifies this`queues
      ensures Valid() && (q == null <==> dead)
      ensures q == null ==> queues == old(queues) && Known() == old(Known())
      ensures q != null ==> && fresh(q) && q.limit == depth && q.sends == q.recursions == 0 && q.Ok(retries)
                            && queues == Step(Step(old(queues), Obtain), Submit(q)) && Known() <= old(Known()) + {q}
    {
      if dead {
        return null;
      }
      StepApart(queues, Obtain);
      FewerQueries(queues);
      q := new Query(depth, infinite, timeout);
      assert NotIn(q, Step(queues, Obtain));
      queues := Step(queues, Obtain);
      StepApart(queues, Submit(q));
      queues := Step(queues, Submit(q));
    }

    /** The first active query that is to be sent again, if any. */
    method ResendOne(s: Sending)
      requires Valid() && Normal(s.now)
      modifies Known()`error, Known()`reply, Known()`tries, Known()`sends, Known()`sent, Known()`resend
      ensures Valid()
      ensures forall i :: 0 <= i < |queues.active| && old(queues.active[i].resend) &&
                          (forall j :: 0 <= j < i ==> !old(queues.active[j].resend)) ==>
                (queues.active[i].SentAs(retries, s) && !queues.active[i].resend && OthersLeft(old(Known()), queues.active[i]))
      ensures (forall i :: 0 <= i < |queues.active| ==> !old(queues.active[i].resend)) ==> forall q :: q in Known() ==> q.Left()
    {
      hide Apart;
      var i := 0;
      while i < |queues.active| && !queues.active[i].resend
        invariant i <= |queues.active| && forall j :: 0 <= j < i ==> !queues.active[j].resend
      {
        i := i + 1;
      }
      if i < |queues.active| {
        var q := queues.active[i];
        assert q in Known() by { InAll(queues, i); }
        SendQuery(q, s);
        q.resend := false;
      }
    }

    /** Sending q has left the others alone. */
    twostate predicate OthersLeft(known: set<Query>, q: Query)
      reads known
    {
      forall o :: o in known && o != q ==> o.Left()
    }

    /** ar_expired, for every active query that has no reply. */
    method MarkExpired(now: TimeVal)
      requires Valid()
      modifies Known()`noReply
      ensures Valid()
      ensures forall q :: q in queues.active ==>
                q.noReply == (old(q.noReply) || (!q.reply && !q.infinite && q.timeout.sec != 0 && Before(q.timeout, now)))
    {
      var i := 0;
      while i < |queues.active|
        invariant i <= |queues.active| && Valid()
        invariant forall k :: 0 <= k < i ==>
                    var q := queues.active[k];
                    q.noReply == (old(q.noReply) || (!q.reply && !q.infinite && q.timeout.sec != 0 && Before(q.timeout, now)))
        invariant forall k :: i <= k < |queues.active| ==> queues.active[k].noReply == old(queues.active[k].noReply)
      {
        var q := queues.active[i];
        if !q.noReply && !q.reply && q.timeout.sec != 0 && !q.infinite && Before(q.timeout, now) {
          q.noReply := true;
        }
        i := i + 1;
      }
    }

    /** ar_reconnect, and ar_requeue after it; without a connection everything is given up (ar_alldead). */
    method Reconnect(connects: bool) returns (alive: bool)
      requires Valid()
      modifies this`queues, this`dead, Known()`error, Known()`noReply
      ensures Valid() && Known() == old(Known()) && dead == (old(dead) || !alive) && alive == connects
      ensures queues == Step(old(queues), if alive then Requeue else ArQueues.AllDead)
      ensures !alive ==> forall q :: q in queues.active ==> q.error && q.noReply
    {
      hide Apart, Step;
      alive := connects;
      if alive {
        Move(Requeue);
      } else {
        Move(ArQueues.AllDead);
        GiveUp();
        dead := true;
      }
    }

    method GiveUp()
      requires Valid()
      modifies Known()`error, Known()`noReply
      ensures Valid() && forall q :: q in queues.active ==> q.error && q.noReply
    {
      hide Apart;
      var i := 0;
      while i < |queues.active|
        invariant i <= |queues.active| && Valid()
        invariant forall k :: 0 <= k < i ==> queues.active[k].error && queues.active[k].noReply
      {
        assert queues.active[i] in queues.All() by { InAll(queues, i); }
        queues.active[i].error, queues.active[i].noReply := true, true;
        i := i + 1;
      }
    }

    /** The first active query whose interval is over is sent again; over TCP everything is, on a new connection, if there
        is one. */
    method RetryOne(now: TimeVal, s: Sending, connects: bool) returns (alive: bool)
      requires Valid() && Normal(s.now)
      modifies this`queues, this`dead, Known()`error, Known()`noReply, Known()`reply, Known()`tries, Known()`sends, Known()`sent
      ensures Valid() && Known() == old(Known()) && dead == (old(dead) || !alive)
      ensures !Overdue(old(queues).active, |old(queues).active|, now) ==>
                alive && queues == old(queues) && forall q :: q in Known() ==> q.Left()
      ensures Overdue(old(queues).active, |old(queues).active|, now) && tcp ==>
                && alive == connects && queues == Step(old(queues), if connects then Requeue else ArQueues.AllDead)
                && (!alive ==> forall q :: q in queues.active ==> q.error && q.noReply)
      ensures Overdue(old(queues).active, |old(queues).active|, now) && !tcp ==>
                && alive && queues == old(queues)
                && exists i :: 0 <= i < |queues.active| && queues.active[i].SentAs(retries, s) && OthersLeft(old(Known()), queues.active[i]) &&
                               old(Elapsed(queues.active[i].sent, retry, now)) && !Overdue(queues.active, i, now)
    {
      hide Apart, Step, Elapsed;
      alive := true;
      var i := 0;
      while i < |queues.active| && !Elapsed(queues.active[i].sent, retry, now)
        invariant i <= |queues.active| && !Overdue(queues.active, i, now)
      {
        i := i + 1;
      }
      if i < |queues.active| {
        var q := queues.active[i];
        assert q in Known() by { InAll(queues, i); }
        if tcp {
          alive := Reconnect(connects);
        } else {
          SendQuery(q, s);
        }
      }
    }

    /** The interval of one of the first n has been over at the start. */
    twostate predicate Overdue(active: seq<Query>, n: nat, now: TimeVal)
      requires n <= |active|
      reads active
    {
      exists j :: 0 <= j < n && old(Elapsed(active[j].sent, retry, now))
    }

    /** A reply is read, or a broken connection found. */
    method Read() returns (again: bool, alive: bool)
      requires Valid()
      modifies this`queues, this`dead, Known()`error, Known()`noReply, Known()`depth, Known()`recursions, Known()`reply
      ensures Valid() && Known() == old(Known()) && dead == (old(dead) || !alive) && (!again ==> alive)
    {
      hide Apart, Step;
      alive := true;
      var lost: bool, connects: bool, i: int := *, *, *;
      if tcp && lost {
        alive := Reconnect(connects);
        return true, alive;
      }
      if 0 <= i < |queues.active| {
        var tooLarge, cname: bool := *, *;
        assert queues.active[i] in Known() by { InAll(queues, i); }
        Reply(queues.active[i], tooLarge, cname);
      }
      again := false;
    }

    /** The first pending query is sent and becomes active, or else one that is to be sent again is sent. */
    method Write(s: Sending)
      requires Valid() && Normal(s.now)
      modifies this`queues, Known()`error, Known()`reply, Known()`tries, Known()`sends, Known()`sent, Known()`resend
      ensures Valid() && Known() == old(Known())
      ensures old(queues).pending != [] ==>
                var q := old(queues).pending[0];
                && q.SentAs(retries, s) && OthersLeft(old(Known()), q)
                && queues == old(queues).(pending := old(queues).pending[1..], active := old(queues).active + [q])
      ensures old(queues).pending == [] ==> queues == old(queues)
      ensures old(queues).pending == [] ==>
                forall i :: 0 <= i < |queues.active| && old(queues.active[i].resend) &&
                            (forall j :: 0 <= j < i ==> !old(queues.active[j].resend)) ==>
                  (queues.active[i].SentAs(retries, s) && !queues.active[i].resend && OthersLeft(old(Known()), queues.active[i]))
    {
      hide Apart, Step;
      if queues.pending != [] {
        var q := queues.pending[0];
        assert q in Known();
        StepFields(queues, Send);
        SendQuery(q, s);
        Move(Send);
      } else {
        ResendOne(s);
      }
    }

    /** ar_resend() has asked for a query to be sent again. */
    method Control()
      requires Valid()
      modifies Known()`resend
      ensures Valid()
    {
      hide Apart;
      var asked: int := *;
      if 0 <= asked < |queues.All()| {
        assert queues.All()[asked] in Known();
        queues.All()[asked].resend := true;
      }
    }

    method Timers() returns (alive: bool)
      requires Valid()
      modifies this`queues, this`dead, Known()`error, Known()`reply, Known()`noReply, Known()`tries, Known()`sends, Known()`sent
      ensures Valid() && Known() == old(Known()) && dead == (old(dead) || !alive)
    {
      hide Apart, Step, Before, Elapsed;
      var now := Clock();
      MarkExpired(now);
      now := Clock();
      var made, written, connects: bool := *, *, *;
      var later := Clock();
      alive := RetryOne(now, Sending(made, written, later), connects);
    }

    /** One turn of the loop in ar_dispatcher; the loop ends when the connection is lost for good. */
    method Turn() returns (alive: bool)
      requires Valid()
      modifies this`queues, this`dead, Known()`error, Known()`reply, Known()`noReply, Known()`tries, Known()`sends,
        Known()`sent, Known()`resend, Known()`depth, Known()`recursions
      ensures Valid() && Known() == old(Known()) && dead == (old(dead) || !alive)
    {
      hide Apart, Step, Query.Ok, Before, Elapsed;
      var readable, writable: bool := *, *;
      alive := true;
      if readable {
        var again;
        again, alive := Read();
        if again {
          return;
        }
      }
      if writable {
        var made, written: bool := *, *;
        var now := Clock();
        Write(Sending(made, written, now));
      }
      Control();
      alive := Timers();
    }

    /** ar_cancelquery, of a query not answered. */
    method Cancel(q: Query)
      requires Valid() && q in Known()
      modifies this`queues
      ensures Valid() && Known() == old(Known()) && queues == Step(old(queues), ArQueues.Cancel(q))
    {
      hide Apart, Step;
      Move(ArQueues.Cancel(q));
    }

    /** However long the dispatcher runs, whatever is added and cancelled meanwhile, and whether or not the connection
        is lost, no query is sent more than ar_retries times, nor followed through more CNAMEs than the depth it was
        submitted with. `all` are all queries there have been. */
    method RunEvents(events: seq<Event>) returns (ghost all: set<Query>)
      requires Valid() && retries > 0 && forall e :: e in events && e.Adding? ==> Normal(e.timeout)
      modifies this`queues, this`dead, Known()`error, Known()`reply, Known()`noReply, Known()`tries, Known()`sends,
        Known()`sent, Known()`resend, Known()`depth, Known()`recursions
      ensures Valid() && old(Known()) <= all && Known() <= all && fresh(all - old(Known()))
      ensures forall q :: q in all ==> q.sends <= retries && q.recursions <= Least(q.limit)
      ensures forall q :: q in old(Known()) ==> q.limit == old(q.limit)
    {
      hide Apart, Step, Normal;
      all := Known();
      for n := 0 to |events|
        invariant Valid() && old(Known()) <= all && Known() <= all && fresh(all - old(Known()))
        invariant forall q :: q in all ==> q.Ok(retries)
        invariant forall q :: q in old(Known()) ==> q.limit == old(q.limit)
      {
        match events[n]
        case Turning =>
          if !dead {
            var _ := Turn();
          }
        case Adding(depth, infinite, timeout) =>
          assert events[n] in events;
          var q := Add(depth, infinite, timeout);
          if q != null {
            all := all + {q};
          }
        case Cancelling(k) =>
          if k < |queues.All()| {
            assert queues.All()[k] in Known();
            Cancel(queues.All()[k]);
          }
      }
      OkMeans(all);
    }

    lemma OkMeans(all: set<Query>)
      requires retries > 0 && forall q :: q in all ==> q.Ok(retries)
      ensures forall q :: q in all ==> q.sends <= retries && q.recursions <= Least(q.limit)
    {
    }
  }

  /** What happens to the resolver. */
  datatype Event = Turning | Adding(depth: int, infinite: bool, timeout: TimeVal) | Cancelling(k: nat)

  lemma InAll<T>(s: Queues<T>, i: nat)
    requires i < |s.active|
    ensures s.active[i] in s.All()
  {
    assert s.All()[|s.pending| + i] == s.active[i];
  }

  lemma SameQueries<T>(s: Queues<T>, op: Op<T>)
    requires Allowed(s, op) && !op.Obtain? && !op.Submit?
    ensures forall x :: x in Step(s, op).All() <==> x in s.All()
  {
    forall x ensures x in Step(s, op).All() <==> x in s.All() {
      StepConserves(s, op, x);
      CountAll(s, x);
      CountAll(Step(s, op), x);
      assert multiset(s.All())[x] == multiset(Step(s, op).All())[x];
    }
  }

  lemma FewerQueries<T>(s: Queues<T>)
    ensures forall x :: x in Step(s, Obtain).All() ==> x in s.All()
  {
  }

  method Clock() returns (now: TimeVal)
    ensures Normal(now)
  {
    var sec: int, usec: int := *, *;
    now := TimeVal(sec, usec % SECOND);
  }
}
