/** Batched HTTP delivery with retry and poison bisection (cf_sink_httpdeliver.c). The server, the
    allocator and the stop flag are a script of events, one per turn of the retry loop; a stop is
    never withdrawn, and a script that runs out is a stop. */
module HttpDeliver {
  import opened Bytes
  import opened Modular

  const NEWLINE := 10
  const BACKOFF_INITIAL := 1.0
  const BACKOFF_MAX := 30.0

  datatype Event = Stop | NoMemory | Reply(status: int)

  datatype Mark = Unmarked | Delivered | Poisoned(status: int)

  /** A POST of the items lo .. lo + count - 1 and the status it got. */
  datatype Post = Post(lo: nat, count: nat, status: int)

  datatype Tally = Tally(delivered: nat, retries: nat, errors: nat)

  /** What a call does: marks for its items, POSTs, backoff sleeps, counters, and the events left. */
  datatype Out = Out(marks: seq<Mark>, posts: seq<Post>, waits: seq<real>, tally: Tally, rest: seq<Event>)

  predicate Accepts(status: int) {
    200 <= status < 300
  }

  /** Transport errors, 429 and 5xx. */
  predicate Retryable(status: int) {
    status <= 0 || status == 429 || status >= 500
  }

  predicate Rejects(status: int) {
    !Accepts(status) && !Retryable(status)
  }

  predicate Stopped(script: seq<Event>) {
    script == [] || script[0] == Stop
  }

  function NextBackoff(b: real): (r: real) {
    if b * 2.0 > BACKOFF_MAX then BACKOFF_MAX else b * 2.0
  }

  function Repeat(m: Mark, n: nat): (s: seq<Mark>)
    ensures |s| == n && forall i :: 0 <= i < n ==> s[i] == m
  {
    seq(n, _ => m)
  }

  function Plus(a: Tally, b: Tally): (t: Tally) {
    Tally(a.delivered + b.delivered, a.retries + b.retries, a.errors + b.errors)
  }

  /** One more turn in front of what the rest of the call does. */
  function Turn(posts: seq<Post>, waits: seq<real>, tally: Tally, r: Out): (o: Out) {
    Out(r.marks, posts + r.posts, waits + r.waits, Plus(tally, r.tally), r.rest)
  }

  /** The two halves of a bisected batch. */
  function Halves(p: Post, a: Out, b: Out): (o: Out) {
    Out(a.marks + b.marks, [p] + (a.posts + b.posts), a.waits + b.waits,
        Plus(Tally(0, 0, 1), Plus(a.tally, b.tally)), b.rest)
  }

  /** send_range on lo .. lo + count - 1. */
  function Send(script: seq<Event>, lo: nat, count: nat, backoff: real): (o: Out)
    decreases count, |script|
  {
    if count == 0 then Out([], [], [], Tally(0, 0, 0), script)
    else if Stopped(script) then Out(Repeat(Unmarked, count), [], [], Tally(0, 0, 0), script)
    else if script[0] == NoMemory then
      Turn([], [backoff], Tally(0, 1, 0), Send(script[1..], lo, count, NextBackoff(backoff)))
    else
      var status := script[0].status;
      var p := Post(lo, count, status);
      if Accepts(status) then Out(Repeat(Delivered, count), [p], [], Tally(count, 0, 0), script[1..])
      else if Retryable(status) then
        Turn([p], [backoff], Tally(0, 1, 1), Send(script[1..], lo, count, NextBackoff(backoff)))
      else if count == 1 then Out([Poisoned(status)], [p], [], Tally(0, 0, 1), script[1..])
      else
        var mid := count / 2;
        var a := Send(script[1..], lo, mid, backoff);
        Halves(p, a, Send(a.rest, lo + mid, count - mid, backoff))
  }

  // ---------------------------------------------------------------- any server

  predicate Covers(p: Post, i: nat) {
    p.lo <= i < p.lo + p.count
  }

  /** Number of accepted POSTs that carried item i. */
  function AcceptedWith(posts: seq<Post>, i: nat): (n: nat) {
    if posts == [] then 0
    else (if Accepts(posts[0].status) && Covers(posts[0], i) then 1 else 0) + AcceptedWith(posts[1..], i)
  }

  /** Number of POSTs with a final answer. */
  function Final(posts: seq<Post>): (n: nat) {
    if posts == [] then 0 else (if Retryable(posts[0].status) then 0 else 1) + Final(posts[1..])
  }

  lemma {:induction false} CountsConcat(a: seq<Post>, b: seq<Post>, i: nat)
    ensures AcceptedWith(a + b, i) == AcceptedWith(a, i) + AcceptedWith(b, i)
    ensures Final(a + b) == Final(a) + Final(b)
  {
    if a == [] {
      assert a + b == b;
    } else {
      assert (a + b)[1..] == a[1..] + b;
      CountsConcat(a[1..], b, i);
    }
  }

  lemma CountsOne(p: Post, i: nat)
    ensures AcceptedWith([p], i) == if Accepts(p.status) && Covers(p, i) then 1 else 0
    ensures AcceptedWith([], i) == 0
    ensures Final([p]) == if Retryable(p.status) then 0 else 1
    ensures Final([]) == 0
  {
  }

  lemma {:induction false} FinalConcat(a: seq<Post>, b: seq<Post>)
    ensures Final(a + b) == Final(a) + Final(b)
  {
    CountsConcat(a, b, 0);
  }

  lemma {:induction false} NotCovered(posts: seq<Post>, i: nat)
    requires forall p :: p in posts ==> !Covers(p, i)
    ensures AcceptedWith(posts, i) == 0
  {
    if posts != [] {
      assert posts[0] in posts;
      NotCovered(posts[1..], i);
    }
  }

  /** POSTs stay inside the range, marks line up with it, and something unmarked means a stop. */
  lemma {:induction false} SendShape(script: seq<Event>, lo: nat, count: nat, backoff: real)
    ensures var o := Send(script, lo, count, backoff);
            && |o.marks| == count
            && (forall p :: p in o.posts ==> lo <= p.lo && p.lo + p.count <= lo + count && p.count > 0)
            && (Unmarked in o.marks ==> Stopped(o.rest))
    decreases count, |script|, 1
  {
    if count > 0 && !Stopped(script) {
      if script[0] == NoMemory || Retryable(script[0].status) {
        SendShape(script[1..], lo, count, NextBackoff(backoff));
      } else if Rejects(script[0].status) && count > 1 {
        SendShapeBisect(script, lo, count, backoff);
      }
    }
  }

  lemma {:induction false} SendShapeBisect(script: seq<Event>, lo: nat, count: nat, backoff: real)
    requires count > 1 && !Stopped(script) && script[0].Reply? && Rejects(script[0].status)
    ensures var o := Send(script, lo, count, backoff);
            && |o.marks| == count
            && (forall p :: p in o.posts ==> lo <= p.lo && p.lo + p.count <= lo + count && p.count > 0)
            && (Unmarked in o.marks ==> Stopped(o.rest))
    decreases count, |script|, 0
  {
    hide Send;
    SendBisects(script, lo, count, backoff);
    var mid := count / 2;
    SendShape(script[1..], lo, mid, backoff);
    var a := Send(script[1..], lo, mid, backoff);
    SendShape(a.rest, lo + mid, count - mid, backoff);
    if Stopped(a.rest) {
      StoppedStays(a.rest, lo + mid, count - mid, backoff);
    }
  }

  lemma StoppedStays(script: seq<Event>, lo: nat, count: nat, backoff: real)
    requires Stopped(script)
    ensures Send(script, lo, count, backoff).rest == script
  {
  }

  ghost predicate OnceIffMarked(o: Out, lo: nat, i: nat) {
    lo <= i < lo + |o.marks| ==> AcceptedWith(o.posts, i) == if o.marks[i - lo] == Delivered then 1 else 0
  }

  ghost predicate PostsWithin(posts: seq<Post>, lo: nat, hi: nat) {
    forall p :: p in posts ==> lo <= p.lo && p.lo + p.count <= hi
  }

  lemma HalvesDeliverOnce(p: Post, a: Out, b: Out, lo: nat, i: nat)
    requires !Accepts(p.status) && OnceIffMarked(a, lo, i) && OnceIffMarked(b, lo + |a.marks|, i)
    requires PostsWithin(a.posts, lo, lo + |a.marks|) && PostsWithin(b.posts, lo + |a.marks|, lo + |a.marks| + |b.marks|)
    ensures OnceIffMarked(Halves(p, a, b), lo, i)
  {
    hide AcceptedWith;
    CountsOne(p, i);
    CountsConcat([p], a.posts + b.posts, i);
    CountsConcat(a.posts, b.posts, i);
    if i < lo + |a.marks| {
      NotCovered(b.posts, i);
    } else {
      NotCovered(a.posts, i);
    }
  }

  lemma TurnDeliversOnce(posts: seq<Post>, waits: seq<real>, tally: Tally, r: Out, lo: nat, i: nat)
    requires AcceptedWith(posts, i) == 0 && OnceIffMarked(r, lo, i)
    ensures OnceIffMarked(Turn(posts, waits, tally, r), lo, i)
  {
    hide AcceptedWith;
    CountsConcat(posts, r.posts, i);
  }

  lemma {:induction false} SendDeliversOnce(script: seq<Event>, lo: nat, count: nat, backoff: real, i: nat)
    ensures OnceIffMarked(Send(script, lo, count, backoff), lo, i)
    decreases count, |script|
  {
    if count > 0 && !Stopped(script) {
      if script[0] == NoMemory {
        SendDeliversOnce(script[1..], lo, count, NextBackoff(backoff), i);
        TurnDeliversOnce([], [backoff], Tally(0, 1, 0), Send(script[1..], lo, count, NextBackoff(backoff)), lo, i);
      } else {
        var p := Post(lo, count, script[0].status);
        CountsOne(p, i);
        if Retryable(p.status) {
          SendDeliversOnce(script[1..], lo, count, NextBackoff(backoff), i);
          TurnDeliversOnce([p], [backoff], Tally(0, 1, 1), Send(script[1..], lo, count, NextBackoff(backoff)), lo, i);
        } else if Rejects(p.status) && count > 1 {
          SendDeliversOnceBisect(script, lo, count, backoff, i);
        }
      }
    }
  }

  lemma {:induction false} SendBisects(script: seq<Event>, lo: nat, count: nat, backoff: real)
    requires count > 1 && !Stopped(script) && script[0].Reply? && Rejects(script[0].status)
    ensures var mid := count / 2;
            var a := Send(script[1..], lo, mid, backoff);
            Send(script, lo, count, backoff)
            == Halves(Post(lo, count, script[0].status), a, Send(a.rest, lo + mid, count - mid, backoff))
  {
  }

  lemma {:induction false} SendDeliversOnceBisect(script: seq<Event>, lo: nat, count: nat, backoff: real, i: nat)
    requires count > 1 && !Stopped(script) && script[0].Reply? && Rejects(script[0].status)
    ensures OnceIffMarked(Send(script, lo, count, backoff), lo, i)
    decreases count, |script|, 0
  {
    hide OnceIffMarked;
    hide Send;
    hide Halves;
    SendBisects(script, lo, count, backoff);
    var p := Post(lo, count, script[0].status);
    var mid := count / 2;
    var a := Send(script[1..], lo, mid, backoff);
    var b := Send(a.rest, lo + mid, count - mid, backoff);
    SendShape(script[1..], lo, mid, backoff);
    SendShape(a.rest, lo + mid, count - mid, backoff);
    assert PostsWithin(a.posts, lo, lo + |a.marks|) && PostsWithin(b.posts, lo + |a.marks|, lo + |a.marks| + |b.marks|);
    SendDeliversOnce(script[1..], lo, mid, backoff, i);
    SendDeliversOnce(a.rest, lo + mid, count - mid, backoff, i);
    HalvesDeliverOnce(p, a, b, lo, i);
  }

  /** An item is marked delivered exactly when one accepted POST carried it, and never two did. */
  lemma {:induction false} DeliveredExactlyOnce(script: seq<Event>, lo: nat, count: nat, backoff: real, i: nat)
    requires lo <= i < lo + count
    ensures var o := Send(script, lo, count, backoff);
            && |o.marks| == count
            && AcceptedWith(o.posts, i) == if o.marks[i - lo] == Delivered then 1 else 0
  {
    hide Send;
    SendShape(script, lo, count, backoff);
    SendDeliversOnce(script, lo, count, backoff, i);
  }

  /** An item is marked poison with a status exactly when it was POSTed alone and got that
      non-retryable status. */
  lemma {:induction false} PoisonIffRejectedAlone(script: seq<Event>, lo: nat, count: nat, backoff: real, i: nat, status: int)
    requires lo <= i < lo + count
    ensures var o := Send(script, lo, count, backoff);
            && |o.marks| == count
            && (o.marks[i - lo] == Poisoned(status) <==> Rejects(status) && Post(i, 1, status) in o.posts)
    decreases count, |script|, 1
  {
    SendShape(script, lo, count, backoff);
    if !Stopped(script) {
      if script[0] == NoMemory || Retryable(script[0].status) {
        PoisonIffRejectedAlone(script[1..], lo, count, NextBackoff(backoff), i, status);
      } else if Rejects(script[0].status) && count > 1 {
        PoisonBisect(script, lo, count, backoff, i, status);
      }
    }
  }

  lemma {:induction false} PoisonBisect(script: seq<Event>, lo: nat, count: nat, backoff: real, i: nat, status: int)
    requires lo <= i < lo + count && count > 1 && !Stopped(script) && script[0].Reply? && Rejects(script[0].status)
    ensures var o := Send(script, lo, count, backoff);
            && |o.marks| == count
            && (o.marks[i - lo] == Poisoned(status) <==> Rejects(status) && Post(i, 1, status) in o.posts)
    decreases count, |script|, 0
  {
    hide Send;
    SendBisects(script, lo, count, backoff);
    var mid := count / 2;
    var a := Send(script[1..], lo, mid, backoff);
    SendShape(script[1..], lo, mid, backoff);
    SendShape(a.rest, lo + mid, count - mid, backoff);
    if i < lo + mid {
      PoisonIffRejectedAlone(script[1..], lo, mid, backoff, i, status);
    } else {
      PoisonIffRejectedAlone(a.rest, lo + mid, count - mid, backoff, i, status);
    }
  }

  /** Bisection costs at most 2n - 1 POSTs that are not retries. */
  lemma {:induction false} FewFinalAnswers(script: seq<Event>, lo: nat, count: nat, backoff: real)
    requires count > 0
    ensures Final(Send(script, lo, count, backoff).posts) <= 2 * count - 1
    decreases count, |script|
  {
    hide Final;
    CountsOne(Post(lo, count, 0), 0);
    if !Stopped(script) {
      if script[0] == NoMemory {
        var r := Send(script[1..], lo, count, NextBackoff(backoff));
        FewFinalAnswers(script[1..], lo, count, NextBackoff(backoff));
        assert [] + r.posts == r.posts;
      } else {
        var p := Post(lo, count, script[0].status);
        CountsOne(p, 0);
        if Retryable(p.status) {
          FewFinalAnswers(script[1..], lo, count, NextBackoff(backoff));
          FinalConcat([p], Send(script[1..], lo, count, NextBackoff(backoff)).posts);
        } else if Rejects(p.status) && count > 1 {
          var mid := count / 2;
          var a := Send(script[1..], lo, mid, backoff);
          var b := Send(a.rest, lo + mid, count - mid, backoff);
          FewFinalAnswers(script[1..], lo, mid, backoff);
          FewFinalAnswers(a.rest, lo + mid, count - mid, backoff);
          FinalConcat([p], a.posts + b.posts);
          FinalConcat(a.posts, b.posts);
        }
      }
    }
  }

  /** Every backoff sleep is between the one the call started with and the 30-second cap. */
  lemma {:induction false} WaitsAreBounded(script: seq<Event>, lo: nat, count: nat, backoff: real)
    requires BACKOFF_INITIAL <= backoff <= BACKOFF_MAX
    ensures forall w :: w in Send(script, lo, count, backoff).waits ==> backoff <= w <= BACKOFF_MAX
    decreases count, |script|
  {
    if count > 0 && !Stopped(script) {
      if script[0] == NoMemory || Retryable(script[0].status) {
        WaitsAreBounded(script[1..], lo, count, NextBackoff(backoff));
      } else if Rejects(script[0].status) && count > 1 {
        var mid := count / 2;
        WaitsAreBounded(script[1..], lo, mid, backoff);
        WaitsAreBounded(Send(script[1..], lo, mid, backoff).rest, lo + mid, count - mid, backoff);
      }
    }
  }

  // ---------------------------------------------------------------- by status code

  lemma {:induction false} AcceptedCounts(posts: seq<Post>, i: nat)
    ensures AcceptedWith(posts, i) > 0 <==> exists p :: p in posts && 200 <= p.status < 300 && p.lo <= i < p.lo + p.count
  {
    if posts != [] {
      AcceptedCounts(posts[1..], i);
      assert posts == [posts[0]] + posts[1..];
    }
  }

  /** An item is delivered exactly when a POST that got a 2xx carried it. */
  lemma {:induction false} DeliveredIffTwoHundreds(script: seq<Event>, lo: nat, count: nat, backoff: real, i: nat)
    requires lo <= i < lo + count
    ensures var o := Send(script, lo, count, backoff);
            && |o.marks| == count
            && (o.marks[i - lo] == Delivered <==> exists p :: p in o.posts && 200 <= p.status < 300 && p.lo <= i < p.lo + p.count)
  {
    hide Send;
    hide AcceptedWith;
    DeliveredExactlyOnce(script, lo, count, backoff, i);
    AcceptedCounts(Send(script, lo, count, backoff).posts, i);
  }

  /** An item is poison exactly when it was POSTed alone and the answer was a client error other than
      429, or a status below 200 or from 300 to 399; never a transport error, a 2xx, a 429 or a 5xx. */
  lemma {:induction false} PoisonByStatus(script: seq<Event>, lo: nat, count: nat, backoff: real, i: nat, status: int)
    requires lo <= i < lo + count
    ensures var o := Send(script, lo, count, backoff);
            && |o.marks| == count
            && (o.marks[i - lo] == Poisoned(status)
                <==> Post(i, 1, status) in o.posts && 0 < status < 500 && status != 429 && !(200 <= status < 300))
  {
    hide Send;
    PoisonIffRejectedAlone(script, lo, count, backoff, i, status);
  }

  /** The backoff doubles from one second up to thirty. */
  function BackoffAt(k: nat): (b: real) {
    if k < 5 then [1.0, 2.0, 4.0, 8.0, 16.0][k] else 30.0
  }

  lemma BackoffGrows(k: nat)
    ensures NextBackoff(BackoffAt(k)) == BackoffAt(k + 1)
  {
  }

  /** An outage: as long as every answer is a transport error, a 429 or a 5xx, the whole range is POSTed
      once for each answer, with the backoff in between, and nothing is marked. */
  lemma {:induction false} OutageLeavesAll(script: seq<Event>, lo: nat, count: nat, k: nat)
    requires count > 0
    requires forall e :: e in script ==> e.Reply? && (e.status <= 0 || e.status == 429 || e.status >= 500)
    ensures var o := Send(script, lo, count, BackoffAt(k));
            && o.marks == Repeat(Unmarked, count) && o.rest == [] && |o.posts| == |o.waits| == |script|
            && (forall j :: 0 <= j < |script| ==> o.posts[j] == Post(lo, count, script[j].status))
            && (forall j :: 0 <= j < |script| ==> o.waits[j] == BackoffAt(k + j))
    decreases |script|
  {
    if script != [] {
      assert script[0] in script;
      BackoffGrows(k);
      OutageLeavesAll(script[1..], lo, count, k + 1);
      var o, r := Send(script, lo, count, BackoffAt(k)), Send(script[1..], lo, count, BackoffAt(k + 1));
      assert o.posts == [Post(lo, count, script[0].status)] + r.posts && o.waits == [BackoffAt(k)] + r.waits;
    }
  }

  // ---------------------------------------------------------------- counters and depth

  function DeliveredIn(marks: seq<Mark>): (n: nat) {
    if marks == [] then 0 else (if marks[0] == Delivered then 1 else 0) + DeliveredIn(marks[1..])
  }

  /** POSTs with any answer but a 2xx. */
  function Failed(posts: seq<Post>): (n: nat) {
    if posts == [] then 0 else (if 200 <= posts[0].status < 300 then 0 else 1) + Failed(posts[1..])
  }

  ghost predicate Tallied(o: Out) {
    o.tally == Tally(DeliveredIn(o.marks), |o.waits|, Failed(o.posts))
  }

  lemma {:induction false} DeliveredInConcat(a: seq<Mark>, b: seq<Mark>)
    ensures DeliveredIn(a + b) == DeliveredIn(a) + DeliveredIn(b)
  {
    if a == [] {
      assert a + b == b;
    } else {
      assert (a + b)[1..] == a[1..] + b;
      DeliveredInConcat(a[1..], b);
    }
  }

  lemma {:induction false} FailedConcat(a: seq<Post>, b: seq<Post>)
    ensures Failed(a + b) == Failed(a) + Failed(b)
  {
    if a == [] {
      assert a + b == b;
    } else {
      assert (a + b)[1..] == a[1..] + b;
      FailedConcat(a[1..], b);
    }
  }

  lemma {:induction false} DeliveredInRepeat(m: Mark, n: nat)
    ensures DeliveredIn(Repeat(m, n)) == if m == Delivered then n else 0
  {
    if n > 0 {
      assert Repeat(m, n)[1..] == Repeat(m, n - 1);
      DeliveredInRepeat(m, n - 1);
    }
  }

  lemma FailedOne(p: Post)
    ensures Failed([p]) == (if 200 <= p.status < 300 then 0 else 1) && Failed([]) == 0
  {
  }

  lemma TurnTallied(posts: seq<Post>, wait: real, errors: nat, r: Out)
    requires Tallied(r) && errors == Failed(posts)
    ensures Tallied(Turn(posts, [wait], Tally(0, 1, errors), r))
  {
    FailedConcat(posts, r.posts);
  }

  lemma HalvesTallied(p: Post, a: Out, b: Out)
    requires Tallied(a) && Tallied(b) && !(200 <= p.status < 300)
    ensures Tallied(Halves(p, a, b))
  {
    hide DeliveredIn;
    hide Failed;
    DeliveredInConcat(a.marks, b.marks);
    FailedOne(p);
    FailedConcat([p], a.posts + b.posts);
    FailedConcat(a.posts, b.posts);
  }

  /** The counters: what was delivered, one retry for each sleep, one error for each POST that got no 2xx. */
  lemma {:induction false} TallyIsExact(script: seq<Event>, lo: nat, count: nat, backoff: real)
    ensures Tallied(Send(script, lo, count, backoff))
    decreases count, |script|
  {
    hide Tallied;
    hide Turn;
    hide Halves;
    if count == 0 || Stopped(script) {
      EndTallied(script, count);
    } else if script[0] == NoMemory {
      TallyIsExact(script[1..], lo, count, NextBackoff(backoff));
      FailedOne(Post(0, 0, 0));
      TurnTallied([], backoff, 0, Send(script[1..], lo, count, NextBackoff(backoff)));
    } else {
      var p := Post(lo, count, script[0].status);
      FailedOne(p);
      if Accepts(p.status) || (Rejects(p.status) && count == 1) {
        AnswerTallied(p, count, script[1..]);
      } else if Retryable(p.status) {
        TallyIsExact(script[1..], lo, count, NextBackoff(backoff));
        TurnTallied([p], backoff, 1, Send(script[1..], lo, count, NextBackoff(backoff)));
      } else {
        var mid := count / 2;
        var a := Send(script[1..], lo, mid, backoff);
        TallyIsExact(script[1..], lo, mid, backoff);
        TallyIsExact(a.rest, lo + mid, count - mid, backoff);
        HalvesTallied(p, a, Send(a.rest, lo + mid, count - mid, backoff));
      }
    }
  }

  lemma EndTallied(script: seq<Event>, count: nat)
    ensures Tallied(Out([], [], [], Tally(0, 0, 0), script))
    ensures Tallied(Out(Repeat(Unmarked, count), [], [], Tally(0, 0, 0), script))
  {
    DeliveredInRepeat(Unmarked, count);
  }

  lemma AnswerTallied(p: Post, count: nat, rest: seq<Event>)
    ensures Accepts(p.status) ==> Tallied(Out(Repeat(Delivered, count), [p], [], Tally(count, 0, 0), rest))
    ensures !Accepts(p.status) ==> Tallied(Out([Poisoned(p.status)], [p], [], Tally(0, 0, 1), rest))
  {
    DeliveredInRepeat(Delivered, count);
  }

  /** POSTs with a final answer that carried item i. */
  function FinalWith(posts: seq<Post>, i: nat): (n: nat) {
    if posts == [] then 0
    else (if !Retryable(posts[0].status) && Covers(posts[0], i) then 1 else 0) + FinalWith(posts[1..], i)
  }

  lemma {:induction false} FinalWithConcat(a: seq<Post>, b: seq<Post>, i: nat)
    ensures FinalWith(a + b, i) == FinalWith(a, i) + FinalWith(b, i)
  {
    if a == [] {
      assert a + b == b;
    } else {
      assert (a + b)[1..] == a[1..] + b;
      FinalWithConcat(a[1..], b, i);
    }
  }

  lemma {:induction false} FinalWithout(posts: seq<Post>, i: nat)
    requires forall p :: p in posts ==> !Covers(p, i)
    ensures FinalWith(posts, i) == 0
  {
    if posts != [] {
      assert posts[0] in posts;
      FinalWithout(posts[1..], i);
    }
  }

  lemma FinalWithOne(p: Post, i: nat)
    ensures FinalWith([p], i) == (if !Retryable(p.status) && Covers(p, i) then 1 else 0) && FinalWith([], i) == 0
  {
  }

  /** Bisection halves: in a batch of at most 2^d items, no item is carried by more than d + 1 POSTs that
      are not retries. */
  lemma {:induction false} DepthIsLogarithmic(script: seq<Event>, lo: nat, count: nat, backoff: real, i: nat, d: nat)
    requires 0 < count <= Pow2(d)
    ensures FinalWith(Send(script, lo, count, backoff).posts, i) <= d + 1
    decreases count, |script|, 1
  {
    hide FinalWith;
    FinalWithOne(Post(lo, count, 0), i);
    if !Stopped(script) {
      if script[0] == NoMemory {
        var r := Send(script[1..], lo, count, NextBackoff(backoff));
        DepthIsLogarithmic(script[1..], lo, count, NextBackoff(backoff), i, d);
        assert [] + r.posts == r.posts;
      } else {
        var p := Post(lo, count, script[0].status);
        FinalWithOne(p, i);
        if Retryable(p.status) {
          DepthIsLogarithmic(script[1..], lo, count, NextBackoff(backoff), i, d);
          FinalWithConcat([p], Send(script[1..], lo, count, NextBackoff(backoff)).posts, i);
        } else if Rejects(p.status) && count > 1 {
          DepthBisect(script, lo, count, backoff, i, d);
        }
      }
    }
  }

  lemma {:induction false} DepthBisect(script: seq<Event>, lo: nat, count: nat, backoff: real, i: nat, d: nat)
    requires 1 < count <= Pow2(d) && !Stopped(script) && script[0].Reply? && Rejects(script[0].status)
    ensures FinalWith(Send(script, lo, count, backoff).posts, i) <= d + 1
    decreases count, |script|, 0
  {
    hide Send;
    hide FinalWith;
    SendBisects(script, lo, count, backoff);
    var mid := count / 2;
    var p := Post(lo, count, script[0].status);
    var a := Send(script[1..], lo, mid, backoff);
    var b := Send(a.rest, lo + mid, count - mid, backoff);
    FinalWithOne(p, i);
    FinalWithConcat([p], a.posts + b.posts, i);
    FinalWithConcat(a.posts, b.posts, i);
    SendShape(script[1..], lo, mid, backoff);
    SendShape(a.rest, lo + mid, count - mid, backoff);
    assert d > 0 && Pow2(d) == 2 * Pow2(d - 1);
    DepthIsLogarithmic(script[1..], lo, mid, backoff, i, d - 1);
    DepthIsLogarithmic(a.rest, lo + mid, count - mid, backoff, i, d - 1);
    if i < lo + mid {
      FinalWithout(b.posts, i);
    } else {
      FinalWithout(a.posts, i);
    }
  }

  // ---------------------------------------------------------------- the request body

  type Line = seq<byte>

  /** The lines joined by newlines. */
  function Body(lines: seq<Line>): (b: seq<byte>) {
    if lines == [] then [] else if |lines| == 1 then lines[0] else lines[0] + [NEWLINE] + Body(lines[1..])
  }

  /** What a server that reads one item per line sees. */
  function SplitLines(b: seq<byte>): (s: seq<Line>)
    ensures |s| >= 1
  {
    if b == [] then [[]]
    else
      var rest := SplitLines(b[1..]);
      if b[0] == NEWLINE then [[]] + rest else [[b[0]] + rest[0]] + rest[1..]
  }

  lemma {:induction false} SplitOne(l: Line)
    requires NEWLINE !in l
    ensures SplitLines(l) == [l]
  {
    if l != [] {
      SplitOne(l[1..]);
      assert [l[0]] + l[1..] == l;
    }
  }

  /** A newline between two texts ends a record, whatever records the texts hold. */
  lemma {:induction false} SplitConcat(a: seq<byte>, b: seq<byte>)
    ensures SplitLines(a + [NEWLINE] + b) == SplitLines(a) + SplitLines(b)
  {
    var all := a + [NEWLINE] + b;
    if a == [] {
      assert all[1..] == b;
    } else {
      assert all[1..] == a[1..] + [NEWLINE] + b;
      SplitConcat(a[1..], b);
    }
  }

  /** The records of a batch: an item may hold several, separated by newlines. */
  function Records(lines: seq<Line>): (r: seq<Line>) {
    if lines == [] then [] else SplitLines(lines[0]) + Records(lines[1..])
  }

  /** The server reads from a body exactly the records of its items, in order. */
  lemma {:induction false} BodyHoldsRecords(lines: seq<Line>)
    requires lines != []
    ensures SplitLines(Body(lines)) == Records(lines)
  {
    if |lines| == 1 {
      assert lines[1..] == [] && SplitLines(lines[0]) + [] == SplitLines(lines[0]);
    } else {
      BodyHoldsRecords(lines[1..]);
      SplitConcat(lines[0], Body(lines[1..]));
    }
  }

  /** The body of items without newlines gives back exactly the items. */
  lemma {:induction false} BodySplitsBack(lines: seq<Line>)
    requires lines != [] && forall i :: 0 <= i < |lines| ==> NEWLINE !in lines[i]
    ensures SplitLines(Body(lines)) == lines
  {
    BodyHoldsRecords(lines);
    EachOneRecord(lines);
  }

  lemma {:induction false} EachOneRecord(lines: seq<Line>)
    requires forall i :: 0 <= i < |lines| ==> NEWLINE !in lines[i]
    ensures Records(lines) == lines
  {
    if lines != [] {
      SplitOne(lines[0]);
      EachOneRecord(lines[1..]);
    }
  }

  lemma {:induction false} BodyAppend(lines: seq<Line>, l: Line)
    ensures Body(lines + [l]) == (if lines == [] then [] else Body(lines) + [NEWLINE]) + l
  {
    if lines != [] {
      assert (lines + [l])[1..] == lines[1..] + [l];
      BodyAppend(lines[1..], l);
    }
  }

  function TotalLength(lines: seq<Line>): (n: nat) {
    if lines == [] then 0 else TotalLength(lines[..|lines| - 1]) + |lines[|lines| - 1]| + 1
  }

  lemma NoLines()
    ensures Body([]) == [] && TotalLength([]) == 0
  {
  }

  lemma TotalMore(lines: seq<Line>, i: nat)
    requires i < |lines|
    ensures TotalLength(lines[..i + 1]) == TotalLength(lines[..i]) + |lines[i]| + 1
  {
    assert lines[..i + 1][..i] == lines[..i];
  }

  lemma {:induction false} TotalPrefix(lines: seq<Line>, n: nat)
    requires n <= |lines|
    ensures TotalLength(lines[..n]) <= TotalLength(lines)
    decreases |lines|
  {
    if n < |lines| {
      TotalPrefix(lines[..|lines| - 1], n);
      assert lines[..|lines| - 1][..n] == lines[..n];
    } else {
      assert lines[..n] == lines;
    }
  }

  lemma {:induction false} BodyFits(lines: seq<Line>)
    ensures |Body(lines)| + (if lines == [] then 0 else 1) == TotalLength(lines)
  {
    if lines != [] {
      var init, last := lines[..|lines| - 1], lines[|lines| - 1];
      assert lines == init + [last];
      BodyFits(init);
      BodyAppend(init, last);
    }
  }

  /** memcpy of one line. */
  method CopyLine(buf: array<byte>, at: nat, l: Line)
    requires at + |l| <= buf.Length
    modifies buf
    ensures buf[..at + |l|] == old(buf[..at]) + l
  {
    forall k | 0 <= k < |l| {
      buf[at + k] := l[k];
    }
  }

  /** build_body: sizes a buffer, then fills it. */
  method BuildBody(lines: seq<Line>) returns (b: seq<byte>)
    ensures b == Body(lines)
  {
    hide Body;
    hide TotalLength;
    NoLines();
    assert lines[..0] == [];
    var total := 0;
    for i := 0 to |lines|
      invariant total == TotalLength(lines[..i])
    {
      TotalMore(lines, i);
      total := total + |lines[i]| + 1;
    }
    assert lines[..|lines|] == lines;
    if total == 0 {
      total := 1;
    }
    var buf := new byte[total](_ => 0);
    var o := 0;
    for i := 0 to |lines|
      invariant o == |Body(lines[..i])| <= buf.Length && buf[..o] == Body(lines[..i])
    {
      var l := lines[i];
      assert lines[..i + 1] == lines[..i] + [l] && (lines[..i] == [] <==> i == 0);
      BodyAppend(lines[..i], l);
      BodyFits(lines[..i + 1]);
      TotalPrefix(lines, i + 1);
      if i > 0 {
        buf[o] := NEWLINE;
        o := o + 1;
      }
      CopyLine(buf, o, l);
      o := o + |l|;
    }
    b := buf[..o];
  }

  // ---------------------------------------------------------------- an honest server

  /** The final answer to a POST is a rejection exactly when one of the records it carried is bad. */
  ghost predicate Honest(lines: seq<Line>, bad: Line -> bool, p: Post)
    requires p.lo + p.count <= |lines|
  {
    !Retryable(p.status) ==>
      (Rejects(p.status) <==> exists l :: l in SplitLines(Body(lines[p.lo..p.lo + p.count])) && bad(l))
  }

  /** One of the records of the item is bad. */
  ghost predicate BadItem(item: Line, bad: Line -> bool) {
    exists r :: r in SplitLines(item) && bad(r)
  }

  /** Bisection is exact: against an honest server, whatever retryable answers and allocation failures
      come in between, and unless a stop cuts it short, the delivered items are those without a bad
      record and the poison ones those with one. */
  lemma BisectionIsExact(lines: seq<Line>, bad: Line -> bool, script: seq<Event>)
    requires var o := Send(script, 0, |lines|, BACKOFF_INITIAL);
             forall p :: p in o.posts ==> p.lo + p.count <= |lines| && Honest(lines, bad, p)
    ensures var o := Send(script, 0, |lines|, BACKOFF_INITIAL);
            && |o.marks| == |lines|
            && forall i :: 0 <= i < |lines| ==>
                 && (o.marks[i] == Delivered ==> !BadItem(lines[i], bad))
                 && (o.marks[i].Poisoned? ==> BadItem(lines[i], bad))
                 && (!Stopped(o.rest) ==> (o.marks[i] == Delivered <==> !BadItem(lines[i], bad))
                                          && (o.marks[i].Poisoned? <==> BadItem(lines[i], bad)))
  {
    hide Send;
    hide Body;
    hide SplitLines;
    var o := Send(script, 0, |lines|, BACKOFF_INITIAL);
    SendShape(script, 0, |lines|, BACKOFF_INITIAL);
    forall i | 0 <= i < |lines|
      ensures o.marks[i] == Delivered ==> !BadItem(lines[i], bad)
      ensures o.marks[i].Poisoned? ==> BadItem(lines[i], bad)
      ensures !Stopped(o.rest) ==> o.marks[i] != Unmarked
    {
      assert o.marks[i] in o.marks;
      DeliveredExactlyOnce(script, 0, |lines|, BACKOFF_INITIAL, i);
      if o.marks[i] == Delivered {
        var p := AcceptedPost(o.posts, i);
        RecordsAreCarried(lines, p.lo, p.count, i);
      } else if o.marks[i].Poisoned? {
        var s := o.marks[i].status;
        PoisonIffRejectedAlone(script, 0, |lines|, BACKOFF_INITIAL, i, s);
        assert Honest(lines, bad, Post(i, 1, s));
        OneItemBody(lines, i);
      }
    }
  }

  // ---------------------------------------------------------------- delivery ends

  /** Number of final answers a script holds. */
  function FinalReplies(script: seq<Event>): (n: nat) {
    if script == [] then 0
    else (if script[0].Reply? && !Retryable(script[0].status) then 1 else 0) + FinalReplies(script[1..])
  }

  /** Every final answer used up shows as a POST. */
  lemma {:induction false} FinalAnswersUsed(script: seq<Event>, lo: nat, count: nat, backoff: real)
    ensures var o := Send(script, lo, count, backoff);
            FinalReplies(script) == Final(o.posts) + FinalReplies(o.rest)
    decreases count, |script|
  {
    hide Final;
    CountsOne(Post(lo, count, 0), 0);
    if count > 0 && !Stopped(script) {
      if script[0] == NoMemory {
        var r := Send(script[1..], lo, count, NextBackoff(backoff));
        FinalAnswersUsed(script[1..], lo, count, NextBackoff(backoff));
        assert [] + r.posts == r.posts;
      } else {
        var p := Post(lo, count, script[0].status);
        CountsOne(p, 0);
        if Retryable(p.status) {
          FinalAnswersUsed(script[1..], lo, count, NextBackoff(backoff));
          FinalConcat([p], Send(script[1..], lo, count, NextBackoff(backoff)).posts);
        } else if Rejects(p.status) && count > 1 {
          FinalAnswersUsedBisect(script, lo, count, backoff);
        }
      }
    }
  }

  lemma {:induction false} FinalAnswersUsedBisect(script: seq<Event>, lo: nat, count: nat, backoff: real)
    requires count > 1 && !Stopped(script) && script[0].Reply? && Rejects(script[0].status)
    ensures var o := Send(script, lo, count, backoff);
            FinalReplies(script) == Final(o.posts) + FinalReplies(o.rest)
    decreases count, |script|, 0
  {
    hide Send;
    hide Final;
    SendBisects(script, lo, count, backoff);
    var mid := count / 2;
    var p := Post(lo, count, script[0].status);
    var a := Send(script[1..], lo, mid, backoff);
    var b := Send(a.rest, lo + mid, count - mid, backoff);
    CountsOne(p, 0);
    FinalConcat([p], a.posts + b.posts);
    FinalConcat(a.posts, b.posts);
    FinalAnswersUsed(script[1..], lo, mid, backoff);
    FinalAnswersUsed(a.rest, lo + mid, count - mid, backoff);
  }

  /** A delivery that leaves something unmarked has had fewer than 2n - 1 final answers. */
  lemma {:induction false} UnfinishedHadFew(script: seq<Event>, lo: nat, count: nat, backoff: real)
    requires count > 0 && Unmarked in Send(script, lo, count, backoff).marks
    ensures Final(Send(script, lo, count, backoff).posts) <= 2 * count - 2
    decreases count, |script|
  {
    hide Final;
    CountsOne(Post(lo, count, 0), 0);
    if !Stopped(script) {
      if script[0] == NoMemory {
        var r := Send(script[1..], lo, count, NextBackoff(backoff));
        UnfinishedHadFew(script[1..], lo, count, NextBackoff(backoff));
        assert [] + r.posts == r.posts;
      } else {
        var p := Post(lo, count, script[0].status);
        CountsOne(p, 0);
        if Retryable(p.status) {
          UnfinishedHadFew(script[1..], lo, count, NextBackoff(backoff));
          FinalConcat([p], Send(script[1..], lo, count, NextBackoff(backoff)).posts);
        } else if Rejects(p.status) && count > 1 {
          UnfinishedBisect(script, lo, count, backoff);
        }
      }
    }
  }

  lemma {:induction false} UnfinishedBisect(script: seq<Event>, lo: nat, count: nat, backoff: real)
    requires count > 1 && !Stopped(script) && script[0].Reply? && Rejects(script[0].status)
    requires Unmarked in Send(script, lo, count, backoff).marks
    ensures Final(Send(script, lo, count, backoff).posts) <= 2 * count - 2
    decreases count, |script|, 0
  {
    hide Send;
    hide Final;
    SendBisects(script, lo, count, backoff);
    var mid := count / 2;
    var p := Post(lo, count, script[0].status);
    var a := Send(script[1..], lo, mid, backoff);
    var b := Send(a.rest, lo + mid, count - mid, backoff);
    CountsOne(p, 0);
    FinalConcat([p], a.posts + b.posts);
    FinalConcat(a.posts, b.posts);
    FewFinalAnswers(script[1..], lo, mid, backoff);
    FewFinalAnswers(a.rest, lo + mid, count - mid, backoff);
    if Unmarked in a.marks {
      UnfinishedHadFew(script[1..], lo, mid, backoff);
    } else {
      UnfinishedHadFew(a.rest, lo + mid, count - mid, backoff);
    }
  }

  lemma {:induction false} NoStopAhead(script: seq<Event>, lo: nat, count: nat, backoff: real)
    requires Stop !in script
    ensures Stop !in Send(script, lo, count, backoff).rest
    decreases count, |script|
  {
    if count > 0 && !Stopped(script) {
      if script[0] == NoMemory || Retryable(script[0].status) {
        NoStopAhead(script[1..], lo, count, NextBackoff(backoff));
      } else if Rejects(script[0].status) && count > 1 {
        var mid := count / 2;
        NoStopAhead(script[1..], lo, mid, backoff);
        NoStopAhead(Send(script[1..], lo, mid, backoff).rest, lo + mid, count - mid, backoff);
      }
    }
  }

  /** Delivery ends: without a stop, and with 2n - 1 final answers somewhere among the events, however
      many retryable answers and allocation failures lie between them, every item is marked. */
  lemma {:induction false} EnoughAnswersFinish(script: seq<Event>, count: nat)
    requires Stop !in script && FinalReplies(script) + 1 >= 2 * count
    ensures Unmarked !in Send(script, 0, count, BACKOFF_INITIAL).marks
  {
    hide Send;
    hide Final;
    var o := Send(script, 0, count, BACKOFF_INITIAL);
    SendShape(script, 0, count, BACKOFF_INITIAL);
    if Unmarked in o.marks {
      NoStopAhead(script, 0, count, BACKOFF_INITIAL);
      FinalAnswersUsed(script, 0, count, BACKOFF_INITIAL);
      UnfinishedHadFew(script, 0, count, BACKOFF_INITIAL);
    }
  }

  /** So an honest server that keeps answering gets every item without a bad record, and every other one is poison. */
  lemma {:induction false} HonestDeliveryIsExact(lines: seq<Line>, bad: Line -> bool, script: seq<Event>)
    requires Stop !in script && FinalReplies(script) + 1 >= 2 * |lines|
    requires var o := Send(script, 0, |lines|, BACKOFF_INITIAL);
             forall p :: p in o.posts ==> p.lo + p.count <= |lines| && Honest(lines, bad, p)
    ensures var o := Send(script, 0, |lines|, BACKOFF_INITIAL);
            && |o.marks| == |lines|
            && forall i :: 0 <= i < |lines| ==>
                 && (o.marks[i] == Delivered <==> !BadItem(lines[i], bad))
                 && (o.marks[i].Poisoned? <==> BadItem(lines[i], bad))
  {
    hide Send;
    hide Honest;
    hide BadItem;
    BisectionIsExact(lines, bad, script);
    EnoughAnswersFinish(script, |lines|);
    var o := Send(script, 0, |lines|, BACKOFF_INITIAL);
    forall i | 0 <= i < |lines| ensures o.marks[i] != Unmarked {
      assert o.marks[i] in o.marks;
    }
  }

  lemma {:induction false} AcceptedPost(posts: seq<Post>, i: nat) returns (p: Post)
    requires AcceptedWith(posts, i) > 0
    ensures p in posts && Accepts(p.status) && Covers(p, i)
  {
    p := posts[0];
    if !(Accepts(p.status) && Covers(p, i)) {
      p := AcceptedPost(posts[1..], i);
    }
  }

  lemma OneItemBody(lines: seq<Line>, i: nat)
    requires i < |lines|
    ensures Body(lines[i..i + 1]) == lines[i]
  {
  }

  lemma {:induction false} RecordsInclude(lines: seq<Line>, i: nat)
    requires i < |lines|
    ensures forall r :: r in SplitLines(lines[i]) ==> r in Records(lines)
  {
    if i > 0 {
      RecordsInclude(lines[1..], i - 1);
    }
  }

  lemma RecordsAreCarried(lines: seq<Line>, lo: nat, count: nat, i: nat)
    requires lo <= i < lo + count <= |lines|
    ensures forall r :: r in SplitLines(lines[i]) ==> r in SplitLines(Body(lines[lo..lo + count]))
  {
    BodyHoldsRecords(lines[lo..lo + count]);
    RecordsInclude(lines[lo..lo + count], i - lo);
  }

  // ---------------------------------------------------------------- the code

  /** POSTs, sleeps and counters so far. */
  datatype Log = Log(posts: seq<Post>, waits: seq<real>, tally: Tally)

  function Add(l: Log, posts: seq<Post>, waits: seq<real>, tally: Tally): (r: Log) {
    Log(l.posts + posts, l.waits + waits, Plus(l.tally, tally))
  }

  function After(l: Log, o: Out): (r: Log) {
    Add(l, o.posts, o.waits, o.tally)
  }

  lemma AfterTurn(l: Log, posts: seq<Post>, waits: seq<real>, tally: Tally, r: Out)
    ensures After(l, Turn(posts, waits, tally, r)) == After(Add(l, posts, waits, tally), r)
  {
    assert l.posts + (posts + r.posts) == (l.posts + posts) + r.posts;
    assert l.waits + (waits + r.waits) == (l.waits + waits) + r.waits;
  }

  lemma AfterHalves(l: Log, p: Post, a: Out, b: Out)
    ensures After(l, Halves(p, a, b)) == After(After(Add(l, [p], [], Tally(0, 0, 1)), a), b)
  {
    assert l.posts + ([p] + (a.posts + b.posts)) == l.posts + [p] + a.posts + b.posts;
    assert l.waits + (a.waits + b.waits) == l.waits + [] + a.waits + b.waits;
  }

  lemma {:induction false} SendTurns(script: seq<Event>, lo: nat, count: nat, backoff: real)
    requires count > 0 && !Stopped(script)
    ensures script[0] == NoMemory ==>
              Send(script, lo, count, backoff) == Turn([], [backoff], Tally(0, 1, 0), Send(script[1..], lo, count, NextBackoff(backoff)))
    ensures script[0].Reply? && Retryable(script[0].status) ==>
              Send(script, lo, count, backoff)
              == Turn([Post(lo, count, script[0].status)], [backoff], Tally(0, 1, 1), Send(script[1..], lo, count, NextBackoff(backoff)))
  {
  }

  /** A final answer that needs no bisection. */
  lemma {:induction false} SendEnds(script: seq<Event>, lo: nat, count: nat, backoff: real, l: Log)
    requires count > 0 && !Stopped(script) && script[0].Reply?
    ensures var status := script[0].status;
            var p := Post(lo, count, status);
            var o := Send(script, lo, count, backoff);
            && (Accepts(status) ==>
                  o.marks == Repeat(Delivered, count) && o.rest == script[1..]
                  && After(l, o) == l.(posts := l.posts + [p], tally := Plus(l.tally, Tally(count, 0, 0))))
            && (Rejects(status) && count == 1 ==>
                  o.marks == [Poisoned(status)] && o.rest == script[1..]
                  && After(l, o) == l.(posts := l.posts + [p], tally := Plus(l.tally, Tally(0, 0, 1))))
  {
    assert l.waits + [] == l.waits;
  }

  lemma {:induction false} SendNothing(script: seq<Event>, lo: nat, backoff: real, l: Log)
    ensures var o := Send(script, lo, 0, backoff);
            o.marks == [] && o.rest == script && After(l, o) == l
  {
    assert l.posts + [] == l.posts && l.waits + [] == l.waits;
  }

  lemma {:induction false} SendStops(script: seq<Event>, lo: nat, count: nat, backoff: real, l: Log)
    requires count > 0 && Stopped(script)
    ensures var o := Send(script, lo, count, backoff);
            o.marks == Repeat(Unmarked, count) && o.rest == script && After(l, o) == l
  {
    assert l.posts + [] == l.posts && l.waits + [] == l.waits;
  }

  class Delivery {
    const lines: seq<Line>
    const delivered: array<bool>
    const poison: array<bool>
    var script: seq<Event>
    var log: Log
    var bodies: seq<seq<byte>>   // what each POST carried

    ghost predicate Valid()
      reads this
    {
      && delivered.Length == |lines| == poison.Length && delivered != poison
      && BodiesMatch()
    }

    /** Each POST carried the lines of its range. */
    ghost predicate BodiesMatch()
      reads this
    {
      && |bodies| == |log.posts|
      && forall k :: 0 <= k < |bodies| ==>
           var p := log.posts[k]; p.lo + p.count <= |lines| && bodies[k] == Body(lines[p.lo..p.lo + p.count])
    }

    /** The flag arrays show these marks from lo on. */
    ghost predicate Shows(marks: seq<Mark>, lo: nat)
      requires delivered.Length == |lines| == poison.Length && lo + |marks| <= |lines|
      reads delivered, poison
    {
      forall i {:trigger delivered[i]} {:trigger poison[i]} :: lo <= i < lo + |marks| ==>
        delivered[i] == (marks[i - lo] == Delivered) && poison[i] == marks[i - lo].Poisoned?
    }

    constructor (lines: seq<Line>, delivered: array<bool>, poison: array<bool>, script: seq<Event>)
      requires delivered.Length == |lines| == poison.Length && delivered != poison
      ensures Valid() && this.lines == lines && this.delivered == delivered && this.poison == poison
      ensures this.script == script && log == Log([], [], Tally(0, 0, 0))
    {
      this.lines, this.delivered, this.poison, this.script := lines, delivered, poison, script;
      log, bodies := Log([], [], Tally(0, 0, 0)), [];
    }

    /** One POST of the range, whose answer is the next event. */
    method PostOnce(lo: nat, count: nat) returns (status: int)
      requires Valid() && lo + count <= |lines| && !Stopped(script) && script[0].Reply?
      modifies this`log, this`bodies, this`script
      ensures Valid() && status == old(script)[0].status && script == old(script)[1..]
      ensures log == old(log).(posts := old(log).posts + [Post(lo, count, status)])
    {
      var body := BuildBody(lines[lo..lo + count]);
      status := script[0].status;
      script := script[1..];
      log := log.(posts := log.posts + [Post(lo, count, status)]);
      bodies := bodies + [body];
    }

    method Count(t: Tally)
      requires Valid()
      modifies this`log
      ensures Valid() && log == old(log).(tally := Plus(old(log).tally, t))
    {
      log := log.(tally := Plus(log.tally, t));
    }

    /** The retry loop of send_range: it ends with a stop, before any further POST, or with the first
        final answer. The whole call amounts to what has been logged and a call on `last`. */
    method RetryLoop(lo: nat, count: nat, initial: real) returns (stopped: bool, status: int, backoff: real, ghost last: seq<Event>)
      requires Valid() && lo + count <= |lines| && count > 0
      modifies this`log, this`bodies, this`script
      ensures Valid()
      ensures stopped ==> last == script && Stopped(script)
      ensures !stopped ==> !Retryable(status) && last == [Reply(status)] + script
                           && log.posts != [] && log.posts[|log.posts| - 1] == Post(lo, count, status)
      ensures var o, r := Send(old(script), lo, count, initial), Send(last, lo, count, backoff);
              && o.marks == r.marks && o.rest == r.rest
              && After(old(log), o) == After(if stopped then log else log.(posts := log.posts[..|log.posts| - 1]), r)
    {
      hide Send;
      hide After;
      backoff := initial;
      ghost var goal := Send(script, lo, count, initial);
      while true
        invariant Valid()
        invariant goal.marks == Send(script, lo, count, backoff).marks && goal.rest == Send(script, lo, count, backoff).rest
        invariant After(old(log), goal) == After(log, Send(script, lo, count, backoff))
        decreases |script|
      {
        if Stopped(script) {
          return true, 0, backoff, script;
        }
        SendTurns(script, lo, count, backoff);
        ghost var r := Send(script[1..], lo, count, NextBackoff(backoff));
        if script[0] == NoMemory {
          AfterTurn(log, [], [backoff], Tally(0, 1, 0), r);
          log := Log(log.posts + [], log.waits + [backoff], Plus(log.tally, Tally(0, 1, 0)));
          script := script[1..];
          backoff := NextBackoff(backoff);
          continue;
        }
        ghost var before, log1 := script, log;
        status := PostOnce(lo, count);
        if Retryable(status) {
          AfterTurn(log1, [Post(lo, count, status)], [backoff], Tally(0, 1, 1), r);
          log := log.(waits := log.waits + [backoff], tally := Plus(log.tally, Tally(0, 1, 1)));
          backoff := NextBackoff(backoff);
          continue;
        }
        assert [Reply(status)] + script == before;
        assert log.(posts := log.posts[..|log.posts| - 1]) == log1;
        return false, status, backoff, before;
      }
    }

    /** send_range: a retry loop, then on a rejection the halves in turn. */
    method SendRange(lo: nat, count: nat, initial: real)
      requires Valid() && lo + count <= |lines|
      requires forall i :: lo <= i < lo + count ==> !delivered[i] && !poison[i]
      modifies this`log, this`bodies, this`script, delivered, poison
      ensures Valid()
      ensures var o := Send(old(script), lo, count, initial);
              && |o.marks| == count && Shows(o.marks, lo)
              && script == o.rest && log == After(old(log), o)
      ensures forall i :: 0 <= i < |lines| && !(lo <= i < lo + count) ==>
                delivered[i] == old(delivered[i]) && poison[i] == old(poison[i])
      decreases count
    {
      hide Send;
      hide After;
      hide BodiesMatch;
      hide Accepts;
      if count == 0 {
        SendNothing(script, lo, initial, log);
        return;
      }
      var stopped, status, backoff, last := RetryLoop(lo, count, initial);
      SendShape(last, lo, count, backoff);
      if stopped {
        SendStops(last, lo, count, backoff, log);
        return;
      }
      ghost var log1 := log.(posts := log.posts[..|log.posts| - 1]);
      assert last[1..] == script && log.posts == log1.posts + [Post(lo, count, status)];
      SendEnds(last, lo, count, backoff, log1);
      if Accepts(status) {
        Count(Tally(count, 0, 0));
        MarkDelivered(lo, count);
        return;
      }
      Count(Tally(0, 0, 1));
      if count == 1 {
        poison[lo] := true;
        return;
      }
      assert Rejects(status);
      RejectBisects(last, lo, count, backoff, log1, log);
      Bisect(lo, count, backoff);
    }

    lemma RejectBisects(last: seq<Event>, lo: nat, count: nat, backoff: real, log1: Log, log2: Log)
      requires count > 1 && !Stopped(last) && last[0].Reply? && Rejects(last[0].status)
      requires log2 == Log(log1.posts + [Post(lo, count, last[0].status)], log1.waits, Plus(log1.tally, Tally(0, 0, 1)))
      ensures var mid := count / 2;
              var a := Send(last[1..], lo, mid, backoff);
              var b := Send(a.rest, lo + mid, count - mid, backoff);
              var o := Send(last, lo, count, backoff);
              o.marks == a.marks + b.marks && o.rest == b.rest && After(log1, o) == After(After(log2, a), b)
    {
      hide Send;
      SendBisects(last, lo, count, backoff);
      var a := Send(last[1..], lo, count / 2, backoff);
      AfterHalves(log1, Post(lo, count, last[0].status), a, Send(a.rest, lo + count / 2, count - count / 2, backoff));
      assert log1.waits + [] == log1.waits;
    }

    /** The two recursive calls of send_range. */
    method Bisect(lo: nat, count: nat, backoff: real)
      requires Valid() && lo + count <= |lines| && count > 1
      requires forall i :: lo <= i < lo + count ==> !delivered[i] && !poison[i]
      modifies this`log, this`bodies, this`script, delivered, poison
      ensures Valid()
      ensures var mid := count / 2;
              var a := Send(old(script), lo, mid, backoff);
              var b := Send(a.rest, lo + mid, count - mid, backoff);
              && |a.marks| == mid && |b.marks| == count - mid && Shows(a.marks + b.marks, lo)
              && script == b.rest && log == After(After(old(log), a), b)
      ensures forall i :: 0 <= i < |lines| && !(lo <= i < lo + count) ==>
                delivered[i] == old(delivered[i]) && poison[i] == old(poison[i])
      decreases count, 0
    {
      hide Send;
      hide After;
      var mid := count / 2;
      SendRange(lo, mid, backoff);
      SendRange(lo + mid, count - mid, backoff);
    }

    method MarkDelivered(lo: nat, count: nat)
      requires Valid() && lo + count <= |lines|
      modifies delivered
      ensures forall i :: 0 <= i < |lines| ==> delivered[i] == (lo <= i < lo + count || old(delivered[i]))
    {
      for i := 0 to count
        invariant forall k :: 0 <= k < |lines| ==> delivered[k] == (lo <= k < lo + i || old(delivered[k]))
      {
        delivered[lo + i] := true;
      }
    }

    /** cf_sink_http_deliver_batched: clears the flags and delivers the whole batch. */
    method DeliverBatched()
      requires Valid()
      modifies this`log, this`bodies, this`script, delivered, poison
      ensures Valid()
      ensures var o := Send(old(script), 0, |lines|, BACKOFF_INITIAL);
              && |o.marks| == |lines| && Shows(o.marks, 0)
              && script == o.rest && log == After(old(log), o)
    {
      for i := 0 to |lines|
        modifies delivered, poison
        invariant forall k :: 0 <= k < i ==> !delivered[k] && !poison[k]
      {
        delivered[i] := false;
        poison[i] := false;
      }
      if |lines| == 0 {
        SendNothing(script, 0, BACKOFF_INITIAL, log);
        return;
      }
      SendRange(0, |lines|, BACKOFF_INITIAL);
    }
  }
}
