/** The Redis producer thread (cf_redis_producer.c): batch, reconnect and retry once, loss accounting.
    Connection attempts, command formatting, replies, clocks, stop requests and the upstream producer
    are arbitrary inputs. */
module RedisProducer {
  import opened Modular

  /** What is queued; an invalid stream id has no stream name. */
  datatype Item = Item(validStream: bool, payload: seq<int>)

  /** What redisGetReply yields. A reply list that runs out is a lost connection. */
  datatype Reply = Done | ErrorReply | NoReply

  /** What happens to the k-th event popped, in order; Opened is a new connection. */
  datatype Wire = Opened | Sent(k: nat) | Stored(k: nat) | Refused(k: nat) | Lost(k: nat)

  datatype Totals = Totals(stored: nat, refused: nat, lost: nat)

  // ---------------------------------------------------------------- histories

  predicate Ends(w: Wire, k: nat) {
    (w.Stored? || w.Refused? || w.Lost?) && w.k == k
  }

  function Sends(wire: seq<Wire>, k: nat): (n: nat) {
    if wire == [] then 0
    else Sends(wire[..|wire| - 1], k) + if wire[|wire| - 1] == Sent(k) then 1 else 0
  }

  function Endings(wire: seq<Wire>, k: nat): (n: nat) {
    if wire == [] then 0
    else Endings(wire[..|wire| - 1], k) + if Ends(wire[|wire| - 1], k) then 1 else 0
  }

  function Count(wire: seq<Wire>): (t: Totals) {
    if wire == [] then Totals(0, 0, 0)
    else
      var t := Count(wire[..|wire| - 1]);
      match wire[|wire| - 1]
      case Stored(_) => t.(stored := t.stored + 1)
      case Refused(_) => t.(refused := t.refused + 1)
      case Lost(_) => t.(lost := t.lost + 1)
      case _ => t
  }

  /** The event last sent on the current connection, -1 before any. */
  function LastSent(wire: seq<Wire>): (k: int) {
    if wire == [] || wire[|wire| - 1].Opened? then -1
    else if wire[|wire| - 1].Sent? then wire[|wire| - 1].k
    else LastSent(wire[..|wire| - 1])
  }

  /** Each connection carries events in the order they were popped, none of them twice, and an event
      whose fate is known is never sent again. */
  ghost predicate Orderly(wire: seq<Wire>) {
    forall j :: 0 <= j < |wire| && wire[j].Sent? ==>
      LastSent(wire[..j]) < wire[j].k && Endings(wire[..j], wire[j].k) == 0
  }

  ghost predicate Increasing(ks: seq<nat>) {
    forall i, j :: 0 <= i < j < |ks| ==> ks[i] < ks[j]
  }

  /** After n pops, with the events in live still undecided: every other event has exactly one fate,
      and no event was sent more than twice. */
  ghost predicate Tracked(wire: seq<Wire>, n: nat, live: seq<nat>) {
    && Orderly(wire)
    && LastSent(wire) < n
    && Increasing(live) && (forall k :: k in live ==> k < n)
    && (forall k: nat :: k < n ==> Endings(wire, k) == if k in live then 0 else 1)
    && (forall k: nat :: Sends(wire, k) <= if k < n then 2 else 0)
    && (forall k: nat :: k >= n ==> Endings(wire, k) == 0)
    && Count(wire).stored + Count(wire).refused + Count(wire).lost + |live| == n
  }

  ghost predicate SentOnce(wire: seq<Wire>, ks: seq<nat>) {
    forall k :: k in ks ==> Sends(wire, k) == 1
  }

  lemma OneMore(wire: seq<Wire>, w: Wire)
    ensures forall k: nat :: Sends(wire + [w], k) == Sends(wire, k) + if w == Sent(k) then 1 else 0
    ensures forall k: nat :: Endings(wire + [w], k) == Endings(wire, k) + if Ends(w, k) then 1 else 0
    ensures LastSent(wire + [w]) == if w.Opened? then -1 else if w.Sent? then w.k else LastSent(wire)
    ensures var t := Count(wire);
            Count(wire + [w]) == match w {
              case Stored(_) => t.(stored := t.stored + 1)
              case Refused(_) => t.(refused := t.refused + 1)
              case Lost(_) => t.(lost := t.lost + 1)
              case _ => t
            }
  {
    assert (wire + [w])[..|wire|] == wire;
  }

  lemma OrderlyStep(wire: seq<Wire>, w: Wire)
    requires Orderly(wire) && (w.Sent? ==> LastSent(wire) < w.k && Endings(wire, w.k) == 0)
    ensures Orderly(wire + [w])
  {
    hide LastSent;
    hide Endings;
    var all := wire + [w];
    forall j | 0 <= j < |all| && all[j].Sent?
      ensures LastSent(all[..j]) < all[j].k && Endings(all[..j], all[j].k) == 0
    {
      if j < |wire| {
        assert all[..j] == wire[..j];
      } else {
        assert all[..j] == wire;
      }
    }
  }

  lemma {:induction false} LastSentSince(wire: seq<Wire>, i: nat, j: nat)
    requires Orderly(wire) && i < j <= |wire| && wire[i].Sent?
    requires forall o :: i < o < j ==> !wire[o].Opened?
    ensures LastSent(wire[..j]) >= wire[i].k
  {
    assert wire[..j][..j - 1] == wire[..j - 1];
    if i < j - 1 {
      LastSentSince(wire, i, j - 1);
    }
  }

  /** On one connection, events go out in the order they were popped and never twice. */
  lemma {:induction false} SameConnectionKeepsOrder(wire: seq<Wire>, i: nat, j: nat)
    requires Orderly(wire) && i < j < |wire| && wire[i].Sent? && wire[j].Sent?
    requires forall o :: i < o < j ==> !wire[o].Opened?
    ensures wire[i].k < wire[j].k
  {
    LastSentSince(wire, i, j);
  }

  lemma {:induction false} EndingSeen(wire: seq<Wire>, i: nat, k: nat)
    requires i < |wire| && Ends(wire[i], k)
    ensures Endings(wire, k) > 0
  {
    if i < |wire| - 1 {
      EndingSeen(wire[..|wire| - 1], i, k);
    }
  }

  /** An event that was acknowledged, refused or counted as lost is never sent again. */
  lemma {:induction false} DecidedNeverResent(wire: seq<Wire>, i: nat, j: nat, k: nat)
    requires Orderly(wire) && i < j < |wire| && Ends(wire[i], k)
    ensures wire[j] != Sent(k)
  {
    EndingSeen(wire[..j], i, k);
  }

  lemma StillSentOnce(was: seq<Wire>, wire: seq<Wire>, ks: seq<nat>, d: nat)
    requires SentOnce(was, ks) && d <= |ks| && SentAlike(was, wire)
    ensures SentOnce(wire, ks[d..])
  {
    assert forall k :: k in ks[d..] ==> k in ks;
  }

  lemma NoneSentOnce(wire: seq<Wire>)
    ensures SentOnce(wire, [])
  {
  }

  lemma Conserved(wire: seq<Wire>, n: nat, live: seq<nat>)
    requires Tracked(wire, n, live)
    ensures Count(wire).stored + Count(wire).refused + Count(wire).lost + |live| == n
  {
  }

  lemma PopAndSend(wire: seq<Wire>, n: nat, live: seq<nat>)
    requires Tracked(wire, n, live) && SentOnce(wire, live)
    ensures Tracked(wire + [Sent(n)], n + 1, live + [n]) && SentOnce(wire + [Sent(n)], live + [n])
  {
    hide Orderly;
    hide Sends;
    hide Endings;
    hide LastSent;
    hide Count;
    OneMore(wire, Sent(n));
    OrderlyStep(wire, Sent(n));
    var more := live + [n];
    assert more[|live|] == n && n in more;
    forall i, j | 0 <= i < j < |more| ensures more[i] < more[j] {
      assert live[i] in live;
    }
    assert forall k :: k in more <==> k in live || k == n;
  }

  lemma PopAndLose(wire: seq<Wire>, n: nat, live: seq<nat>)
    requires Tracked(wire, n, live) && SentOnce(wire, live)
    ensures Tracked(wire + [Lost(n)], n + 1, live) && SentOnce(wire + [Lost(n)], live)
  {
    hide Orderly;
    hide Sends;
    hide Endings;
    hide LastSent;
    hide Count;
    OneMore(wire, Lost(n));
    OrderlyStep(wire, Lost(n));
  }

  /** An event popped without being counted stays undecided. */
  lemma PopUnseen(wire: seq<Wire>, n: nat, live: seq<nat>)
    requires Tracked(wire, n, live)
    ensures Tracked(wire, n + 1, live + [n])
  {
    hide Orderly;
    hide Sends;
    hide Endings;
    hide LastSent;
    hide Count;
    var more := live + [n];
    assert more[|live|] == n && n in more;
    forall i, j | 0 <= i < j < |more| ensures more[i] < more[j] {
      assert live[i] in live;
    }
    assert forall k :: k in more <==> k in live || k == n;
  }

  lemma FirstLeaves(live: seq<nat>)
    requires live != [] && Increasing(live)
    ensures Increasing(live[1..]) && forall k :: k in live[1..] <==> k in live && k != live[0]
  {
    var rest := live[1..];
    forall i, j | 0 <= i < j < |rest| ensures rest[i] < rest[j] {
      assert live[i + 1] < live[j + 1];
    }
    forall k | k in rest ensures live[0] < k {
      var i :| 0 <= i < |rest| && rest[i] == k;
      assert live[i + 1] == rest[i];
    }
    assert live == [live[0]] + rest;
  }

  lemma Finish(wire: seq<Wire>, n: nat, live: seq<nat>, w: Wire)
    requires Tracked(wire, n, live) && live != [] && Ends(w, live[0])
    ensures Tracked(wire + [w], n, live[1..])
    ensures LastSent(wire + [w]) == LastSent(wire)
    ensures forall k: nat :: Sends(wire + [w], k) == Sends(wire, k)
  {
    hide Orderly;
    hide Sends;
    hide Endings;
    hide LastSent;
    hide Count;
    hide Increasing;
    OneMore(wire, w);
    OrderlyStep(wire, w);
    FirstLeaves(live);
    assert live[0] in live;
  }

  lemma Reopen(wire: seq<Wire>, n: nat, live: seq<nat>)
    requires Tracked(wire, n, live)
    ensures Tracked(wire + [Opened], n, live) && LastSent(wire + [Opened]) == -1
    ensures forall k: nat :: Sends(wire + [Opened], k) == Sends(wire, k)
  {
    hide Orderly;
    hide Sends;
    hide Endings;
    hide LastSent;
    hide Count;
    OneMore(wire, Opened);
    OrderlyStep(wire, Opened);
  }

  lemma Resend(wire: seq<Wire>, n: nat, live: seq<nat>, k: nat)
    requires Tracked(wire, n, live) && k in live && Sends(wire, k) == 1 && LastSent(wire) < k
    ensures Tracked(wire + [Sent(k)], n, live) && LastSent(wire + [Sent(k)]) == k
    ensures forall j: nat :: j != k ==> Sends(wire + [Sent(k)], j) == Sends(wire, j)
  {
    hide Orderly;
    hide Sends;
    hide Endings;
    hide LastSent;
    hide Count;
    OneMore(wire, Sent(k));
    OrderlyStep(wire, Sent(k));
  }

  /** How many of the next n replies arrive before the connection fails, if it does. */
  function Arrived(replies: seq<Reply>, n: nat): (k: nat)
    ensures k <= n && k <= |replies|
    ensures forall i :: 0 <= i < k ==> !replies[i].NoReply?
    ensures k < n && k < |replies| ==> replies[k].NoReply?
  {
    if n == 0 || replies == [] || replies[0].NoReply? then 0 else 1 + Arrived(replies[1..], n - 1)
  }

  /** What is left after n replies were asked for; a missing one is used up too. */
  function Unread(replies: seq<Reply>, n: nat): (rest: seq<Reply>) {
    var k := Arrived(replies, n);
    if k < n && k < |replies| then replies[k + 1..] else replies[k..]
  }

  lemma NoReplyAsked(replies: seq<Reply>)
    ensures Arrived(replies, 0) == 0 && Unread(replies, 0) == replies
  {
  }

  /** After d of n replies have been read, `left` is what is still to come. */
  ghost predicate Reading(replies: seq<Reply>, n: nat, d: nat, left: seq<Reply>) {
    && d <= n && d <= |replies| && left == replies[d..]
    && d + Arrived(left, n - d) == Arrived(replies, n) && Unread(left, n - d) == Unread(replies, n)
  }

  lemma NoneRead(replies: seq<Reply>, n: nat)
    ensures Reading(replies, n, 0, replies)
  {
  }

  lemma NextReply(replies: seq<Reply>, n: nat, d: nat, left: seq<Reply>)
    requires Reading(replies, n, d, left) && d < n
    ensures if left == [] || left[0].NoReply?
            then Arrived(replies, n) == d && Unread(replies, n) == if left == [] then [] else left[1..]
            else d < |replies| && replies[d] == left[0] && Reading(replies, n, d + 1, left[1..])
  {
  }

  lemma AllRead(replies: seq<Reply>, n: nat, left: seq<Reply>)
    requires Reading(replies, n, n, left)
    ensures Arrived(replies, n) == n && Unread(replies, n) == left
  {
  }

  /** Missing replies are more than `gap` replies apart. */
  ghost predicate Spaced(replies: seq<Reply>, gap: nat) {
    forall i, j :: 0 <= i < j < |replies| && replies[i].NoReply? && replies[j].NoReply? ==> j - i > gap
  }

  /** When missing replies are spaced, a batch that met one is answered on the second try, unless
      the replies run out. */
  lemma RetrySucceeds(replies: seq<Reply>, gap: nat, n: nat)
    requires Spaced(replies, gap) && n <= gap
    ensures Spaced(Unread(replies, n), gap)
    ensures var k := Arrived(replies, n);
            var rest := Unread(replies, n);
            k < n && Arrived(rest, n - k) < n - k ==> Unread(rest, n - k) == []
  {
    var k := Arrived(replies, n);
    var rest := Unread(replies, n);
    if k < n && k < |replies| {
      var m := Arrived(rest, n - k);
      assert m < |rest| ==> rest[m] == replies[k + 1 + m];
    }
  }

  /** What a flush of n events leaves of spaced replies, when the retry resends them all. */
  lemma FlushKeepsSpaced(replies: seq<Reply>, gap: nat, n: nat)
    requires Spaced(replies, gap) && n <= gap
    ensures var k, rest := Arrived(replies, n), Unread(replies, n);
            && Spaced(rest, gap) && Spaced(Unread(rest, n - k), gap)
            && (k < n && Arrived(rest, n - k) < n - k ==> Unread(rest, n - k) == [])
            && Unread(rest, 0) == rest
            && (replies == [] ==> rest == [])
  {
    hide Unread;
    hide Arrived;
    hide Spaced;
    RetrySucceeds(replies, gap, n);
    StillSpaced(Unread(replies, n), gap, n - Arrived(replies, n));
    NoReplyAsked(Unread(replies, n));
    NoneUnread(n);
  }

  lemma NoneUnread(n: nat)
    ensures Unread([], n) == []
  {
  }

  lemma StillSpaced(replies: seq<Reply>, gap: nat, n: nat)
    requires Spaced(replies, gap)
    ensures Spaced(Unread(replies, n), gap)
  {
  }

  /** What n replies say about the first n undecided events. */
  function Outcomes(live: seq<nat>, replies: seq<Reply>, n: nat): (s: seq<Wire>)
    requires n <= |live| && n <= |replies|
    ensures |s| == n
  {
    if n == 0 then []
    else Outcomes(live, replies, n - 1)
         + [if replies[n - 1].ErrorReply? then Refused(live[n - 1]) else Stored(live[n - 1])]
  }

  /** An error reply refuses its event, any other reply acknowledges it. */
  lemma {:induction false} OutcomeByReply(live: seq<nat>, replies: seq<Reply>, n: nat, i: nat)
    requires i < n && n <= |live| && n <= |replies|
    ensures Outcomes(live, replies, n)[i] == if replies[i] == ErrorReply then Refused(live[i]) else Stored(live[i])
  {
    if i < n - 1 {
      OutcomeByReply(live, replies, n - 1, i);
    }
  }

  function Resent(live: seq<nat>): (s: seq<Wire>)
    ensures |s| == |live|
  {
    seq(|live|, i requires 0 <= i < |live| => Sent(live[i]))
  }

  function Losses(live: seq<nat>): (s: seq<Wire>)
    ensures |s| == |live|
  {
    seq(|live|, i requires 0 <= i < |live| => Lost(live[i]))
  }

  /** A retry on a new connection: the tail is sent again as far as it can be, the replies decide what
      they reach, and the rest is lost. */
  function Retried(wire: seq<Wire>, tail: seq<nat>, replies: seq<Reply>, appended: nat, answered: nat): (s: seq<Wire>)
    requires answered <= appended <= |tail| && answered <= |replies|
    ensures |s| == |wire| + 1 + appended + |tail|
  {
    wire + [Opened] + Resent(tail[..appended]) + Outcomes(tail, replies, answered) + Losses(tail[answered..])
  }

  lemma NoOutcomes(live: seq<nat>, replies: seq<Reply>)
    ensures Outcomes(live, replies, 0) == []
  {
  }

  /** Nothing more was sent. */
  ghost predicate SentAlike(was: seq<Wire>, wire: seq<Wire>) {
    LastSent(wire) == LastSent(was) && forall k: nat :: Sends(wire, k) == Sends(was, k)
  }

  lemma SentAlikeSelf(wire: seq<Wire>)
    ensures SentAlike(wire, wire)
  {
  }

  lemma NextOutcome(was: seq<Wire>, n: nat, live: seq<nat>, replies: seq<Reply>, d: nat)
    requires d < |live| && d < |replies|
    requires var wire := was + Outcomes(live, replies, d); Tracked(wire, n, live[d..]) && SentAlike(was, wire)
    ensures var wire, next := was + Outcomes(live, replies, d), was + Outcomes(live, replies, d + 1);
            var w := if replies[d].ErrorReply? then Refused(live[d]) else Stored(live[d]);
            && next == wire + [w] && Tracked(next, n, live[d + 1..])
            && SentAlike(was, next)
            && Count(next) == if replies[d].ErrorReply? then Count(wire).(refused := Count(wire).refused + 1)
                              else Count(wire).(stored := Count(wire).stored + 1)
  {
    hide Tracked;
    hide Sends;
    hide LastSent;
    hide Count;
    var wire := was + Outcomes(live, replies, d);
    var w := if replies[d].ErrorReply? then Refused(live[d]) else Stored(live[d]);
    assert was + Outcomes(live, replies, d + 1) == wire + [w];
    assert live[d..][1..] == live[d + 1..];
    Finish(wire, n, live[d..], w);
    OneMore(wire, w);
  }

  lemma LossesSoFar(live: seq<nat>, d: nat)
    requires d <= |live|
    ensures d == 0 ==> Losses(live[..d]) == []
    ensures d < |live| ==> Losses(live[..d + 1]) == Losses(live[..d]) + [Lost(live[d])]
  {
  }

  lemma NextLoss(was: seq<Wire>, n: nat, live: seq<nat>, d: nat)
    requires d < |live| && Tracked(was + Losses(live[..d]), n, live[d..])
    ensures var wire, next := was + Losses(live[..d]), was + Losses(live[..d + 1]);
            && Tracked(next, n, live[d + 1..])
            && Count(next) == Count(wire).(lost := Count(wire).lost + 1)
  {
    hide Tracked;
    hide Count;
    hide Losses;
    var wire := was + Losses(live[..d]);
    LossesSoFar(live, d);
    assert was + Losses(live[..d + 1]) == wire + [Lost(live[d])];
    assert live[d..][1..] == live[d + 1..];
    Finish(wire, n, live[d..], Lost(live[d]));
    OneMore(wire, Lost(live[d]));
  }

  /** The events in flight are the ones popped at these positions. */
  ghost predicate TagsMatch(tags: seq<nat>, inflight: seq<Item>, popped: seq<Item>) {
    |tags| == |inflight| && forall i :: 0 <= i < |tags| ==> tags[i] < |popped| && popped[tags[i]] == inflight[i]
  }

  lemma TagsMatchMore(tags: seq<nat>, inflight: seq<Item>, popped: seq<Item>, item: Item)
    requires TagsMatch(tags, inflight, popped)
    ensures TagsMatch(tags + [|popped|], inflight + [item], popped + [item])
    ensures TagsMatch(tags, inflight, popped + [item])
  {
  }

  ghost predicate FirstAnswer(attempts: seq<bool>, i: nat) {
    i < |attempts| && attempts[i] && forall j :: 0 <= j < i ==> !attempts[j]
  }

  /** The first attempt that succeeds is made before the checks run out. */
  ghost predicate Answers(attempts: seq<bool>, endpointCount: nat, patience: nat)
    requires endpointCount > 0
  {
    exists i: nat :: FirstAnswer(attempts, i) && i + i / endpointCount < patience
  }

  /** The attempts and the checks that remain after the first success. */
  ghost predicate Remains(attempts: seq<bool>, endpointCount: nat, patience: nat, left: seq<bool>, spare: nat)
    requires endpointCount > 0
  {
    exists i: nat :: FirstAnswer(attempts, i) && left == attempts[i + 1..] && spare == patience - i - i / endpointCount - 1
  }

  /** What connect_with_backoff does to the attempts and the checks, and whether it comes back with a
      connection: exactly when the first success is made in time. */
  ghost predicate Reconnection(attempts: seq<bool>, endpointCount: nat, patience: nat, left: seq<bool>, spare: nat, up: bool)
    requires endpointCount > 0
  {
    && (up <==> Answers(attempts, endpointCount, patience))
    && (if up then Remains(attempts, endpointCount, patience, left, spare)
        else spare == 0 && (patience == 0 ==> left == attempts))
  }

  /** The first i attempts, which are c cycles and `tries` more, have all failed. */
  ghost predicate AllRefused(attempts: seq<bool>, left: seq<bool>, n: nat, i: nat, c: nat, tries: nat) {
    && i == n * c + tries
    && (forall j :: 0 <= j < i && j < |attempts| ==> !attempts[j])
    && left == if i <= |attempts| then attempts[i..] else []
  }

  lemma NothingTried(attempts: seq<bool>, n: nat)
    ensures AllRefused(attempts, attempts, n, 0, 0, 0)
  {
  }

  lemma OneTried(attempts: seq<bool>, left: seq<bool>, n: nat, i: nat, c: nat, tries: nat, patience: nat)
    requires AllRefused(attempts, left, n, i, c, tries) && tries < n && i + c < patience
    ensures if left != [] && left[0]
            then Answers(attempts, n, patience) && Remains(attempts, n, patience, left[1..], patience - i - c - 1)
            else AllRefused(attempts, if left == [] then [] else left[1..], n, i + 1, c, tries + 1)
  {
    DivUnique(i, n, c, tries);
    if left != [] && left[0] {
      assert FirstAnswer(attempts, i);
    }
  }

  lemma CycleTried(attempts: seq<bool>, left: seq<bool>, n: nat, i: nat, c: nat)
    requires AllRefused(attempts, left, n, i, c, n)
    ensures AllRefused(attempts, left, n, i, c + 1, 0)
  {
  }

  lemma NoAnswerInTime(attempts: seq<bool>, left: seq<bool>, n: nat, i: nat, c: nat, tries: nat)
    requires n > 0 && AllRefused(attempts, left, n, i, c, tries) && tries <= n
    ensures !Answers(attempts, n, i + c)
  {
    if tries == n {
      DivUnique(i, n, c + 1, 0);
    } else {
      DivUnique(i, n, c, tries);
    }
    forall k: nat | FirstAnswer(attempts, k) ensures k + k / n >= i + c {
      DivMonotone(i, k, n);
    }
  }

  predicate AllValid(items: seq<Item>) {
    forall i :: 0 <= i < |items| ==> items[i].validStream
  }

  lemma ValidAfter(item: Item, items: seq<Item>)
    ensures AllValid([item] + items) <==> item.validStream && AllValid(items)
  {
    if AllValid([item] + items) {
      assert ([item] + items)[0] == item;
      assert forall i :: 0 <= i < |items| ==> items[i] == ([item] + items)[i + 1];
    }
  }

  lemma ValidFrom(items: seq<Item>, d: nat)
    requires AllValid(items) && d <= |items|
    ensures AllValid(items[d..])
  {
  }

  lemma ValidBefore(items: seq<Item>, item: Item)
    ensures AllValid(items + [item]) <==> AllValid(items) && item.validStream
  {
    if AllValid(items + [item]) {
      assert (items + [item])[|items|] == item;
      forall i | 0 <= i < |items| ensures items[i].validStream {
        assert (items + [item])[i] == items[i];
      }
    }
  }

  function Flat(arrivals: seq<seq<Item>>): (items: seq<Item>) {
    if arrivals == [] then [] else arrivals[0] + Flat(arrivals[1..])
  }

  predicate AllUp(attempts: seq<bool>) {
    forall i :: 0 <= i < |attempts| ==> attempts[i]
  }

  /** Enough for the events to come and the events in flight: two replies for each, the missing ones
      further apart than a batch, and a connection attempt for each, all of which succeed. */
  ghost predicate Supply(replies: seq<Reply>, attempts: seq<bool>, toCome: nat, flight: nat, ctx: bool, gap: nat) {
    && Spaced(replies, gap) && |replies| > 2 * (toCome + flight)
    && AllUp(attempts) && |attempts| >= toCome + flight + if ctx then 0 else 1
  }

  lemma SupplyConnects(replies: seq<Reply>, attempts: seq<bool>, toCome: nat, flight: nat, gap: nat,
                       n: nat, patience: nat, left: seq<bool>, spare: nat, up: bool)
    requires Supply(replies, attempts, toCome, flight, false, gap) && n > 0
    requires Reconnection(attempts, n, patience, left, spare, up)
    ensures up == (patience > 0) && spare == (if up then patience - 1 else 0)
    ensures Supply(replies, left, toCome, flight, up, gap)
  {
    FirstIsUp(attempts, n, patience, left, spare, up);
  }

  /** With attempts that all succeed, the first one does. */
  lemma FirstIsUp(attempts: seq<bool>, n: nat, patience: nat, left: seq<bool>, spare: nat, up: bool)
    requires AllUp(attempts) && attempts != [] && n > 0 && Reconnection(attempts, n, patience, left, spare, up)
    ensures up == (patience > 0) && left == (if up then attempts[1..] else attempts) && spare == if up then patience - 1 else 0
  {
    assert FirstAnswer(attempts, 0) && 0 / n == 0;
    if up {
      var i: nat :| FirstAnswer(attempts, i) && left == attempts[i + 1..] && spare == patience - i - i / n - 1;
      assert i > 0 ==> attempts[0];
    }
  }

  /** A flush of all n events in flight: either everything is answered at once; or a reply is missing and
      a new connection gets all the rest; or there is no new connection. */
  lemma SupplyFlushes(replies: seq<Reply>, attempts: seq<bool>, toCome: nat, n: nat, gap: nat)
    requires Supply(replies, attempts, toCome, n, true, gap) && 0 < n <= gap
    ensures var k, rest := Arrived(replies, n), Unread(replies, n);
            && (k == n ==> Supply(rest, attempts, toCome, 0, true, gap))
            && (k < n ==> && attempts != [] && Supply(Unread(rest, n - k), attempts[1..], toCome, 0, true, gap)
                          && Arrived(rest, n - k) == n - k && Supply(rest, attempts, toCome, 0, false, gap)
                          && Unread(rest, 0) == rest && Arrived(rest, 0) == 0)
  {
    var k, rest := Arrived(replies, n), Unread(replies, n);
    hide Spaced;
    hide Arrived;
    hide Unread;
    FlushKeepsSpaced(replies, gap, n);
    NoReplyAsked(rest);
    FewUsed(replies, n);
    FewUsed(rest, n - k);
  }

  /** What the flush makes of it: with a check to spare nothing is lost, and otherwise at most the batch. */
  lemma FlushFares(replies: seq<Reply>, attempts: seq<bool>, toCome: nat, n: nat, gap: nat, endpointCount: nat, patience: nat,
                   acked: nat, appended: nat, answered: nat, unread: seq<Reply>, left: seq<bool>, spare: nat, up: bool, ctx: bool)
    requires Supply(replies, attempts, toCome, n, true, gap) && 0 < n <= gap && endpointCount > 0
    requires acked == Arrived(replies, n)
    requires acked == n ==> answered == 0 && ctx && unread == Unread(replies, n) && left == attempts && spare == patience
    requires acked < n ==>
               && Reconnection(attempts, endpointCount, patience, left, spare, up)
               && appended == (if up then n - acked else 0) && ctx == (up && answered == appended)
               && answered == Arrived(Unread(replies, n), appended) && unread == Unread(Unread(replies, n), appended)
    ensures Supply(unread, left, toCome, 0, ctx, gap) && spare + 1 >= patience
    ensures acked + answered <= n && (patience > 0 ==> acked + answered == n)
    ensures acked + answered < n ==> spare == 0
  {
    hide Supply;
    hide Reconnection;
    hide Arrived;
    hide Unread;
    SupplyFlushes(replies, attempts, toCome, n, gap);
    AllSupplied(replies, attempts, toCome, n, true, gap);
    if acked < n {
      FirstIsUp(attempts, endpointCount, patience, left, spare, up);
    }
  }

  lemma SupplyMoves(replies: seq<Reply>, attempts: seq<bool>, toCome: nat, flight: nat, gap: nat)
    ensures Supply(replies, attempts, toCome + 1, flight, true, gap) <==> Supply(replies, attempts, toCome, flight + 1, true, gap)
  {
  }

  lemma AllSupplied(replies: seq<Reply>, attempts: seq<bool>, toCome: nat, flight: nat, ctx: bool, gap: nat)
    requires Supply(replies, attempts, toCome, flight, ctx, gap)
    ensures AllUp(attempts) && Spaced(replies, gap)
  {
  }

  lemma FewUsed(replies: seq<Reply>, n: nat)
    ensures var k := Arrived(replies, n);
            |Unread(replies, n)| == |replies| - k - if k < n && k < |replies| then 1 else 0
  {
  }

  // ---------------------------------------------------------------- the thread

  class Producer {
    const pipelineMax: nat
    const endpointCount: nat
    var queue: seq<Item>
    var inflight: seq<Item>
    var ctx: bool
    var xaddTotal: nat
    var xaddErrors: nat
    var eventsLost: nat
    var reconnects: nat

    var checks: nat               // stop checks before a stop is seen
    var budget: nat               // clock checks before the shutdown deadline has passed
    var attempts: seq<bool>       // connection attempts
    var appends: seq<bool>        // formatting of commands
    var replies: seq<Reply>
    var ticks: seq<bool>          // whether the flush interval has elapsed
    var arrivals: seq<seq<Item>>  // what the upstream pushes, one step per turn of the loop
    const burst: seq<Item>        // what it pushes while a late shutdown empties the queue

    ghost var pushed: seq<Item>
    ghost var popped: seq<Item>
    ghost var tags: seq<nat>      // which pops are in flight
    ghost var wire: seq<Wire>
    ghost var interrupted: bool   // a stop or the deadline has cut short the reconnect of a retry

    /** The counters agree with the history. */
    ghost predicate Counted()
      reads this`xaddTotal, this`xaddErrors, this`eventsLost, this`wire
    {
      Count(wire) == Totals(xaddTotal, xaddErrors, eventsLost)
    }

    ghost predicate Valid()
      reads this`queue, this`inflight, this`ctx, this`xaddTotal, this`xaddErrors, this`eventsLost
      reads this`pushed, this`popped, this`tags, this`wire
    {
      && pipelineMax > 0 && endpointCount > 0
      && pushed == popped + queue
      && |tags| == |inflight| <= pipelineMax
      && (!ctx ==> inflight == [])
      && AllValid(inflight)
      && TagsMatch(tags, inflight, popped)
      && Tracked(wire, |popped|, tags) && SentOnce(wire, tags)
      && Counted()
      && |popped| == xaddTotal + xaddErrors + eventsLost + |inflight|
    }

    /** As long as every event popped has a stream, and missing replies are rarer than batches,
        nothing more than start has been lost, unless the replies have run out, or a stop or the
        deadline has cut a retry short. */
    ghost predicate Unharmed(start: nat)
      reads this`popped, this`replies, this`appends, this`eventsLost, this`interrupted
    {
      AllValid(popped) ==>
        && Spaced(replies, pipelineMax) && appends == []
        && (eventsLost == start || replies == [] || interrupted)
    }

    /** The events still to be taken. */
    ghost function ToCome(): (items: seq<Item>)
      reads this`queue, this`arrivals
    {
      queue + Flat(arrivals)
    }

    /** No append fails, every event has a stream, and replies and connection attempts suffice. */
    ghost predicate Stocked()
      reads this`queue, this`arrivals, this`appends, this`replies, this`attempts, this`inflight, this`ctx
    {
      && appends == [] && AllValid(ToCome())
      && Supply(replies, attempts, |ToCome()|, |inflight|, ctx, pipelineMax)
    }

    /** Besides, the flush interval is under control and the shutdown deadline is far: three checks for
        everything that can still happen. */
    ghost predicate Calm()
      reads this`queue, this`arrivals, this`appends, this`replies, this`attempts, this`inflight, this`ctx, this`budget
    {
      && Stocked() && |inflight| < pipelineMax
      && budget > 3 * (|arrivals| + |ToCome()| + if inflight == [] then 0 else 1)
    }

    /** Nothing more will be flushed before a stop. */
    ghost predicate Quiet()
      reads this`queue, this`arrivals, this`inflight, this`ticks
    {
      arrivals == [] && queue == [] && (inflight == [] || ticks == [])
    }

    /** The stop is already seen, or comes after the traffic. */
    ghost predicate Unhurried()
      reads this`queue, this`arrivals, this`inflight, this`ticks, this`checks
    {
      checks == 0 || checks > 3 * (|arrivals| + |ToCome()| + |ticks|) || Quiet()
    }

    lemma Parts()
      requires Valid()
      ensures pipelineMax > 0 && endpointCount > 0 && pushed == popped + queue && |tags| == |inflight|
      ensures (!ctx ==> inflight == []) && AllValid(inflight) && |inflight| <= pipelineMax
      ensures Tracked(wire, |popped|, tags) && SentOnce(wire, tags) && Counted()
    {
    }

    lemma NothingInFlight()
      requires pipelineMax > 0 && endpointCount > 0 && pushed == popped + queue && inflight == [] && tags == []
      requires Tracked(wire, |popped|, []) && Counted()
      ensures Valid()
    {
      Conserved(wire, |popped|, []);
      NoneSentOnce(wire);
    }

    lemma Idle()
      requires Valid() && inflight == [] && queue == []
      ensures popped == pushed && Tracked(wire, |popped|, []) && Counted()
    {
    }

    lemma Balance(live: seq<nat>)
      requires Tracked(wire, |popped|, live) && Counted()
      ensures |popped| == xaddTotal + xaddErrors + eventsLost + |live|
    {
    }

    lemma NotYetHarmed()
      ensures appends == [] && Spaced(replies, pipelineMax) ==> Unharmed(eventsLost)
    {
    }

    lemma Harmless(start: nat)
      ensures Unharmed(start) && AllValid(popped) && replies != [] && !interrupted ==> eventsLost == start
    {
    }

    constructor (pipelineMax: nat, endpointCount: nat, queue: seq<Item>, checks: nat, budget: nat,
                 attempts: seq<bool>, appends: seq<bool>, replies: seq<Reply>, ticks: seq<bool>,
                 arrivals: seq<seq<Item>>, burst: seq<Item>)
      requires pipelineMax > 0 && endpointCount > 0
      ensures Valid() && !ctx && popped == [] && tags == [] && wire == [] && pushed == this.queue == queue
      ensures this.pipelineMax == pipelineMax && this.endpointCount == endpointCount && this.burst == burst
      ensures this.checks == checks && this.budget == budget && this.attempts == attempts
      ensures this.appends == appends && this.replies == replies && this.ticks == ticks && this.arrivals == arrivals
      ensures xaddTotal == xaddErrors == eventsLost == reconnects == 0 && inflight == [] && !interrupted
    {
      this.pipelineMax, this.endpointCount, this.queue, this.checks, this.budget := pipelineMax, endpointCount, queue, checks, budget;
      this.attempts, this.appends, this.replies, this.ticks := attempts, appends, replies, ticks;
      this.arrivals, this.burst := arrivals, burst;
      inflight, ctx, xaddTotal, xaddErrors, eventsLost, reconnects := [], false, 0, 0, 0, 0;
      pushed, popped, tags, wire, interrupted := queue, [], [], [], false;
    }

    method ShouldStop() returns (stop: bool)
      modifies this`checks
      ensures stop <==> old(checks) == 0
      ensures checks == if stop then 0 else old(checks) - 1
    {
      stop := checks == 0;
      if !stop {
        checks := checks - 1;
      }
    }

    method DeadlinePassed() returns (passed: bool)
      modifies this`budget
      ensures passed <==> old(budget) == 0
      ensures budget == if passed then 0 else old(budget) - 1
    {
      passed := budget == 0;
      if !passed {
        budget := budget - 1;
      }
    }

    /** How many more checks the loop in connect_with_backoff survives. */
    function Patience(stopping: bool): nat
      reads this`checks, this`budget
    {
      if stopping then budget else checks
    }

    method GiveUp(stopping: bool) returns (up: bool)
      modifies this`checks, this`budget
      ensures up <==> old(Patience(stopping)) == 0
      ensures Patience(stopping) == if up then 0 else old(Patience(stopping)) - 1
      ensures if stopping then checks == old(checks) else budget == old(budget)
    {
      if stopping {
        up := DeadlinePassed();
      } else {
        up := ShouldStop();
      }
    }

    /** connect_with_backoff: cycles through the endpoints until one answers, or until the deadline
        while stopping, or a stop request before. One check is spent on each attempt and one more on
        each full cycle. */
    method Connect(stopping: bool, countReconnect: bool)
      requires !ctx && endpointCount > 0
      modifies this`ctx, this`checks, this`budget, this`attempts, this`reconnects, this`wire
      ensures checks <= old(checks) && budget <= old(budget)
      ensures Reconnection(old(attempts), endpointCount, old(Patience(stopping)), attempts, Patience(stopping), ctx)
      ensures wire == if ctx then old(wire) + [Opened] else old(wire)
      ensures reconnects == old(reconnects) + if ctx && countReconnect then 1 else 0
      ensures if stopping then checks == old(checks) else budget == old(budget)
    {
      hide Answers;
      hide Remains;
      hide AllRefused;
      ghost var i: nat, c: nat, was, patience := 0, 0, attempts, Patience(stopping);
      NothingTried(was, endpointCount);
      while true
        invariant !ctx && wire == old(wire) && reconnects == old(reconnects)
        invariant checks <= old(checks) && budget <= old(budget)
        invariant Patience(stopping) == patience - i - c && AllRefused(was, attempts, endpointCount, i, c, 0)
        invariant if stopping then checks == old(checks) else budget == old(budget)
        invariant i == 0 ==> attempts == was
        decreases Patience(stopping)
      {
        var up;
        ghost var before := Patience(stopping);
        for tries := 0 to endpointCount
          invariant !ctx && wire == old(wire) && reconnects == old(reconnects)
          invariant checks <= old(checks) && budget <= old(budget)
          invariant Patience(stopping) == patience - i - c <= before
          invariant AllRefused(was, attempts, endpointCount, i, c, tries)
          invariant if stopping then checks == old(checks) else budget == old(budget)
          invariant i == 0 ==> attempts == was
        {
          up := GiveUp(stopping);
          if up {
            NoAnswerInTime(was, attempts, endpointCount, i, c, tries);
            return;
          }
          OneTried(was, attempts, endpointCount, i, c, tries, patience);
          var ok := attempts != [] && attempts[0];
          attempts := if attempts == [] then [] else attempts[1..];
          if ok {
            reconnects := reconnects + if countReconnect then 1 else 0;
            ctx := true;
            wire := wire + [Opened];
            return;
          }
          i := i + 1;
        }
        up := GiveUp(stopping);
        if up {
          NoAnswerInTime(was, attempts, endpointCount, i, c, endpointCount);
          return;
        }
        CycleTried(was, attempts, endpointCount, i, c);
        c := c + 1;
      }
    }

    /** append_xadd: the command is formatted, not yet sent to the socket. */
    method AppendXadd(item: Item) returns (ok: bool)
      modifies this`appends
      ensures ok <==> ctx && item.validStream && (old(appends) == [] || old(appends)[0])
      ensures appends == old(appends) || (old(appends) != [] && appends == old(appends)[1..])
    {
      if !ctx || !item.validStream {
        return false;
      }
      ok := appends == [] || appends[0];
      appends := if appends == [] then [] else appends[1..];
    }

    /** flush_pipeline: reads up to count replies and stops at a lost connection. */
    method FlushPipeline(count: nat, ghost live: seq<nat>) returns (drained: nat, ioError: bool)
      requires count <= |live| && Tracked(wire, |popped|, live) && Counted()
      modifies this`xaddTotal, this`xaddErrors, this`replies, this`wire
      ensures drained == Arrived(old(replies), count) && replies == Unread(old(replies), count)
      ensures ioError <==> drained < count
      ensures wire == old(wire) + Outcomes(live, old(replies), drained)
      ensures Tracked(wire, |popped|, live[drained..]) && Counted()
      ensures SentAlike(old(wire), wire)
    {
      hide Tracked;
      hide Count;
      hide Outcomes;
      hide Arrived;
      hide Unread;
      hide SentAlike;
      hide Reading;
      SentAlikeSelf(wire);
      NoneRead(replies, count);
      assert live[0..] == live && wire + Outcomes(live, replies, 0) == wire by {
        NoOutcomes(live, replies);
      }
      drained, ioError := 0, false;
      while drained < count
        invariant drained <= count && drained <= |old(replies)| && Reading(old(replies), count, drained, replies)
        invariant wire == old(wire) + Outcomes(live, old(replies), drained)
        invariant Tracked(wire, |popped|, live[drained..]) && Counted()
        invariant SentAlike(old(wire), wire)
      {
        NextReply(old(replies), count, drained, replies);
        if replies == [] || replies[0] == NoReply {
          replies := if replies == [] then [] else replies[1..];
          return drained, true;
        }
        NextOutcome(old(wire), |popped|, live, old(replies), drained);
        if replies[0].ErrorReply? {
          xaddErrors := xaddErrors + 1;
        } else {
          xaddTotal := xaddTotal + 1;
        }
        wire := old(wire) + Outcomes(live, old(replies), drained + 1);
        replies := replies[1..];
        drained := drained + 1;
      }
      AllRead(old(replies), count, replies);
    }

    /** Counts the first undecided events as lost. */
    method Lose(count: nat, ghost live: seq<nat>)
      requires count <= |live| && Tracked(wire, |popped|, live) && Counted()
      modifies this`eventsLost, this`wire
      ensures eventsLost == old(eventsLost) + count && wire == old(wire) + Losses(live[..count])
      ensures Tracked(wire, |popped|, live[count..]) && Counted()
    {
      hide Tracked;
      hide Count;
      hide Losses;
      eventsLost := eventsLost + count;
      LossesSoFar(live, 0);
      assert live[0..] == live && wire + Losses(live[..0]) == wire;
      ghost var i: nat := 0;
      while i < count
        invariant i <= count && Tracked(wire, |popped|, live[i..])
        invariant wire == old(wire) + Losses(live[..i])
        invariant Count(wire) == Totals(xaddTotal, xaddErrors, eventsLost - count + i)
      {
        NextLoss(old(wire), |popped|, live, i);
        wire := old(wire) + Losses(live[..i + 1]);
        i := i + 1;
      }
    }

    /** The unacknowledged tail is appended again, in order, until an append fails. */
    method RetryTail(tail: seq<Item>, ghost live: seq<nat>) returns (appended: nat)
      requires |tail| == |live| && Tracked(wire, |popped|, live) && SentOnce(wire, live)
      requires LastSent(wire) == -1
      modifies this`appends, this`wire
      ensures appended <= |tail| && wire == old(wire) + Resent(live[..appended])
      ensures Tracked(wire, |popped|, live)
      ensures Count(wire) == Count(old(wire)) && (old(appends) == [] ==> appends == [])
      ensures ctx && old(appends) == [] && AllValid(tail) ==> appended == |tail|
    {
      hide Sends;
      hide LastSent;
      hide Orderly;
      hide Endings;
      hide Count;
      appended := 0;
      while appended < |tail|
        invariant appended <= |tail| && wire == old(wire) + Resent(live[..appended])
        invariant Tracked(wire, |popped|, live) && Count(wire) == Count(old(wire))
        invariant forall j :: appended <= j < |live| ==> Sends(wire, live[j]) == 1
        invariant LastSent(wire) == if appended == 0 then -1 else live[appended - 1]
        invariant old(appends) == [] ==> appends == []
      {
        var ok := AppendXadd(tail[appended]);
        if !ok {
          return;
        }
        Resend(wire, |popped|, live, live[appended]);
        OneMore(wire, Sent(live[appended]));
        assert Resent(live[..appended + 1]) == Resent(live[..appended]) + [Sent(live[appended])];
        wire := wire + [Sent(live[appended])];
        appended := appended + 1;
      }
    }

    /** The second half of do_flush: reconnect, send the tail again once, count what is still
        unacknowledged as lost. */
    method Retry(tail: seq<Item>, ghost live: seq<nat>, stopping: bool) returns (ghost appended: nat, ghost answered: nat)
      requires !ctx && endpointCount > 0 && |tail| == |live|
      requires Tracked(wire, |popped|, live) && SentOnce(wire, live) && Counted()
      modifies this`ctx, this`checks, this`budget, this`attempts, this`reconnects, this`wire
      modifies this`appends, this`xaddTotal, this`xaddErrors, this`replies, this`eventsLost
      ensures checks <= old(checks) && budget <= old(budget)
      ensures Tracked(wire, |popped|, []) && Counted()
      ensures appended <= |live| && eventsLost == old(eventsLost) + (|live| - answered)
      ensures answered == Arrived(old(replies), appended) && replies == Unread(old(replies), appended)
      ensures old(appends) == [] ==> appends == []
      ensures if stopping then checks == old(checks) else budget == old(budget)
      ensures old(reconnects) <= reconnects <= old(reconnects) + 1
      ensures Reconnection(old(attempts), endpointCount, old(Patience(stopping)), attempts, Patience(stopping),
                           reconnects > old(reconnects))
      ensures reconnects == old(reconnects) ==> !ctx && appended == 0 && wire == old(wire) + Losses(live)
      ensures reconnects > old(reconnects) ==>
                && ctx == (answered == appended)
                && (old(appends) == [] && AllValid(tail) ==> appended == |live|)
                && wire == Retried(old(wire), live, old(replies), appended, answered)
    {
      hide Tracked;
      hide Count;
      hide Sends;
      hide Outcomes;
      hide Resent;
      hide Losses;
      hide LastSent;
      hide Remains;
      hide Reconnection;
      hide Arrived;
      hide Unread;
      appended, answered := 0, 0;
      Reopen(wire, |popped|, live);
      OneMore(wire, Opened);
      Connect(stopping, true);
      if !ctx {
        NoReplyAsked(replies);
        Lose(|tail|, live);
        assert live[..|tail|] == live && live[|tail|..] == [];
        return;
      }
      var sent := RetryTail(tail, live);
      appended := sent;
      var drained, ioError, lost := 0, false, |tail| - sent;
      NoOutcomes(live, replies);
      NoReplyAsked(replies);
      assert live[0..] == live && wire + [] == wire;
      if sent > 0 {
        drained, ioError := FlushPipeline(sent, live);
        answered := drained;
      }
      if ioError {
        ctx := false;
        lost := lost + (sent - drained);
      }
      if lost > 0 {
        Lose(lost, live[drained..]);
        assert live[drained..][..lost] == live[drained..] && live[drained..][lost..] == [];
      } else {
        assert live[drained..] == [] && Losses(live[drained..]) == [];
        assert wire + [] == wire;
      }
    }

    /** The part of do_flush behind an I/O error: the batch is emptied and its unacknowledged tail retried. */
    method RetryUnacked(drained: nat, stopping: bool) returns (ghost appended: nat, ghost answered: nat)
      requires pipelineMax > 0 && endpointCount > 0 && pushed == popped + queue
      requires |tags| == |inflight| && drained < |inflight| && AllValid(inflight)
      requires Tracked(wire, |popped|, tags[drained..]) && SentOnce(wire, tags[drained..]) && Counted()
      modifies this`inflight, this`ctx, this`checks, this`budget, this`attempts, this`reconnects, this`wire
      modifies this`appends, this`xaddTotal, this`xaddErrors, this`replies, this`eventsLost, this`tags, this`interrupted
      ensures Valid() && inflight == []
      ensures checks <= old(checks) && budget <= old(budget)
      ensures old(appends) == [] ==> appends == []
      ensures if stopping then checks == old(checks) else budget == old(budget)
      ensures old(reconnects) <= reconnects <= old(reconnects) + 1
      ensures Reconnection(old(attempts), endpointCount, old(Patience(stopping)), attempts, Patience(stopping),
                           reconnects > old(reconnects))
      ensures appended + drained <= |old(tags)| && eventsLost == old(eventsLost) + (|old(tags)| - drained - answered)
      ensures answered == Arrived(old(replies), appended) && replies == Unread(old(replies), appended)
      ensures var tail := old(tags)[drained..];
              if reconnects == old(reconnects)
              then !ctx && appended == 0 && wire == old(wire) + Losses(tail) && interrupted
              else && ctx == (answered == appended)
                   && interrupted == old(interrupted) && (old(appends) == [] ==> appended == |tail|)
                   && wire == Retried(old(wire), tail, old(replies), appended, answered)
    {
      hide *;
      ctx := false;
      var tail := inflight[drained..];
      ValidFrom(inflight, drained);
      ghost var live := tags[drained..];
      inflight, tags := [], [];
      appended, answered := Retry(tail, live, stopping);
      interrupted := interrupted || reconnects == old(reconnects);
      NothingInFlight();
    }

    /** do_flush: one reply per event in flight; after a lost connection the tail is retried once. */
    method DoFlush(stopping: bool) returns (ghost acked: nat, ghost appended: nat, ghost answered: nat)
      requires Valid() && inflight != []
      modifies this`inflight, this`ctx, this`checks, this`budget, this`attempts, this`reconnects, this`wire
      modifies this`appends, this`xaddTotal, this`xaddErrors, this`replies, this`eventsLost, this`tags, this`interrupted
      ensures Valid() && inflight == []
      ensures checks <= old(checks) && budget <= old(budget)
      ensures old(appends) == [] ==> appends == []
      ensures if stopping then checks == old(checks) else budget == old(budget)
      ensures acked == |old(tags)| ==> attempts == old(attempts) && Patience(stopping) == old(Patience(stopping))
      ensures acked < |old(tags)| ==>
                && old(reconnects) <= reconnects <= old(reconnects) + 1
                && Reconnection(old(attempts), endpointCount, old(Patience(stopping)), attempts, Patience(stopping),
                                reconnects > old(reconnects))
      ensures acked == Arrived(old(replies), |old(tags)|)
      ensures eventsLost == old(eventsLost) + (|old(tags)| - acked - answered)
      ensures acked == |old(tags)| ==>
                && ctx && wire == old(wire) + Outcomes(old(tags), old(replies), acked)
                && appended == answered == 0 && reconnects == old(reconnects) && interrupted == old(interrupted)
                && replies == Unread(old(replies), |old(tags)|)
      ensures acked < |old(tags)| ==>
                var tail, rest := old(tags)[acked..], Unread(old(replies), |old(tags)|);
                var first := old(wire) + Outcomes(old(tags), old(replies), acked);
                && appended <= |tail| && answered == Arrived(rest, appended) && replies == Unread(rest, appended)
                && if reconnects == old(reconnects)
                   then !ctx && appended == 0 && wire == first + Losses(tail) && interrupted
                   else && ctx == (answered == appended)
                        && interrupted == old(interrupted) && (old(appends) == [] ==> appended == |tail|)
                        && wire == Retried(first, tail, rest, appended, answered)
    {
      hide *;
      Parts();
      appended, answered := 0, 0;
      ghost var was := wire;
      var drained, ioError := FlushPipeline(|inflight|, tags);
      acked := drained;
      if !ioError {
        assert tags[drained..] == [];
        inflight, tags := [], [];
        NothingInFlight();
        return;
      }
      StillSentOnce(was, wire, tags, drained);
      appended, answered := RetryUnacked(drained, stopping);
    }

    method Upstream()
      requires Valid()
      modifies this`queue, this`pushed, this`arrivals
      ensures Valid() && popped == old(popped)
      ensures queue == old(queue) + if old(arrivals) == [] then [] else old(arrivals)[0]
      ensures arrivals == if old(arrivals) == [] then [] else old(arrivals)[1..]
      ensures ToCome() == old(ToCome()) && (old(Stocked()) ==> Stocked())
    {
      hide Tracked;
      hide Supply;
      hide AllValid;
      hide SentOnce;
      hide TagsMatch;
      if arrivals != [] {
        assert queue + (arrivals[0] + Flat(arrivals[1..])) == queue + arrivals[0] + Flat(arrivals[1..]);
        queue, pushed := queue + arrivals[0], pushed + arrivals[0];
        arrivals := arrivals[1..];
      }
    }

    /** Pops one event and appends it, or drops it for good when it cannot be appended. */
    method TakeOne()
      requires Valid() && ctx && |inflight| < pipelineMax && queue != []
      modifies this`queue, this`popped, this`appends, this`inflight, this`tags, this`wire, this`eventsLost
      ensures Valid() && queue == old(queue)[1..] && popped == old(popped) + [old(queue)[0]]
      ensures old(appends) == [] ==> appends == []
      ensures if old(queue)[0].validStream && (old(appends) == [] || old(appends)[0])
              then inflight == old(inflight) + [old(queue)[0]] && eventsLost == old(eventsLost)
                   && tags == old(tags) + [|old(popped)|] && wire == old(wire) + [Sent(|old(popped)|)]
              else inflight == old(inflight) && tags == old(tags) && eventsLost == old(eventsLost) + 1
                   && wire == old(wire) + [Lost(|old(popped)|)]
    {
      hide Tracked;
      hide Count;
      hide Sends;
      hide SentOnce;
      hide TagsMatch;
      hide AllValid;
      hide LastSent;
      hide Orderly;
      hide Endings;
      var item := queue[0];
      ValidBefore(inflight, item);
      assert popped + queue == popped + [item] + queue[1..];
      queue := queue[1..];
      var ok := AppendXadd(item);
      ghost var n := |popped|;
      TagsMatchMore(tags, inflight, popped, item);
      popped := popped + [item];
      if ok {
        PopAndSend(wire, n, tags);
        OneMore(wire, Sent(n));
        inflight := inflight + [item];
        wire, tags := wire + [Sent(n)], tags + [n];
      } else {
        PopAndLose(wire, n, tags);
        OneMore(wire, Lost(n));
        eventsLost := eventsLost + 1;
        wire := wire + [Lost(n)];
      }
    }

    /** Pops everything, including what the upstream pushes meanwhile, and counts what was queued. */
    method EmptyQueue() returns (ghost late: seq<nat>)
      requires Valid() && queue != []
      modifies this`queue, this`pushed, this`popped, this`wire, this`eventsLost
      ensures queue == [] && popped == pushed == old(pushed) + burst
      ensures Tracked(wire, |popped|, tags + late) && Counted() && |late| == |burst|
      ensures eventsLost == old(eventsLost) + |old(queue)|
    {
      hide Tracked;
      hide Count;
      hide Sends;
      late := [];
      var remaining := |queue|;
      queue, pushed := queue + burst, pushed + burst;
      assert tags + [] == tags;
      ghost var d: nat := 0;
      while queue != []
        invariant |popped| == |old(popped)| + d && |queue| == remaining + |burst| - d
        invariant pushed == popped + queue == old(pushed) + burst
        invariant eventsLost == old(eventsLost)
        invariant |late| == if d <= remaining then 0 else d - remaining
        invariant SentOnce(wire, tags) && Tracked(wire, |popped|, tags + late)
        invariant Count(wire) == Totals(xaddTotal, xaddErrors, eventsLost + if d <= remaining then d else remaining)
      {
        ghost var n := |popped|;
        if d < remaining {
          assert tags + late == tags;
          PopAndLose(wire, n, tags);
          OneMore(wire, Lost(n));
          wire := wire + [Lost(n)];
        } else {
          PopUnseen(wire, n, tags + late);
          assert tags + late + [n] == tags + (late + [n]);
          late := late + [n];
        }
        popped, queue := popped + [queue[0]], queue[1..];
        d := d + 1;
      }
      eventsLost := eventsLost + remaining;
    }

    /** The shutdown deadline has passed: everything queued or in flight is dropped. What was queued
        is counted by a length taken first, so what the upstream pushes while the queue is emptied
        is dropped uncounted: these are the events in `late`. */
    method DropEverything() returns (ghost late: seq<nat>)
      requires Valid()
      modifies this`queue, this`pushed, this`popped, this`inflight, this`tags, this`wire, this`eventsLost
      ensures queue == [] && inflight == [] && popped == pushed
      ensures pushed == if old(queue) == [] then old(pushed) else old(pushed) + burst
      ensures Tracked(wire, |popped|, late) && Counted()
      ensures |late| == if old(queue) == [] then 0 else |burst|
      ensures eventsLost == old(eventsLost) + |old(queue)| + |old(inflight)|
    {
      hide Tracked;
      hide Count;
      hide Sends;
      hide Losses;
      late := [];
      assert tags + [] == tags;
      if |queue| > 0 {
        late := EmptyQueue();
      }
      assert (tags + late)[|tags|..] == late;
      if |inflight| > 0 {
        Lose(|inflight|, tags + late);
        inflight := [];
      } else {
        assert tags + late == late;
      }
      tags := [];
    }

    /** Makes sure of a connection before going on. */
    method EnsureConnected(stopping: bool, countReconnect: bool)
      requires Valid()
      modifies this`ctx, this`checks, this`budget, this`attempts, this`reconnects, this`wire
      ensures Valid() && checks <= old(checks) && budget <= old(budget)
      ensures old(ctx) ==> ctx && wire == old(wire)
      ensures !old(ctx) ==> wire == if ctx then old(wire) + [Opened] else old(wire)
      ensures !old(ctx) ==>
                Reconnection(old(attempts), endpointCount, old(Patience(stopping)), attempts, Patience(stopping), ctx)
      ensures reconnects == old(reconnects) + if ctx && !old(ctx) && countReconnect then 1 else 0
      ensures if stopping then checks == old(checks) else budget == old(budget)
      ensures old(ctx) ==> attempts == old(attempts) && Patience(stopping) == old(Patience(stopping))
      ensures old(Stocked()) ==> Stocked() && Patience(stopping) + 1 >= old(Patience(stopping))
                                 && (old(Patience(stopping)) > 0 ==> ctx)
    {
      hide Tracked;
      hide Count;
      hide Sends;
      hide Answers;
      hide Remains;
      hide Reconnection;
      hide Supply;
      hide TagsMatch;
      hide AllValid;
      if !ctx {
        Connect(stopping, countReconnect);
        Reopen(old(wire), |popped|, tags);
        OneMore(old(wire), Opened);
        if old(Stocked()) {
          SupplyConnects(replies, old(attempts), |ToCome()|, |inflight|, pipelineMax, endpointCount, old(Patience(stopping)),
                         attempts, Patience(stopping), ctx);
        }
      }
    }

    /** A flush, and what it may cost. */
    method FlushNow(stopping: bool, ghost start: nat)
      requires Valid() && ctx && inflight != []
      modifies this`inflight, this`ctx, this`checks, this`budget, this`attempts, this`reconnects, this`wire
      modifies this`appends, this`xaddTotal, this`xaddErrors, this`replies, this`eventsLost, this`tags, this`interrupted
      ensures Valid() && inflight == []
      ensures checks <= old(checks) && budget <= old(budget)
      ensures if stopping then checks == old(checks) else budget == old(budget)
      ensures old(Unharmed(start)) ==> Unharmed(start)
      ensures old(Stocked()) ==> Stocked() && Patience(stopping) + 1 >= old(Patience(stopping))
      ensures old(Stocked()) && old(Patience(stopping)) > 0 ==> eventsLost == old(eventsLost)
      ensures old(Stocked()) ==> eventsLost == old(eventsLost)
                                 || (Patience(stopping) == 0 && old(eventsLost) <= eventsLost <= old(eventsLost) + pipelineMax)
    {
      hide Tracked;
      hide Count;
      hide Sends;
      hide Retried;
      hide Orderly;
      hide Endings;
      hide LastSent;
      hide Outcomes;
      hide Resent;
      hide Losses;
      hide Spaced;
      hide Arrived;
      hide Unread;
      hide Reconnection;
      hide SentOnce;
      hide TagsMatch;
      hide AllValid;
      hide Valid;
      hide Supply;
      Parts();
      ghost var n := |tags|;
      ghost var acked, appended, answered := DoFlush(stopping);
      if Spaced(old(replies), pipelineMax) {
        FlushKeepsSpaced(old(replies), pipelineMax, n);
        NoneUnread(n - acked);
      }
      if old(Stocked()) {
        FlushFares(old(replies), old(attempts), |ToCome()|, n, pipelineMax, endpointCount, old(Patience(stopping)), acked, appended,
                   answered, replies, attempts, Patience(stopping), reconnects > old(reconnects), ctx);
      }
    }

    /** Takes an event if there is room. */
    method TakeIfRoom(ghost start: nat)
      requires Valid() && ctx
      modifies this`queue, this`popped, this`appends, this`inflight, this`tags, this`wire, this`eventsLost
      ensures Valid()
      ensures var take := old(queue) != [] && |old(inflight)| < pipelineMax;
              && popped == old(popped) + (if take then [old(queue)[0]] else [])
              && queue == (if take then old(queue)[1..] else old(queue))
              && (!take ==> inflight == old(inflight) && eventsLost == old(eventsLost))
      ensures old(Unharmed(start)) ==> Unharmed(start)
      ensures old(Stocked()) ==> Stocked() && eventsLost == old(eventsLost)
                                 && (old(queue) != [] && |old(inflight)| < pipelineMax ==> inflight != [])
    {
      hide Tracked;
      hide Count;
      hide Sends;
      hide Retried;
      hide Orderly;
      hide Endings;
      hide LastSent;
      hide Outcomes;
      hide Resent;
      hide Losses;
      hide Spaced;
      hide Arrived;
      hide Unread;
      hide Reconnection;
      hide SentOnce;
      hide TagsMatch;
      hide AllValid;
      hide Supply;
      if |inflight| < pipelineMax && queue != [] {
        ValidBefore(popped, queue[0]);
        assert ToCome() == [queue[0]] + (queue[1..] + Flat(arrivals));
        ValidAfter(queue[0], queue[1..] + Flat(arrivals));
        TakeOne();
        SupplyMoves(replies, attempts, |ToCome()|, |old(inflight)|, pipelineMax);
      }
    }

    /** Flushes when the batch is full, when stopping, or when the interval has elapsed. */
    method FlushIfDue(stopping: bool, ghost start: nat)
      requires Valid() && ctx
      modifies this`inflight, this`ctx, this`checks, this`budget, this`attempts, this`reconnects, this`wire, this`ticks
      modifies this`appends, this`xaddTotal, this`xaddErrors, this`replies, this`eventsLost, this`tags, this`interrupted
      ensures Valid() && |inflight| < pipelineMax && (stopping ==> inflight == []) && (inflight == [] || inflight == old(inflight))
      ensures checks <= old(checks) && budget <= old(budget)
      ensures if stopping then checks == old(checks) else budget == old(budget)
      ensures old(Unharmed(start)) ==> Unharmed(start)
      ensures old(Stocked()) ==> Stocked() && Patience(stopping) + 1 >= old(Patience(stopping))
      ensures old(Stocked()) && old(Patience(stopping)) > 0 ==> eventsLost == old(eventsLost)
      ensures old(Stocked()) ==> eventsLost == old(eventsLost)
                                 || (Patience(stopping) == 0 && old(eventsLost) <= eventsLost <= old(eventsLost) + pipelineMax)
      // due when the batch is full, when stopping, or when the next tick says that the interval has elapsed
      ensures inflight == [] <==> || old(inflight) == [] || |old(inflight)| >= pipelineMax || stopping
                                  || (old(ticks) != [] && old(ticks)[0])
      ensures |ticks| <= |old(ticks)|
      ensures !stopping && 0 < |old(inflight)| < pipelineMax && old(ticks) != [] ==> |ticks| < |old(ticks)|
      ensures !stopping && |old(inflight)| < pipelineMax && (old(inflight) == [] || old(ticks) == []) ==>
                inflight == old(inflight) && eventsLost == old(eventsLost)
    {
      hide Valid;
      hide Unharmed;
      hide Stocked;
      Parts();
      var flush := |inflight| >= pipelineMax || (|inflight| > 0 && stopping);
      if !flush && |inflight| > 0 {
        flush := ticks != [] && ticks[0];
        ticks := if ticks == [] then [] else ticks[1..];
      }
      if flush {
        FlushNow(stopping, start);
      }
    }

    /** The part of a turn that follows the checks for a stop. */
    method Work(stopping: bool, ghost start: nat)
      requires Valid()
      modifies this
      ensures Valid() && checks <= old(checks) && budget <= old(budget)
      ensures old(Unharmed(start)) ==> Unharmed(start)
      ensures if stopping then checks == old(checks) else budget == old(budget)
      ensures arrivals == old(arrivals) && |inflight| < pipelineMax && |ticks| <= |old(ticks)|
      ensures queue == old(queue) || (old(queue) != [] && queue == old(queue)[1..])
      ensures queue == old(queue) ==> inflight == [] || inflight == old(inflight)
      ensures old(Stocked()) ==> Stocked() && Patience(stopping) + 2 >= old(Patience(stopping))
      ensures old(Stocked()) ==> eventsLost == old(eventsLost)
                                 || (Patience(stopping) == 0 && old(eventsLost) <= eventsLost <= old(eventsLost) + pipelineMax)
      // with two checks to spare nothing is lost, and the turn gets something done
      ensures old(Stocked()) && old(Patience(stopping)) >= 2 && |old(inflight)| < pipelineMax ==>
                && eventsLost == old(eventsLost) && (stopping ==> inflight == [])
                && (old(queue) != [] ==> queue == old(queue)[1..])
                && (old(queue) == [] && old(inflight) == [] ==> inflight == [])
                && (!stopping && old(queue) == [] && old(inflight) != [] && old(ticks) != [] ==> |ticks| < |old(ticks)|)
      ensures !stopping && |old(inflight)| < pipelineMax && old(queue) == [] && (old(inflight) == [] || old(ticks) == []) ==>
                inflight == old(inflight) && eventsLost == old(eventsLost)
    {
      hide Reconnection;
      hide Valid;
      hide Unharmed;
      hide Flat;
      hide Supply;
      hide Spaced;
      hide AllValid;
      hide AllUp;
      hide SentOnce;
      hide TagsMatch;
      hide Count;
      hide LastSent;
      hide Sends;
      hide Endings;
      hide Orderly;
      hide Increasing;
      hide Tracked;
      hide Stocked;
      Parts();
      EnsureConnected(stopping, true);
      Parts();
      if ctx {
        TakeIfRoom(start);
        FlushIfDue(stopping, start);
      }
    }

    /** One turn of the thread's loop. It is the last one when a stop was seen and nothing is left, or
        the shutdown deadline has passed. */
    method Turn(ghost start: nat) returns (last: bool, ghost late: seq<nat>)
      requires Valid()
      modifies this
      ensures checks <= old(checks) && budget <= old(budget)
      ensures !last ==> Valid() && (checks < old(checks) || budget < old(budget)) && (old(Unharmed(start)) ==> Unharmed(start))
      ensures last ==> queue == [] && inflight == [] && popped == pushed && checks == 0
                       && Tracked(wire, |popped|, late) && Counted()
                       && (late == [] || (|late| == |burst| && budget == 0))
      ensures last && budget > 0 && old(Unharmed(start)) ==> Unharmed(start)
      ensures old(Calm()) ==> if last then late == [] && budget > 0 && eventsLost == old(eventsLost) else Calm()
      ensures old(Calm()) ==> eventsLost == old(eventsLost)
                              || (old(checks) > 0 == checks && old(eventsLost) <= eventsLost <= old(eventsLost) + pipelineMax)
      ensures old(Calm() && Unhurried()) ==> eventsLost == old(eventsLost) && (!last ==> Unhurried())
    {
      hide Flat;
      hide Supply;
      hide Spaced;
      hide AllValid;
      hide AllUp;
      hide SentOnce;
      hide TagsMatch;
      hide Count;
      hide LastSent;
      hide Sends;
      hide Endings;
      hide Orderly;
      hide Increasing;
      hide Stocked;
      hide Reconnection;
      hide Valid;
      hide Counted;
      hide Tracked;
      hide Unharmed;
      last, late := false, [];
      Upstream();
      var stopping := ShouldStop();
      if stopping && |inflight| == 0 && |queue| == 0 {
        Idle();
        return true, [];
      }
      if stopping {
        var passed := DeadlinePassed();
        if passed {
          late := DropEverything();
          return true, late;
        }
      }
      Work(stopping, start);
    }

    /** The thread. When it ends, nothing is queued or in flight, and everything popped is counted,
        once, as stored, refused or lost, except what the upstream pushed during a late shutdown. */
    method ThreadMain() returns (ghost late: seq<nat>)
      requires Valid() && !ctx
      modifies this
      ensures queue == [] && inflight == [] && popped == pushed
      ensures Tracked(wire, |popped|, late) && Counted()
      ensures |popped| == xaddTotal + xaddErrors + eventsLost + |late|
      ensures late == [] || (|late| == |burst| && budget == 0)
      ensures checks == 0
      // with a stream for every event and no failed append, the retry keeps everything safe, as long as
      // missing replies are rarer than batches and neither a stop nor the deadline cuts it short
      ensures && AllValid(popped) && old(appends) == [] && Spaced(old(replies), pipelineMax)
              && replies != [] && budget > 0 && !interrupted
              ==> eventsLost == old(eventsLost)
      // on the inputs alone: with enough of everything at most one batch is lost, and nothing when the
      // stop is there from the start or comes after the traffic, however many connections were lost
      ensures old(Calm()) ==> late == [] && old(eventsLost) <= eventsLost <= old(eventsLost) + pipelineMax
      ensures old(Calm() && (checks == 0 || checks > 3 * (|arrivals| + |ToCome()| + |ticks|) + 1)) ==>
                eventsLost == old(eventsLost) && |popped| == xaddTotal + xaddErrors + old(eventsLost)
    {
      hide Reconnection;
      hide Stocked;
      hide Valid;
      hide Counted;
      hide Tracked;
      hide Unharmed;
      ghost var start, sound := eventsLost, appends == [] && Spaced(replies, pipelineMax);
      ghost var calm := Calm();
      ghost var unhurried := calm && (checks == 0 || checks > 3 * (|arrivals| + |ToCome()| + |ticks|) + 1);
      NotYetHarmed();
      Parts();
      EnsureConnected(false, false);
      var last := false;
      late := [];
      while !last
        invariant !last ==> Valid() && (sound ==> Unharmed(start))
        invariant last ==> queue == [] && inflight == [] && popped == pushed && checks == 0
                           && Tracked(wire, |popped|, late) && Counted()
                           && (late == [] || (|late| == |burst| && budget == 0))
                           && (sound && budget > 0 ==> Unharmed(start))
        invariant calm ==> (if last then late == [] else Calm())
        invariant calm ==> eventsLost == start || (checks == 0 && start <= eventsLost <= start + pipelineMax)
        invariant unhurried ==> eventsLost == start && (!last ==> Unhurried())
        decreases !last, checks, budget
      {
        last, late := Turn(start);
      }
      Balance(late);
      Harmless(start);
    }
  }

  lemma AnswerAfterOneMissing()
    ensures Arrived([NoReply, Done], 1) == 0 && Unread([NoReply, Done], 1) == [Done]
    ensures Arrived([Done], 1) == 1 && Unread([Done], 1) == []
    ensures Outcomes([0], [NoReply, Done], 0) == []
    ensures Retried([Opened, Sent(0)], [0], [Done], 1, 1) == [Opened, Sent(0), Opened, Sent(0), Stored(0)]
  {
    assert Outcomes([0], [Done], 1) == Outcomes([0], [Done], 0) + [Stored(0)];
    assert Resent([0][..1]) == [Sent(0)] && Losses([0][1..]) == [];
  }

  lemma OneStored()
    ensures Count([Opened, Sent(0), Opened, Sent(0), Stored(0)]) == Totals(1, 0, 0)
  {
    OneMore([Opened, Sent(0), Opened, Sent(0)], Stored(0));
    OneMore([Opened, Sent(0), Opened], Sent(0));
    OneMore([Opened, Sent(0)], Opened);
    OneMore([Opened], Sent(0));
    OneMore([], Opened);
    assert [] + [Opened] == [Opened] && [Opened] + [Sent(0)] == [Opened, Sent(0)];
    assert [Opened, Sent(0)] + [Opened] == [Opened, Sent(0), Opened];
    assert [Opened, Sent(0), Opened] + [Sent(0)] == [Opened, Sent(0), Opened, Sent(0)];
    assert [Opened, Sent(0), Opened, Sent(0)] + [Stored(0)] == [Opened, Sent(0), Opened, Sent(0), Stored(0)];
  }

  /** A producer that has sent one event on its first connection, and whose first reply will be missing. */
  method SendOne(item: Item, checks: nat) returns (p: Producer)
    requires item.validStream && checks > 0
    ensures fresh(p) && p.Valid() && p.ctx && p.pipelineMax == p.endpointCount == 1 && p.attempts == [true] && p.appends == []
    ensures p.replies == [NoReply, Done] && p.checks == checks - 1 && p.wire == [Opened, Sent(0)]
    ensures p.popped == p.inflight == [item] && p.tags == [0] && p.eventsLost == p.reconnects == 0
  {
    hide Reconnection;
    hide Arrived;
    hide Unread;
    hide Sends;
    hide LastSent;
    hide Orderly;
    hide Endings;
    hide Resent;
    hide Losses;
    hide Outcomes;
    hide Retried;
    hide Tracked;
    hide SentOnce;
    hide TagsMatch;
    hide AllValid;
    hide Count;
    hide Producer.Valid;
    hide Producer.Stocked;
    assert AllUp([true, true]);
    p := new Producer(1, 1, [item], checks, 0, [true, true], [], [NoReply, Done], [], [], []);
    p.EnsureConnected(false, false);
    FirstIsUp([true, true], 1, checks, p.attempts, p.checks, p.ctx);
    p.TakeOne();
  }

  /** A run in which the connection fails before the first reply and the retry is acknowledged. */
  method RetriedTailIsStored(item: Item) returns (p: Producer)
    requires item.validStream
    ensures p.wire == [Opened, Sent(0), Opened, Sent(0), Stored(0)]
    ensures p.popped == [item] && p.xaddTotal == 1 && p.eventsLost == 0 && p.ctx && p.reconnects == 1
  {
    hide Reconnection;
    hide Arrived;
    hide Unread;
    hide Sends;
    hide LastSent;
    hide Orderly;
    hide Endings;
    hide Resent;
    hide Losses;
    hide Outcomes;
    hide Retried;
    hide Tracked;
    hide SentOnce;
    hide TagsMatch;
    hide AllValid;
    hide Count;
    hide Producer.Valid;
    hide Producer.Stocked;
    AnswerAfterOneMissing();
    p := SendOne(item, 2);
    ghost var acked, appended, answered := p.DoFlush(false);
    assert AllUp([true]);
    FirstIsUp([true], 1, 1, p.attempts, p.checks, p.reconnects > 0);
    OneStored();
    p.Parts();
    assert [0][0..] == [0] && [Opened, Sent(0)] + [] == [Opened, Sent(0)];
  }

  /** A stop during a flush: the connection fails, the reconnect sees the stop, and the whole batch of
      one is lost although every attempt would succeed. */
  method InterruptedRetryLosesBatch(item: Item) returns (p: Producer)
    requires item.validStream
    ensures p.popped == [item] && p.eventsLost == p.pipelineMax == 1 && !p.ctx && p.attempts == [true]
  {
    hide Reconnection;
    hide Arrived;
    hide Unread;
    hide Sends;
    hide LastSent;
    hide Orderly;
    hide Endings;
    hide Resent;
    hide Losses;
    hide Outcomes;
    hide Retried;
    hide Tracked;
    hide SentOnce;
    hide TagsMatch;
    hide AllValid;
    hide Count;
    hide Producer.Valid;
    hide Producer.Stocked;
    AnswerAfterOneMissing();
    NoReplyAsked([Done]);
    p := SendOne(item, 1);
    ghost var acked, appended, answered := p.DoFlush(false);
    assert AllUp([true]);
    FirstIsUp([true], 1, 0, p.attempts, p.checks, p.reconnects > 0);
  }

  /** A whole run on inputs with a missing reply, and with enough of everything: no event is lost. */
  method LostConnectionCostsNothing(item: Item) returns (p: Producer)
    requires item.validStream
    ensures p.eventsLost == 0 && |p.popped| == p.xaddTotal + p.xaddErrors
  {
    hide Producer.Valid;
    hide Tracked;
    p := new Producer(1, 1, [item], 0, 4, [true, true], [], [NoReply, Done, Done], [], [], []);
    assert p.ToCome() == [item] + [];
    assert Spaced([NoReply, Done, Done], 1) && AllUp([true, true]);
    ghost var late := p.ThreadMain();
  }

  /** A late shutdown: one event is queued, another arrives while the queue is emptied, and only the
      first is counted as lost. */
  method LateEventIsUncounted(queued: Item, arriving: Item) returns (p: Producer, ghost late: seq<nat>)
    ensures p.popped == [queued, arriving] && p.queue == [] && p.inflight == []
    ensures p.xaddTotal == 0 && p.xaddErrors == 0 && p.eventsLost == 1 && |late| == 1
  {
    p := new Producer(1, 1, [queued], 0, 0, [], [], [], [], [], [arriving]);
    late := p.DropEverything();
  }
}
