/** The at-least-once sink spine (cf_sink_consumer.c) against a Redis consumer group. Every command
    may fail or lose its reply, whether or not the server carried it out; allocations, clocks, stop
    requests and HTTP answers are arbitrary inputs. */
module SinkConsumer {
  import opened Bytes
  import HttpDeliver

  /** A stream entry: stream number and entry id. */
  type Id = (nat, nat)

  datatype Option<T> = None | Some(value: T)

  /** The reply fields process_entry looks at; None when missing or not a string. */
  datatype Fields = Fields(encoding: Option<string>, schema: Option<string>, payload: Option<seq<byte>>)

  const REQUIRED_ENCODING := "protobuf"
  const REQUIRED_SCHEMA := "cloudflow.v1.CloudFlowEvent"

  datatype Entry = Entry(id: Id, fields: Fields)

  /** What decoding and transforming a payload yields. */
  datatype Rendered = Undecodable | TransformError | Output(line: seq<byte>)

  datatype Item = Item(id: Id, line: seq<byte>, payload: seq<byte>)

  // ---------------------------------------------------------------- the outside world

  /** Everything that became durable, in order. */
  datatype Event =
    | Read(id: Id)                               // handed to this group, so pending
    | Posted(ids: seq<Id>, status: int)
    | Printed(id: Id)
    | DeadLettered(id: Id, confirmed: bool)
    | NoOutput(id: Id)
    | Acked(id: Id)

  datatype Reply = NoReply | ErrorReply | OkReply

  /** The server's answer to one command: it may carry the command out and still not be heard. A
      command that reads hands out `entries`. */
  datatype Answer = Answer(executed: bool, reply: Reply, entries: seq<Entry>)

  /** `clean` says that nothing has failed so far: every command was carried out and answered, every
allocation granted, and no delivery cut short by a stop. `connected` says that there is a Redis
      context at all, alive or not, `stray` counts the commands issued when there was none, and `pages`
      holds what each reading command made the server hand out. */
  datatype World = World(log: seq<Event>, answers: seq<Answer>, alive: bool, clean: bool, connected: bool, stray: nat,
                         pages: seq<seq<Entry>>)

  function AnswerOf(w: World): (a: Answer) {
    if !w.alive || w.answers == [] then Answer(false, NoReply, []) else w.answers[0]
  }

  predicate Executed(a: Answer) {
    a.executed || a.reply.OkReply?
  }

  /** The first log holds every read of the second. */
  ghost predicate ReadsWithin(log: seq<Event>, more: seq<Event>) {
    forall id :: EverRead(more, id) ==> EverRead(log, id)
  }

  /** The first log holds every acknowledgement of the second. */
  ghost predicate AcksWithin(log: seq<Event>, more: seq<Event>) {
    forall id :: EverAcked(more, id) ==> EverAcked(log, id)
  }

  lemma WithinItself(log: seq<Event>)
    ensures ReadsWithin(log, log) && AcksWithin(log, log)
  {
  }

  lemma PrintWithin(start: seq<Event>, log: seq<Event>, id: Id)
    requires ReadsWithin(start, log)
    ensures ReadsWithin(start, log + [Printed(id)])
    ensures AcksWithin(start, log) ==> AcksWithin(start, log + [Printed(id)])
  {
  }

  lemma AckWithin(start: seq<Event>, w: World, id: Id)
    requires ReadsWithin(start, w.log)
    ensures ReadsWithin(start, Ack(w, id).log)
    ensures !w.alive && AcksWithin(start, w.log) ==> !Ack(w, id).alive && AcksWithin(start, Ack(w, id).log)
  {
    assert w.log + [] == w.log;
  }

  /** Issues one command whose execution is logged as done. A dead connection sends nothing, and a
      missing reply kills the connection. */
  function Command(w: World, done: seq<Event>): (r: World) {
    var a := AnswerOf(w);
    World(w.log + (if Executed(a) then done else []),
          if w.alive && w.answers != [] then w.answers[1..] else w.answers,
          w.alive && !a.reply.NoReply?,
          w.clean && a.reply.OkReply?,
          w.connected,
          w.stray + (if w.connected then 0 else 1),
          w.pages)
  }

  /** With a context, no command goes astray, and the context stays, alive or not; and as long as nothing
      fails, the connection lives on. */
  predicate Onward(w: World, r: World) {
    && r.connected == w.connected && (w.connected ==> r.stray == w.stray)
    && (r.clean ==> w.clean && (w.alive ==> r.alive))
  }

  /** No reading command was issued. */
  predicate AskedNothing(w: World, r: World) {
    r.pages == w.pages
  }

  function Ack(w: World, id: Id): (r: World) {
    Command(w, [Acked(id)])
  }

  /** dead_letter_and_ack: the ack is sent only after the dead-letter write was confirmed. */
  function DeadLetterAndAck(w: World, id: Id): (r: World) {
    var confirmed := AnswerOf(w).reply.OkReply?;
    var w1 := Command(w, [DeadLettered(id, confirmed)]);
    if confirmed then Ack(w1, id) else w1
  }

  predicate EverRead(log: seq<Event>, id: Id) {
    Read(id) in log
  }

  predicate EverAcked(log: seq<Event>, id: Id) {
    Acked(id) in log
  }

  /** The group's pending list holds what was read and not acknowledged. */
  predicate Pending(log: seq<Event>, id: Id) {
    EverRead(log, id) && !EverAcked(log, id)
  }

  /** Everything read is acknowledged. */
  ghost predicate AllAcked(log: seq<Event>) {
    forall id :: EverRead(log, id) ==> EverAcked(log, id)
  }

  function ReadsOf(entries: seq<Entry>): (s: seq<Event>)
    ensures |s| == |entries|
  {
    seq(|entries|, i requires 0 <= i < |entries| => Read(entries[i].id))
  }

  /** A reading command: what the server hands out is pending from then on, heard or not. */
  function Fetch(w: World): (r: World) {
    var a := AnswerOf(w);
    Command(w, ReadsOf(a.entries)).(pages := w.pages + [if Executed(a) then a.entries else []])
  }

  /** Everything a reading command handed out is logged as read. */
  ghost predicate PagesRead(w: World) {
    forall k :: 0 <= k < |w.pages| ==> PageRead(w.log, w.pages[k])
  }

  ghost predicate PageRead(log: seq<Event>, page: seq<Entry>) {
    forall e :: e in page ==> EverRead(log, e.id)
  }

  lemma FetchReads(w: World)
    ensures Executed(AnswerOf(w)) ==> PageRead(Fetch(w).log, AnswerOf(w).entries)
    ensures forall log: seq<Event> :: Fetch(w).log <= log && Executed(AnswerOf(w)) ==> PageRead(log, AnswerOf(w).entries)
  {
    HandedOut(w);
    forall log: seq<Event> | Fetch(w).log <= log && Executed(AnswerOf(w)) ensures PageRead(log, AnswerOf(w).entries) {
      PageStays(Fetch(w).log, log, AnswerOf(w).entries);
    }
  }

  lemma PagesStay(w: World, r: World)
    requires PagesRead(w) && r.pages == w.pages && w.log <= r.log
    ensures PagesRead(r)
  {
    forall k | 0 <= k < |r.pages| ensures PageRead(r.log, r.pages[k]) {
      assert PageRead(w.log, w.pages[k]);
    }
  }

  /** From `first` on, exactly the last page is empty. */
  predicate LastIsEmpty(pages: seq<seq<Entry>>, first: nat) {
    forall k :: first <= k < |pages| ==> (pages[k] == [] <==> k == |pages| - 1)
  }

  lemma PageStays(log: seq<Event>, more: seq<Event>, page: seq<Entry>)
    requires PageRead(log, page) && log <= more
    ensures PageRead(more, page)
  {
  }

  lemma HandedOut(w: World)
    ensures Executed(AnswerOf(w)) ==> forall e :: e in AnswerOf(w).entries ==> EverRead(Fetch(w).log, e.id)
    ensures !w.alive ==> !Executed(AnswerOf(w)) && !Fetch(w).alive && Fetch(w).log == w.log
    ensures PagesRead(w) ==> PagesRead(Fetch(w))
  {
    var es := AnswerOf(w).entries;
    if Executed(AnswerOf(w)) {
      forall e | e in es ensures EverRead(Fetch(w).log, e.id) {
        var i :| 0 <= i < |es| && es[i] == e;
        assert Fetch(w).log[|w.log| + i] == ReadsOf(es)[i] == Read(e.id);
      }
    }
    if PagesRead(w) {
      var r := Fetch(w);
      forall k | 0 <= k < |r.pages| ensures PageRead(r.log, r.pages[k]) {
        assert k < |w.pages| ==> PageRead(w.log, w.pages[k]) && r.pages[k] == w.pages[k];
      }
    }
  }

  // ---------------------------------------------------------------- at-least-once

  /** The event settles the entry for good. */
  predicate Settles(e: Event, id: Id) {
    match e
    case Posted(ids, status) => HttpDeliver.Accepts(status) && id in ids
    case Printed(i) => i == id
    case DeadLettered(i, confirmed) => i == id && confirmed
    case NoOutput(i) => i == id
    case _ => false
  }

  ghost predicate Settled(log: seq<Event>, id: Id) {
    exists j :: 0 <= j < |log| && Settles(log[j], id)
  }

  /** Every acknowledgement is of an entry this group was handed and comes after an event that settled
      it: the entry got a 2xx, was printed, was confirmed dead-lettered, or had no output. Since it speaks of every position,
      it also holds of whatever was durable when a crash cut the run short. */
  ghost predicate AckedOnlyWhenSettled(log: seq<Event>) {
    forall k :: 0 <= k < |log| && log[k].Acked? ==>
      Settled(log[..k], log[k].id) && EverRead(log[..k], log[k].id)
  }

  lemma SettledGrows(log: seq<Event>, more: seq<Event>, id: Id)
    requires Settled(log, id)
    ensures Settled(log + more, id)
  {
    var j :| 0 <= j < |log| && Settles(log[j], id);
    assert (log + more)[j] == log[j];
  }

  lemma QuietEventsKeep(log: seq<Event>, more: seq<Event>)
    requires AckedOnlyWhenSettled(log) && forall e :: e in more ==> !e.Acked?
    ensures AckedOnlyWhenSettled(log + more)
  {
    var all := log + more;
    forall k | |log| <= k < |all| ensures !all[k].Acked? {
      assert all[k] == more[k - |log|] && more[k - |log|] in more;
    }
    forall k | 0 <= k < |log| && all[k].Acked? ensures Settled(all[..k], all[k].id) && EverRead(all[..k], all[k].id) {
      assert all[..k] == log[..k];
    }
  }

  lemma SettledAckKeeps(log: seq<Event>, id: Id)
    requires AckedOnlyWhenSettled(log) && Settled(log, id) && EverRead(log, id)
    ensures AckedOnlyWhenSettled(log + [Acked(id)])
  {
    var all := log + [Acked(id)];
    forall k | 0 <= k < |all| && all[k].Acked? ensures Settled(all[..k], all[k].id) && EverRead(all[..k], all[k].id) {
      if k < |log| {
        assert all[..k] == log[..k];
      } else {
        assert all[..k] == log;
      }
    }
  }

  lemma AckKeeps(w: World, id: Id)
    requires AckedOnlyWhenSettled(w.log) && Settled(w.log, id) && EverRead(w.log, id)
    ensures AckedOnlyWhenSettled(Ack(w, id).log) && w.log <= Ack(w, id).log
  {
    SettledAckKeeps(w.log, id);
    assert w.log + [] == w.log;
  }

  lemma DeadLetterKeeps(w: World, id: Id)
    requires AckedOnlyWhenSettled(w.log) && EverRead(w.log, id)
    ensures AckedOnlyWhenSettled(DeadLetterAndAck(w, id).log) && w.log <= DeadLetterAndAck(w, id).log
  {
    var confirmed := AnswerOf(w).reply.OkReply?;
    var w1 := Command(w, [DeadLettered(id, confirmed)]);
    QuietEventsKeep(w.log, [DeadLettered(id, confirmed)]);
    assert w.log + [] == w.log;
    if confirmed {
      assert w1.log[|w.log|] == DeadLettered(id, true);
      assert Settles(w1.log[|w.log|], id);
      AckKeeps(w1, id);
    }
  }

  /** A read entry that no event settled is still pending, at every moment of the run: whatever was
      durable when a crash cut it short, the group will offer the entry again. */
  lemma NothingIsLost(log: seq<Event>, n: nat, id: Id)
    requires AckedOnlyWhenSettled(log) && n <= |log| && EverRead(log[..n], id)
    ensures Settled(log[..n], id) || Pending(log[..n], id)
  {
    if EverAcked(log[..n], id) {
      var k :| 0 <= k < n && log[k] == Acked(id);
      assert Settled(log[..k], id);
      assert log[..n] == log[..k] + log[k..n];
      SettledGrows(log[..k], log[k..n], id);
    }
  }

  // ---------------------------------------------------------------- completeness

  /** As long as nothing failed, every entry read is acknowledged or still open. */
  ghost predicate Complete(w: World, open: set<Id>) {
    w.clean ==> forall id :: EverRead(w.log, id) ==> EverAcked(w.log, id) || id in open
  }

  lemma QuietComplete(w: World, e: Event, open: set<Id>)
    requires Complete(w, open) && !e.Read?
    ensures Complete(w.(log := w.log + [e]), open)
  {
  }

  lemma AckCompletes(w: World, id: Id, open: set<Id>)
    requires Complete(w, open + {id})
    ensures Complete(Ack(w, id), open) && (Ack(w, id).clean ==> w.clean)
  {
    var r := Ack(w, id);
    if r.clean {
      assert r.log == w.log + [Acked(id)];
      assert r.log[|w.log|] == Acked(id);
      forall x | EverRead(r.log, x) ensures EverAcked(r.log, x) || x in open {
        assert EverRead(w.log, x);
      }
    }
  }

  lemma DeadLetterCompletes(w: World, id: Id, open: set<Id>)
    requires Complete(w, open + {id})
    ensures Complete(DeadLetterAndAck(w, id), open) && (DeadLetterAndAck(w, id).clean ==> w.clean)
  {
    hide Ack;
    var confirmed := AnswerOf(w).reply.OkReply?;
    var w1 := Command(w, [DeadLettered(id, confirmed)]);
    if confirmed {
      QuietComplete(w, DeadLettered(id, confirmed), open + {id});
      AckCompletes(w1, id, open);
    }
  }

  lemma FailedIsComplete(w: World, open: set<Id>)
    requires !w.clean
    ensures Complete(w, open)
  {
  }

  lemma AllAcknowledged(w: World)
    requires AckedOnlyWhenSettled(w.log) && Complete(w, ItemIds([]))
    ensures w.clean ==> forall id :: EverRead(w.log, id) ==> EverAcked(w.log, id) && Settled(w.log, id)
  {
    if w.clean {
      forall id | EverRead(w.log, id) ensures EverAcked(w.log, id) && Settled(w.log, id) {
        var k :| 0 <= k < |w.log| && w.log[k] == Acked(id);
        assert w.log == w.log[..k] + w.log[k..];
        SettledGrows(w.log[..k], w.log[k..], id);
      }
    }
  }

  lemma FailedOrSame(w: World, r: World, open: set<Id>)
    requires Complete(w, open) && r.log == w.log && (r.clean ==> w.clean)
    ensures Complete(r, open)
  {
  }

  function EntryIds(entries: seq<Entry>): (s: set<Id>) {
    set e | e in entries :: e.id
  }

  function ItemIds(items: seq<Item>): (s: set<Id>) {
    set it | it in items :: it.id
  }

  lemma FetchOpens(w: World, open: set<Id>)
    requires Complete(w, open)
    ensures Complete(Fetch(w), open + EntryIds(AnswerOf(w).entries)) && (Fetch(w).clean ==> w.clean)
  {
    var es := AnswerOf(w).entries;
    var r := Fetch(w);
    if r.clean {
      forall id | EverRead(r.log, id) ensures EverAcked(r.log, id) || id in open + EntryIds(es) {
        if !EverRead(w.log, id) {
          assert Read(id) in ReadsOf(es);
          var i :| 0 <= i < |es| && ReadsOf(es)[i] == Read(id);
          assert es[i] in es;
        }
      }
    }
  }

  lemma NoEntryIds()
    ensures EntryIds([]) == {} && ItemIds([]) == {}
  {
  }

  lemma MoreIds(items: seq<Item>, it: Item)
    ensures ItemIds(items + [it]) == ItemIds(items) + {it.id}
  {
    assert forall x :: x in items + [it] <==> x in items || x == it;
    assert it in items + [it];
  }

  lemma FirstEntryId(entries: seq<Entry>)
    requires entries != []
    ensures EntryIds(entries) == {entries[0].id} + EntryIds(entries[1..])
  {
    assert forall x :: x in entries <==> x == entries[0] || x in entries[1..];
  }

  lemma FirstItemId(items: seq<Item>)
    requires items != []
    ensures ItemIds(items) == {items[0].id} + ItemIds(items[1..])
  {
    assert forall x :: x in items <==> x == items[0] || x in items[1..];
  }

  // ---------------------------------------------------------------- what a flush does

  function IdsOf(items: seq<Item>): (s: seq<Id>)
    ensures |s| == |items| && forall i :: 0 <= i < |s| ==> s[i] == items[i].id
  {
    seq(|items|, i requires 0 <= i < |items| => items[i].id)
  }

  function LinesOf(items: seq<Item>): (s: seq<HttpDeliver.Line>)
    ensures |s| == |items| && forall i :: 0 <= i < |s| ==> s[i] == items[i].line
  {
    seq(|items|, i requires 0 <= i < |items| => items[i].line)
  }

  /** Each POST as an event about the entries it carried. */
  function PostEvents(items: seq<Item>, posts: seq<HttpDeliver.Post>): (s: seq<Event>)
    requires HttpDeliver.PostsWithin(posts, 0, |items|)
    ensures |s| == |posts|
    ensures forall k :: 0 <= k < |s| ==>
              s[k] == Posted(IdsOf(items[posts[k].lo..posts[k].lo + posts[k].count]), posts[k].status)
  {
    seq(|posts|, k requires 0 <= k < |posts| =>
      assert posts[k] in posts;
      Posted(IdsOf(items[posts[k].lo..posts[k].lo + posts[k].count]), posts[k].status))
  }

  /** A delivered entry is acknowledged, a poisoned one dead-lettered, any other left pending: a stop
      cut the delivery short. */
  function Settle(w: World, id: Id, m: HttpDeliver.Mark): (r: World) {
    match m
    case Delivered => Ack(w, id)
    case Poisoned(_) => DeadLetterAndAck(w, id)
    case Unmarked => w.(clean := false)
  }

  function SettleFirst(w: World, items: seq<Item>, marks: seq<HttpDeliver.Mark>, n: nat): (r: World)
    requires n <= |items| == |marks|
  {
    if n == 0 then w else Settle(SettleFirst(w, items, marks, n - 1), items[n - 1].id, marks[n - 1])
  }

  lemma {:induction false} SettleKeeps(w: World, items: seq<Item>, marks: seq<HttpDeliver.Mark>, n: nat)
    requires n <= |items| == |marks| && AckedOnlyWhenSettled(w.log)
    requires forall i :: 0 <= i < |items| ==> EverRead(w.log, items[i].id)
    requires forall i :: 0 <= i < |items| && marks[i] == HttpDeliver.Delivered ==> Settled(w.log, items[i].id)
    ensures var r := SettleFirst(w, items, marks, n); AckedOnlyWhenSettled(r.log) && w.log <= r.log
  {
    hide AckedOnlyWhenSettled;
    hide Command;
    hide DeadLetterAndAck;
    hide Ack;
    hide Settled;
    if n > 0 {
      SettleKeeps(w, items, marks, n - 1);
      var r := SettleFirst(w, items, marks, n - 1);
      assert r.log == w.log + r.log[|w.log|..];
      if marks[n - 1] == HttpDeliver.Delivered {
        SettledGrows(w.log, r.log[|w.log|..], items[n - 1].id);
        AckKeeps(r, items[n - 1].id);
      } else if marks[n - 1].Poisoned? {
        DeadLetterKeeps(r, items[n - 1].id);
      }
    }
  }

  lemma {:induction false} SettleCompletes(w: World, items: seq<Item>, marks: seq<HttpDeliver.Mark>, n: nat)
    requires n <= |items| == |marks| && Complete(w, ItemIds(items))
    ensures Complete(SettleFirst(w, items, marks, n), ItemIds(items[n..]))
  {
    hide Complete;
    hide ItemIds;
    hide Command;
    hide DeadLetterAndAck;
    hide Ack;
    if n == 0 {
      assert items[0..] == items;
    } else {
      SettleCompletes(w, items, marks, n - 1);
      var r := SettleFirst(w, items, marks, n - 1);
      var id, open := items[n - 1].id, ItemIds(items[n..]);
      FirstItemId(items[n - 1..]);
      assert items[n - 1..][1..] == items[n..];
      assert {id} + open == open + {id};
      match marks[n - 1] {
        case Delivered => AckCompletes(r, id, open);
        case Poisoned(_) => DeadLetterCompletes(r, id, open);
        case Unmarked => FailedIsComplete(r.(clean := false), open);
      }
    }
  }

  lemma PostsComplete(w: World, events: seq<Event>, open: set<Id>)
    requires Complete(w, open) && forall e :: e in events ==> !e.Read?
    ensures Complete(w.(log := w.log + events), open)
  {
  }

  /** A delivery that starts after a stop POSTs nothing, and its entries stay as they were. */
  lemma {:induction false} StoppedSettlesNothing(w: World, items: seq<Item>)
    ensures var o := HttpDeliver.Send([], 0, |items|, HttpDeliver.BACKOFF_INITIAL);
            && o.posts == [] && o.marks == HttpDeliver.Repeat(HttpDeliver.Unmarked, |items|)
            && PostEvents(items, []) == []
            && SettleFirst(w.(log := w.log + []), items, o.marks, |items|) == if items == [] then w else w.(clean := false)
  {
    hide SettleFirst;
    assert w.log + [] == w.log;
    UnmarkedSettlesNothing(w, items, |items|);
  }

  lemma {:induction false} UnmarkedSettlesNothing(w: World, items: seq<Item>, n: nat)
    requires n <= |items|
    ensures SettleFirst(w, items, HttpDeliver.Repeat(HttpDeliver.Unmarked, |items|), n) == if n == 0 then w else w.(clean := false)
  {
    if n > 0 {
      UnmarkedSettlesNothing(w, items, n - 1);
    }
  }

  lemma CommandUsesAnswers(w: World, items: seq<Item>, marks: seq<HttpDeliver.Mark>, n: nat)
    requires n <= |items| == |marks|
    ensures |SettleFirst(w, items, marks, n).answers| <= |w.answers|
    ensures ReadsWithin(w.log, SettleFirst(w, items, marks, n).log)
    ensures Onward(w, SettleFirst(w, items, marks, n)) && AskedNothing(w, SettleFirst(w, items, marks, n))
    ensures SettleFirst(w, items, marks, n).clean ==> HttpDeliver.Unmarked !in marks[..n]
  {
    if n > 0 {
      assert marks[..n] == marks[..n - 1] + [marks[n - 1]];
    }
  }

  /** Delivered entries were carried by an accepted POST. */
  lemma DeliveredAreSettled(log: seq<Event>, items: seq<Item>, script: seq<HttpDeliver.Event>)
    ensures var o := HttpDeliver.Send(script, 0, |items|, HttpDeliver.BACKOFF_INITIAL);
            && |o.marks| == |items| && HttpDeliver.PostsWithin(o.posts, 0, |items|)
            && forall i :: 0 <= i < |items| && o.marks[i] == HttpDeliver.Delivered ==>
                 Settled(log + PostEvents(items, o.posts), items[i].id)
  {
    hide HttpDeliver.Send;
    hide HttpDeliver.AcceptedWith;
    hide PostEvents;
    hide IdsOf;
    var o := HttpDeliver.Send(script, 0, |items|, HttpDeliver.BACKOFF_INITIAL);
    HttpDeliver.SendShape(script, 0, |items|, HttpDeliver.BACKOFF_INITIAL);
    forall i | 0 <= i < |items| && o.marks[i] == HttpDeliver.Delivered
      ensures Settled(log + PostEvents(items, o.posts), items[i].id)
    {
      HttpDeliver.DeliveredExactlyOnce(script, 0, |items|, HttpDeliver.BACKOFF_INITIAL, i);
      var p := HttpDeliver.AcceptedPost(o.posts, i);
      var k :| 0 <= k < |o.posts| && o.posts[k] == p;
      var carried := items[p.lo..p.lo + p.count];
      assert carried[i - p.lo] == items[i];
      assert IdsOf(carried)[i - p.lo] == items[i].id;
      assert (log + PostEvents(items, o.posts))[|log| + k] == Posted(IdsOf(carried), p.status);
    }
  }

  // ---------------------------------------------------------------- the consumer

  function Tail<T>(s: seq<T>): (t: seq<T>) {
    if s == [] then [] else s[1..]
  }

  /** The next n allocations succeed. */
  predicate Granted(allocs: seq<bool>, n: nat) {
    forall k :: 0 <= k < n && k < |allocs| ==> allocs[k]
  }

  /** The next n answers are fine and hand out nothing. */
  predicate NothingOffered(answers: seq<Answer>, n: nat) {
    n <= |answers| && forall i :: 0 <= i < n ==> answers[i].reply.OkReply? && answers[i].entries == []
  }

  lemma GrantedMore(allocs: seq<bool>, n: nat)
    ensures Granted(allocs, n + 1) <==> Granted(allocs, 1) && Granted(Tail(allocs), n)
  {
    if allocs != [] && Granted(allocs, n + 1) {
      assert forall k :: 0 <= k < n && k < |Tail(allocs)| ==> Tail(allocs)[k] == allocs[k + 1];
    }
    if allocs != [] && Granted(Tail(allocs), n) {
      assert forall k :: 1 <= k < n + 1 && k < |allocs| ==> allocs[k] == Tail(allocs)[k - 1];
    }
  }

  /** The first n commands are answered and succeed. */
  predicate AllFine(answers: seq<Answer>, n: nat) {
    n <= |answers| && forall i :: 0 <= i < n ==> answers[i].reply.OkReply?
  }

  /** Among the first n commands, the first that does not succeed gets an error reply. */
  ghost predicate ErrorFirst(answers: seq<Answer>, n: nat) {
    exists i :: 0 <= i < n && i < |answers| && answers[i].reply.ErrorReply? && AllFine(answers, i)
  }

  /** Among the first n commands, the first that does not succeed gets no reply. */
  ghost predicate MissingFirst(answers: seq<Answer>, n: nat) {
    exists i :: 0 <= i < n && (i < |answers| ==> answers[i].reply.NoReply?) && AllFine(answers, i)
  }

  lemma FirstNotFine(answers: seq<Answer>, i: nat, n: nat)
    requires i < n && AllFine(answers, i)
    ensures i < |answers| && answers[i].reply.OkReply? ==> AllFine(answers, i + 1)
    ensures i < |answers| && answers[i].reply.ErrorReply? ==> ErrorFirst(answers, n) && !MissingFirst(answers, n)
    ensures i == |answers| || answers[i].reply.NoReply? ==> MissingFirst(answers, n) && !ErrorFirst(answers, n)
  {
  }

  lemma NoneNotFine(answers: seq<Answer>, n: nat)
    requires AllFine(answers, n)
    ensures !ErrorFirst(answers, n) && !MissingFirst(answers, n)
  {
  }

  class Consumer {
    const render: (Id, seq<byte>) -> Rendered
    const streamCount: nat
    const endpointCount: nat
    const batchSize: int
    const stdoutMode: bool
    var world: World
    var batch: seq<Item>
    var allocs: seq<bool>                          // answers of the allocator
    var ticks: seq<bool>                           // whether the flush interval has elapsed
    var deliveries: seq<seq<HttpDeliver.Event>>    // what each HTTP batch meets
    var connects: seq<bool>                        // connection attempts
    var checks: nat                                // run loop checks before a stop is signalled
    var stopped: bool                              // a check has seen the stop flag, which is never cleared

    /** The at-least-once contract; batched entries have been read. */
    ghost predicate Safe()
      reads this`world, this`batch
    {
      && AckedOnlyWhenSettled(world.log)
      && forall i :: 0 <= i < |batch| ==> EverRead(world.log, batch[i].id)
    }

    /** Nothing read is forgotten: without a failure it is acknowledged or in the batch. */
    ghost predicate Tidy()
      reads this`world, this`batch
    {
      Complete(world, ItemIds(batch))
    }

    constructor (render: (Id, seq<byte>) -> Rendered, streamCount: nat, endpointCount: nat,
                 batchSize: int, stdoutMode: bool, answers: seq<Answer>, connects: seq<bool>,
                 allocs: seq<bool>, ticks: seq<bool>, deliveries: seq<seq<HttpDeliver.Event>>, checks: nat)
      ensures Safe() && Tidy() && world == World([], answers, true, true, true, 0, []) && batch == []
      ensures this.render == render && this.streamCount == streamCount && this.endpointCount == endpointCount
      ensures this.batchSize == batchSize && this.stdoutMode == stdoutMode && this.connects == connects
      ensures this.allocs == allocs && this.ticks == ticks && this.deliveries == deliveries
      ensures this.checks == checks && !stopped
    {
      this.render, this.streamCount, this.endpointCount := render, streamCount, endpointCount;
      this.batchSize, this.stdoutMode, this.connects := batchSize, stdoutMode, connects;
      this.world := World([], answers, true, true, true, 0, []);
      this.batch := [];
      this.allocs, this.ticks, this.deliveries, this.checks := allocs, ticks, deliveries, checks;
      this.stopped := false;
    }

    method Allocate() returns (ok: bool)
      modifies this`allocs, this`world
      ensures ok == Granted(old(allocs), 1) && allocs == Tail(old(allocs))
      ensures world == old(world).(clean := old(world).clean && ok)
    {
      ok := allocs == [] || allocs[0];
      world := world.(clean := world.clean && ok);
      if allocs != [] {
        allocs := allocs[1..];
      }
    }

    /** cf_stop_notified: once set, the flag stays set, for this loop and for a delivery alike. */
    method StopNotified() returns (stop: bool)
      modifies this`checks, this`stopped
      ensures stop <==> old(stopped) || old(checks) == 0
      ensures stopped == stop && checks == if stop then old(checks) else old(checks) - 1
    {
      stop := stopped || checks == 0;
      stopped := stop;
      if !stop {
        checks := checks - 1;
      }
    }

    /** The fields carry a protobuf CloudFlowEvent. */
    predicate Acceptable(f: Fields) {
      f.encoding == Some(REQUIRED_ENCODING) && f.schema == Some(REQUIRED_SCHEMA) && f.payload.Some?
    }

    /** process_entry. */
    method ProcessEntry(e: Entry, ghost open: set<Id>)
      requires Safe() && EverRead(world.log, e.id)
      modifies this`world, this`batch, this`allocs
      ensures Safe() && old(world).log <= world.log
      requires Complete(world, ItemIds(batch) + ({e.id} + open))
      ensures Complete(world, ItemIds(batch) + open)
      ensures var bad := !Acceptable(e.fields) || !render(e.id, e.fields.payload.value).Output?;
              && (bad ==> world == DeadLetterAndAck(old(world), e.id) && batch == old(batch))
              && (!bad ==>
                    var line := render(e.id, e.fields.payload.value).line;
                    && (line == [] ==> world == Ack(old(world).(log := old(world).log + [NoOutput(e.id)]), e.id) && batch == old(batch))
                    && (line != [] ==>
                          && world == old(world).(clean := old(world).clean && Granted(old(allocs), 1))
                          && batch == if Granted(old(allocs), 1) then old(batch) + [Item(e.id, line, e.fields.payload.value)] else old(batch)))
    {
      hide AckedOnlyWhenSettled;
      hide Complete;
      hide ItemIds;
      ghost var rest := ItemIds(batch) + open;
      assert ItemIds(batch) + ({e.id} + open) == rest + {e.id};
      DeadLetterKeeps(world, e.id);
      DeadLetterCompletes(world, e.id, rest);
      if !Acceptable(e.fields) {
        world := DeadLetterAndAck(world, e.id);
        return;
      }
      var payload := e.fields.payload.value;
      var r := render(e.id, payload);
      if !r.Output? {
        world := DeadLetterAndAck(world, e.id);
        return;
      }
      if |r.line| == 0 {
        QuietEventsKeep(world.log, [NoOutput(e.id)]);
        QuietComplete(world, NoOutput(e.id), rest + {e.id});
        world := world.(log := world.log + [NoOutput(e.id)]);
        assert Settles(world.log[|world.log| - 1], e.id);
        AckKeeps(world, e.id);
        AckCompletes(world, e.id, rest);
        world := Ack(world, e.id);
        return;
      }
      ghost var before := world;
      var ok := Allocate();
      FailedOrSame(before, world, rest + {e.id});
      if ok {
        MoreIds(batch, Item(e.id, r.line, payload));
        assert ItemIds(batch) + {e.id} + open == rest + {e.id};
        batch := batch + [Item(e.id, r.line, payload)];
      } else {
        FailedIsComplete(world, rest);
      }
    }

    /** process_entries_array. */
    method ProcessEntries(entries: seq<Entry>)
      requires Safe() && forall e :: e in entries ==> EverRead(world.log, e.id)
      requires Complete(world, ItemIds(batch) + EntryIds(entries))
      modifies this`world, this`batch, this`allocs
      ensures Safe() && Tidy() && old(world).log <= world.log && old(batch) <= batch
      ensures |world.answers| <= |old(world).answers|
      ensures entries == [] ==> world == old(world)
      ensures Onward(old(world), world) && AskedNothing(old(world), world)
      ensures entries == [] ==> batch == old(batch) && allocs == old(allocs)
    {
      hide AckedOnlyWhenSettled;
      hide Complete;
      hide ItemIds;
      hide EntryIds;
      NoEntryIds();
      assert entries[0..] == entries;
      for i := 0 to |entries|
        invariant Safe() && old(world).log <= world.log && old(batch) <= batch
        invariant |world.answers| <= |old(world).answers|
        invariant i == 0 ==> world == old(world)
        invariant Onward(old(world), world) && AskedNothing(old(world), world)
        invariant i == 0 ==> batch == old(batch) && allocs == old(allocs)
        invariant forall e :: e in entries ==> EverRead(world.log, e.id)
        invariant Complete(world, ItemIds(batch) + EntryIds(entries[i..]))
      {
        assert entries[i] in entries;
        assert entries[i..][0] == entries[i] && entries[i..][1..] == entries[i + 1..];
        FirstEntryId(entries[i..]);
        ProcessEntry(entries[i], EntryIds(entries[i + 1..]));
      }
      assert entries[|entries|..] == [] && ItemIds(batch) + {} == ItemIds(batch);
    }

    /** The first loop of flush_stdout: every line is printed. */
    method PrintAll()
      requires Safe()
      modifies this`world
      ensures Safe() && old(world).log <= world.log && world == old(world).(log := world.log)
      ensures ReadsWithin(old(world).log, world.log) && AcksWithin(old(world).log, world.log)
      ensures forall i :: 0 <= i < |batch| ==> Settled(world.log, batch[i].id)
      ensures old(Tidy()) ==> Tidy()
    {
      hide Complete;
      hide ReadsWithin;
      hide AcksWithin;
      hide AckedOnlyWhenSettled;
      hide ItemIds;
      WithinItself(world.log);
      for i := 0 to |batch|
        invariant Safe() && old(world).log <= world.log
        invariant ReadsWithin(old(world).log, world.log)
        invariant AcksWithin(old(world).log, world.log) && world == old(world).(log := world.log)
        invariant forall k :: 0 <= k < i ==> Settled(world.log, batch[k].id)
        invariant old(Tidy()) ==> Complete(world, ItemIds(batch))
      {
        ghost var log := world.log;
        if old(Tidy()) {
          QuietComplete(world, Printed(batch[i].id), ItemIds(batch));
        }
        QuietEventsKeep(log, [Printed(batch[i].id)]);
        PrintWithin(old(world).log, log, batch[i].id);
        world := world.(log := world.log + [Printed(batch[i].id)]);
        assert Settles(world.log[|log|], batch[i].id);
        forall k | 0 <= k < i ensures Settled(world.log, batch[k].id) {
          SettledGrows(log, [Printed(batch[i].id)], batch[k].id);
        }
      }
    }

    /** flush_stdout: print every line, then acknowledge every entry. */
    method FlushStdout()
      requires Safe()
      modifies this`world
      ensures Safe() && old(world).log <= world.log && |world.answers| <= |old(world).answers|
      ensures ReadsWithin(old(world).log, world.log)
      ensures world.connected == old(world).connected
      ensures world.stray == old(world).stray + if world.connected then 0 else |batch|
      ensures !old(world).alive ==> !world.alive && AcksWithin(old(world).log, world.log)
      ensures AskedNothing(old(world), world) && (world.clean ==> old(world).clean && (old(world).alive ==> world.alive))
      ensures forall i :: 0 <= i < |batch| ==> Settled(world.log, batch[i].id)
      ensures old(Tidy()) ==> Complete(world, {})
    {
      hide Complete;
      hide ReadsWithin;
      hide AcksWithin;
      hide AckedOnlyWhenSettled;
      hide ItemIds;
      PrintAll();
      NoEntryIds();
      assert batch[0..] == batch;
      for i := 0 to |batch|
        invariant Safe() && old(world).log <= world.log && |world.answers| <= |old(world).answers|
        invariant ReadsWithin(old(world).log, world.log)
        invariant world.connected == old(world).connected
        invariant world.stray == old(world).stray + if world.connected then 0 else i
        invariant !old(world).alive ==> !world.alive && AcksWithin(old(world).log, world.log)
        invariant AskedNothing(old(world), world) && (world.clean ==> old(world).clean && (old(world).alive ==> world.alive))
        invariant forall k :: 0 <= k < |batch| ==> Settled(world.log, batch[k].id)
        invariant old(Tidy()) ==> Complete(world, ItemIds(batch[i..]))
      {
        ghost var log := world.log;
        FirstItemId(batch[i..]);
        assert batch[i..][1..] == batch[i + 1..];
        if old(Tidy()) {
          assert {batch[i].id} + ItemIds(batch[i + 1..]) == ItemIds(batch[i + 1..]) + {batch[i].id};
          AckCompletes(world, batch[i].id, ItemIds(batch[i + 1..]));
        }
        AckKeeps(world, batch[i].id);
        AckWithin(old(world).log, world, batch[i].id);
        world := Ack(world, batch[i].id);
        KeepSettled(log);
      }
      assert batch[|batch|..] == [];
    }

    lemma KeepSettled(log: seq<Event>)
      requires log <= world.log && forall k :: 0 <= k < |batch| ==> Settled(log, batch[k].id)
      ensures forall k :: 0 <= k < |batch| ==> Settled(world.log, batch[k].id)
    {
      assert world.log == log + world.log[|log|..];
      forall k | 0 <= k < |batch| ensures Settled(world.log, batch[k].id) {
        SettledGrows(log, world.log[|log|..], batch[k].id);
      }
    }

    /** What the delivery meets: after a stop was seen, its first check sees it too. */
    static function Script(stopped: bool, deliveries: seq<seq<HttpDeliver.Event>>): (s: seq<HttpDeliver.Event>) {
      if stopped || deliveries == [] then [] else deliveries[0]
    }

    /** send_batch: the POSTs become part of the log, the flags show the marks. */
    method SendBatch(delivered: array<bool>, poison: array<bool>) returns (ghost o: HttpDeliver.Out)
      requires Safe() && delivered.Length == |batch| == poison.Length && delivered != poison
      modifies this`world, this`deliveries, this`stopped, delivered, poison
      ensures o == HttpDeliver.Send(Script(old(stopped), old(deliveries)), 0, |batch|, HttpDeliver.BACKOFF_INITIAL)
      ensures stopped == (old(stopped) || HttpDeliver.Unmarked in o.marks)
      ensures |o.marks| == |batch| && HttpDeliver.PostsWithin(o.posts, 0, |batch|)
      ensures world == old(world).(log := old(world).log + PostEvents(batch, o.posts))
      ensures Safe()
      ensures forall i :: 0 <= i < |batch| && o.marks[i] == HttpDeliver.Delivered ==> Settled(world.log, batch[i].id)
      ensures forall i :: 0 <= i < |batch| ==>
                delivered[i] == (o.marks[i] == HttpDeliver.Delivered) && poison[i] == o.marks[i].Poisoned?
    {
      hide HttpDeliver.Send;
      hide AckedOnlyWhenSettled;
      hide Settled;
      var script := Script(stopped, deliveries);
      deliveries := if stopped then deliveries else Tail(deliveries);
      var delivery := new HttpDeliver.Delivery(LinesOf(batch), delivered, poison, script);
      delivery.DeliverBatched();
      o := HttpDeliver.Send(script, 0, |batch|, HttpDeliver.BACKOFF_INITIAL);
      assert [] + o.posts == o.posts;
      DeliveredAreSettled(world.log, batch, script);
      QuietEventsKeep(world.log, PostEvents(batch, o.posts));
      world := world.(log := world.log + PostEvents(batch, delivery.log.posts));
      var left := SomeLeft(delivered, poison);
      assert forall i :: 0 <= i < |batch| ==> (o.marks[i] == HttpDeliver.Unmarked <==> !delivered[i] && !poison[i]);
      stopped := stopped || left;
    }

    /** Whether a stop left some entries neither delivered nor poison. */
    method SomeLeft(delivered: array<bool>, poison: array<bool>) returns (left: bool)
      requires delivered.Length == poison.Length
      ensures left <==> exists i :: 0 <= i < delivered.Length && !delivered[i] && !poison[i]
    {
      for i := 0 to delivered.Length
        invariant forall k :: 0 <= k < i ==> delivered[k] || poison[k]
      {
        if !delivered[i] && !poison[i] {
          return true;
        }
      }
      left := false;
    }

    method SettleAll(delivered: array<bool>, poison: array<bool>, ghost marks: seq<HttpDeliver.Mark>)
      requires delivered.Length == |batch| == poison.Length == |marks|
      requires forall i :: 0 <= i < |batch| ==>
                 delivered[i] == (marks[i] == HttpDeliver.Delivered) && poison[i] == marks[i].Poisoned?
      modifies this`world
      ensures world == SettleFirst(old(world), batch, marks, |batch|)
    {
      hide Command;
      hide Ack;
      hide DeadLetterAndAck;
      for i := 0 to |batch|
        invariant world == SettleFirst(old(world), batch, marks, i)
      {
        if delivered[i] {
          world := Ack(world, batch[i].id);
        } else if poison[i] {
          world := DeadLetterAndAck(world, batch[i].id);
        } else {
          world := world.(clean := false);
        }
      }
    }

    /** flush_hec once its memory is allocated: one batched delivery, then each entry is settled by its
        mark. After a stop was seen it leaves everything as it was. */
    method DeliverAndSettle()
      requires Safe()
      modifies this`world, this`deliveries, this`stopped
      ensures Safe() && old(world).log <= world.log && |world.answers| <= |old(world).answers|
      ensures ReadsWithin(old(world).log, world.log) && Onward(old(world), world) && AskedNothing(old(world), world)
      ensures world.clean ==> stopped == old(stopped)
      ensures old(stopped) ==> world == if batch == [] then old(world) else old(world).(clean := false)
      ensures var o := HttpDeliver.Send(Script(old(stopped), old(deliveries)), 0, |batch|, HttpDeliver.BACKOFF_INITIAL);
              && |o.marks| == |batch| && HttpDeliver.PostsWithin(o.posts, 0, |batch|)
              && world == SettleFirst(old(world).(log := old(world).log + PostEvents(batch, o.posts)),
                                      batch, o.marks, |batch|)
              && stopped == (old(stopped) || HttpDeliver.Unmarked in o.marks)
      ensures old(Tidy()) ==> Complete(world, {})
    {
      hide Complete;
      hide ItemIds;
      hide PostEvents;
      hide SettleFirst;
      hide HttpDeliver.Send;
      hide AckedOnlyWhenSettled;
      hide Settled;
      hide Command;
      hide Ack;
      hide DeadLetterAndAck;
      var delivered, poison := new bool[|batch|], new bool[|batch|];
      ghost var o := SendBatch(delivered, poison);
      if old(Tidy()) {
        NoEntryIds();
        PostsComplete(old(world), PostEvents(batch, o.posts), ItemIds(batch));
        SettleCompletes(world, batch, o.marks, |batch|);
        assert batch[|batch|..] == [];
      }
      SettleKeeps(world, batch, o.marks, |batch|);
      CommandUsesAnswers(world, batch, o.marks, |batch|);
      if old(stopped) {
        StoppedSettlesNothing(old(world), batch);
      }
      SettleAll(delivered, poison, o.marks);
    }

    /** flush_hec. When one of the four allocations fails nothing happens. */
    method FlushHec()
      requires Safe()
      modifies this`world, this`allocs, this`deliveries, this`stopped
      ensures Safe() && old(world).log <= world.log && |world.answers| <= |old(world).answers|
      ensures ReadsWithin(old(world).log, world.log) && Onward(old(world), world) && AskedNothing(old(world), world)
      ensures world.clean ==> stopped == old(stopped)
      ensures old(stopped) ==> stopped && (batch != [] ==> world == old(world).(clean := false))
      ensures !Granted(old(allocs), 4) ==> world == old(world).(clean := false) && stopped == old(stopped)
      ensures Granted(old(allocs), 4) ==>
                 var o := HttpDeliver.Send(Script(old(stopped), old(deliveries)), 0, |batch|, HttpDeliver.BACKOFF_INITIAL);
                 && |o.marks| == |batch| && HttpDeliver.PostsWithin(o.posts, 0, |batch|)
                 && world == SettleFirst(old(world).(log := old(world).log + PostEvents(batch, o.posts)),
                                         batch, o.marks, |batch|)
                 && stopped == (old(stopped) || HttpDeliver.Unmarked in o.marks)
      ensures old(Tidy()) ==> Complete(world, {})
    {
      hide Complete;
      hide ItemIds;
      hide PostEvents;
      hide SettleFirst;
      hide HttpDeliver.Send;
      hide AckedOnlyWhenSettled;
      hide Settled;
      hide Command;
      hide Ack;
      hide DeadLetterAndAck;
      hide Script;
      hide Granted;
      hide Tail;
      GrantedMore(allocs, 3);
      var a := Allocate();
      GrantedMore(allocs, 2);
      var b := Allocate();
      GrantedMore(allocs, 1);
      var c := Allocate();
      var d := Allocate();
      if !a || !b || !c || !d {
        FailedIsComplete(world, {});
        return;
      }
      DeliverAndSettle();
    }

    /** flush_batch. */
    method FlushBatch()
      requires Safe()
      modifies this`world, this`batch, this`allocs, this`deliveries, this`stopped
      ensures !stdoutMode && old(stopped) ==> world == if old(batch) == [] then old(world) else old(world).(clean := false)
      ensures old(stopped) ==> stopped
      ensures ReadsWithin(old(world).log, world.log) && Onward(old(world), world) && AskedNothing(old(world), world)
      ensures world.clean ==> stopped == old(stopped)
      ensures stdoutMode && !old(world).connected ==> world.stray == old(world).stray + |old(batch)|
      ensures stdoutMode && !old(world).alive ==> AcksWithin(old(world).log, world.log)
      ensures Safe() && batch == [] && (old(Tidy()) ==> Tidy())
      ensures old(world).log <= world.log && |world.answers| <= |old(world).answers|
      ensures stdoutMode ==> forall i :: 0 <= i < |old(batch)| ==> Settled(world.log, old(batch)[i].id)
    {
      hide AckedOnlyWhenSettled;
      hide Complete;
      hide ItemIds;
      NoEntryIds();
      if |batch| == 0 {
        return;
      }
      if stdoutMode {
        FlushStdout();
        assert forall i :: 0 <= i < |old(batch)| ==> Settled(world.log, old(batch)[i].id) by {
          assert batch == old(batch);
        }
      } else {
        FlushHec();
      }
      batch := [];
    }

    /** maybe_flush: on a full batch or once the interval has elapsed. */
    method MaybeFlush()
      requires Safe()
      modifies this`world, this`batch, this`allocs, this`deliveries, this`stopped, this`ticks
      ensures Safe() && old(world).log <= world.log && |world.answers| <= |old(world).answers|
      ensures batch == [] || (batch == old(batch) && world == old(world))
      ensures Onward(old(world), world) && AskedNothing(old(world), world)
      ensures world.clean ==> stopped == old(stopped)
      ensures old(Tidy()) ==> Tidy()
      ensures |batch| >= batchSize ==> batch == []
      // due when the batch is full or, each time it is not, when the next tick says so
      ensures batch == [] <==> old(batch) == [] || |old(batch)| >= batchSize || (old(ticks) != [] && old(ticks)[0])
      ensures ticks == if 0 < |old(batch)| < batchSize then Tail(old(ticks)) else old(ticks)
      ensures old(batch) == [] ==> world == old(world) && allocs == old(allocs) && stopped == old(stopped)
      ensures old(PagesRead(world)) ==> PagesRead(world)
    {
      hide AckedOnlyWhenSettled;
      hide PagesRead;
      hide Complete;
      if |batch| == 0 {
        return;
      }
      if |batch| >= batchSize {
        FlushBatch();
        if old(PagesRead(world)) {
          PagesStay(old(world), world);
        }
        return;
      }
      var elapsed := ticks != [] && ticks[0];
      if ticks != [] {
        ticks := ticks[1..];
      }
      if elapsed {
        FlushBatch();
        if old(PagesRead(world)) {
          PagesStay(old(world), world);
        }
      }
    }

    /** Nothing a reading command hands out is unread. */
    method FetchEntries() returns (ok: bool, entries: seq<Entry>)
      requires Safe() && Tidy()
      modifies this`world
      ensures Complete(world, ItemIds(batch) + EntryIds(entries))
      ensures Safe() && world == Fetch(old(world)) && old(world).log <= world.log
      ensures |world.answers| <= |old(world).answers|
      ensures forall e :: e in entries ==> EverRead(world.log, e.id)
      ensures ok <==> AnswerOf(old(world)).reply.OkReply?
      ensures entries == if ok then AnswerOf(old(world)).entries else []
      ensures ok ==> |world.answers| < |old(world).answers|
      ensures old(PagesRead(world)) ==> PagesRead(world)
    {
      hide AckedOnlyWhenSettled;
      hide Complete;
      hide ItemIds;
      hide EntryIds;
      hide PagesRead;
      HandedOut(world);
      FetchOpens(world, ItemIds(batch));
      if !AnswerOf(world).reply.OkReply? {
        FailedIsComplete(Fetch(world), ItemIds(batch) + EntryIds([]));
      }
      var a := AnswerOf(world);
      ghost var handed := ReadsOf(a.entries);
      QuietEventsKeep(world.log, handed);
      assert world.log + [] == world.log;
      ghost var log := world.log;
      world := Fetch(world);
      ok := a.reply.OkReply?;
      entries := if ok then a.entries else [];
      forall e | e in entries ensures EverRead(world.log, e.id) {
        var i :| 0 <= i < |entries| && entries[i] == e;
        assert world.log[|log| + i] == handed[i] == Read(e.id);
      }
    }

    /** cf_consumer_ensure_groups: the first reply that is not fine decides. An error is fatal; a missing
        one is not, and leaves the rest of the groups to fail the same way. */
    method EnsureGroups() returns (ok: bool)
      requires Safe()
      modifies this`world
      ensures Safe() && world.log == old(world).log && |world.answers| <= |old(world).answers|
      ensures world.clean ==> old(world).clean
      ensures ok <==> !(old(world).alive && ErrorFirst(old(world).answers, streamCount))
      ensures world.alive <==> old(world).alive && !MissingFirst(old(world).answers, streamCount)
      ensures Onward(old(world), world) && AskedNothing(old(world), world)
      ensures old(world).alive && AllFine(old(world).answers, streamCount) ==>
                ok && world.alive && world.answers == old(world).answers[streamCount..]
    {
      hide AckedOnlyWhenSettled;
      hide Complete;
      ghost var w := world;
      for i := 0 to streamCount
        invariant Safe() && world.log == old(world).log && |world.answers| <= |old(world).answers|
        invariant world.clean ==> old(world).clean
        invariant Onward(w, world) && AskedNothing(w, world)
        invariant world.alive ==> w.alive && i <= |w.answers| && world.answers == w.answers[i..] && AllFine(w.answers, i)
        invariant !world.alive ==> !w.alive || (MissingFirst(w.answers, streamCount) && !ErrorFirst(w.answers, streamCount))
      {
        var reply := AnswerOf(world).reply;
        assert world.log + [] == world.log;
        if w.alive && world.alive {
          FirstNotFine(w.answers, i, streamCount);
        }
        world := Command(world, []);
        if reply.ErrorReply? {
          return false;
        }
      }
      ok := true;
      if world.alive {
        NoneNotFine(w.answers, streamCount);
      }
    }

    /** read_new: the number of entries read. */
    method ReadNew() returns (n: nat)
      requires Safe() && Tidy()
      modifies this`world, this`batch, this`allocs
      ensures n == if Granted(old(allocs), 1) && AnswerOf(old(world)).reply.OkReply? then |AnswerOf(old(world)).entries| else 0
      ensures Granted(old(allocs), 1) ==> Fetch(old(world)).log <= world.log && world.pages == Fetch(old(world)).pages
      ensures !Granted(old(allocs), 1) ==> world.pages == old(world).pages && !world.clean
      ensures world.clean ==> |world.pages| == |old(world).pages| + 1 && n == |world.pages[|old(world).pages|]|
      ensures Safe() && Tidy() && old(world).log <= world.log && old(batch) <= batch && old(world).pages <= world.pages
      ensures |world.answers| <= |old(world).answers|
      ensures n > 0 ==> |world.answers| < |old(world).answers|
      ensures !old(world).alive ==> n == 0
      ensures Onward(old(world), world) && (old(PagesRead(world)) ==> PagesRead(world))
    {
      hide AckedOnlyWhenSettled;
      hide Complete;
      hide ItemIds;
      hide EntryIds;
      hide PagesRead;
      var a := Allocate();
      FailedOrSame(old(world), world, ItemIds(batch));
      if old(PagesRead(world)) {
        PagesStay(old(world), world);
      }
      if !a {
        return 0;
      }
      var ok, entries := FetchEntries();
      ghost var fetched := world;
      ProcessEntries(entries);
      if old(PagesRead(world)) {
        PagesStay(fetched, world);
      }
      n := |entries|;
    }

    /** reclaim_stream: one XAUTOCLAIM page. What the server hands out, heard or not, is logged as read. */
    method ReclaimStream() returns (ghost page: seq<Entry>)
      requires Safe() && Tidy()
      modifies this`world, this`batch, this`allocs
      ensures Safe() && Tidy() && old(world).log <= world.log && old(batch) <= batch
      ensures |world.answers| <= |old(world).answers|
      ensures page == (if Executed(AnswerOf(old(world))) then AnswerOf(old(world)).entries else [])
              && world.pages == old(world).pages + [page]
      ensures PageRead(world.log, page)
      ensures !old(world).alive ==> page == [] && !world.alive && world.log == old(world).log
      ensures old(world).alive && NothingOffered(old(world).answers, 1) ==>
                && world.alive && world.answers == old(world).answers[1..] && world.log == old(world).log
                && batch == old(batch) && allocs == old(allocs)
      ensures Onward(old(world), world) && (old(PagesRead(world)) ==> PagesRead(world))
    {
      hide AckedOnlyWhenSettled;
      hide Complete;
      hide ItemIds;
      hide EntryIds;
      hide PagesRead;
      page := if Executed(AnswerOf(world)) then AnswerOf(world).entries else [];
      HandedOut(world);
      assert world.log + [] == world.log;
      var ok, entries := FetchEntries();
      ghost var fetched := world;
      ProcessEntries(entries);
      PageStays(fetched.log, world.log, page);
      if old(PagesRead(world)) {
        PagesStay(fetched, world);
      }
    }

    /** reclaim_all: one page per stream, the first of which answers the first command. */
    method ReclaimAll() returns (ghost handed: seq<Entry>)
      requires Safe() && Tidy()
      modifies this`world, this`batch, this`allocs
      ensures Safe() && Tidy() && old(world).log <= world.log && old(batch) <= batch
      ensures |world.answers| <= |old(world).answers|
      ensures PageRead(world.log, handed)
      ensures streamCount > 0 && Executed(AnswerOf(old(world))) ==> AnswerOf(old(world)).entries <= handed
      ensures !old(world).alive ==> handed == [] && world.log == old(world).log
      ensures old(world).pages <= world.pages && |world.pages| == |old(world).pages| + streamCount
      ensures old(world).alive && NothingOffered(old(world).answers, streamCount) ==>
                && world.alive && world.answers == old(world).answers[streamCount..] && world.log == old(world).log
                && batch == old(batch) && allocs == old(allocs)
      ensures Onward(old(world), world) && (old(PagesRead(world)) ==> PagesRead(world))
    {
      hide AckedOnlyWhenSettled;
      hide Complete;
      hide ItemIds;
      hide EntryIds;
      hide Executed;
      hide AnswerOf;
      hide PagesRead;
      handed := [];
      ghost var was := world.answers;
      for i := 0 to streamCount
        invariant Safe() && Tidy() && old(world).log <= world.log && old(batch) <= batch
        invariant |world.answers| <= |old(world).answers|
        invariant PageRead(world.log, handed)
        invariant i == 0 ==> world == old(world) && handed == []
        invariant i > 0 && Executed(AnswerOf(old(world))) ==> AnswerOf(old(world)).entries <= handed
        invariant !old(world).alive ==> handed == [] && !world.alive && world.log == old(world).log
        invariant old(world).pages <= world.pages && |world.pages| == |old(world).pages| + i
        invariant old(world).alive && NothingOffered(was, streamCount) ==>
                    && world.alive && world.answers == was[i..] && world.log == old(world).log
                    && batch == old(batch) && allocs == old(allocs)
        invariant Onward(old(world), world) && (old(PagesRead(world)) ==> PagesRead(world))
      {
        ghost var page := ReclaimStream();
        handed := handed + page;
      }
    }

    /** The loop of cf_consumer_run_once: reads until a read hands out nothing. */
    method ReadUntilEmpty()
      requires Safe() && Tidy()
      modifies this`world, this`batch, this`allocs, this`deliveries, this`stopped, this`ticks
      ensures Safe() && Tidy() && old(world).log <= world.log && old(world).pages <= world.pages
      ensures Onward(old(world), world) && (old(PagesRead(world)) ==> PagesRead(world))
      ensures world.clean ==> |world.pages| > |old(world).pages| && LastIsEmpty(world.pages, |old(world).pages|)
    {
      hide AckedOnlyWhenSettled;
      hide Complete;
      hide ItemIds;
      hide PagesRead;
      while true
        invariant Onward(old(world), world) && (old(PagesRead(world)) ==> PagesRead(world))
        invariant Safe() && Tidy() && old(world).log <= world.log && old(world).pages <= world.pages
        invariant world.clean ==> forall k :: |old(world).pages| <= k < |world.pages| ==> world.pages[k] != []
        decreases |world.answers|
      {
        var n := ReadNew();
        MaybeFlush();
        if n == 0 {
          break;
        }
      }
    }

    /** cf_consumer_run_once: always safe, and if nothing failed, every entry read is acknowledged, and it has
        read on until a read handed out nothing: a page for each stream, then the pages of the reads, all
        but the last with entries. */
    method RunOnce() returns (ok: bool)
      requires Safe() && Tidy()
      modifies this`world, this`batch, this`allocs, this`deliveries, this`stopped, this`ticks
      ensures Safe() && Tidy() && old(world).log <= world.log
      ensures ok && world.clean ==> forall id :: EverRead(world.log, id) ==> EverAcked(world.log, id) && Settled(world.log, id)
      ensures ok ==> batch == []
      ensures Onward(old(world), world) && (old(PagesRead(world)) ==> PagesRead(world))
      ensures !ok ==> batch == old(batch) && world.log == old(world).log
      ensures ok && world.clean ==>
                && old(world).pages <= world.pages && |world.pages| > |old(world).pages| + streamCount
                && LastIsEmpty(world.pages, |old(world).pages| + streamCount)
    {
      hide AckedOnlyWhenSettled;
      hide Complete;
      hide ItemIds;
      hide PagesRead;
      hide LastIsEmpty;
      ok := EnsureGroups();
      FailedOrSame(old(world), world, ItemIds(batch));
      if old(PagesRead(world)) {
        PagesStay(old(world), world);
      }
      if !ok {
        return;
      }
      var _ := ReclaimAll();
      MaybeFlush();
      ReadUntilEmpty();
      ghost var before := world;
      FlushBatch();
      if old(PagesRead(world)) {
        PagesStay(before, world);
      }
      AllAcknowledged(world);
    }

    /** reconnect_redis: false exactly when a stop was seen first, and then there is no context any more.
        The batch and the log are left alone, and no command goes astray. */
    method Reconnect() returns (ok: bool)
      requires Safe() && !world.alive
      modifies this`world, this`connects, this`checks, this`stopped
      ensures world.clean ==> old(world).clean
      ensures Safe() && world.log == old(world).log && checks <= old(checks)
      ensures AskedNothing(old(world), world)
      ensures ok <==> !stopped
      ensures old(stopped) || old(checks) == 0 ==> !ok
      ensures world.connected == ok && world.stray == old(world).stray
      ensures !ok ==> !world.alive && (old(stopped) || checks == 0)
    {
      hide AckedOnlyWhenSettled;
      world := world.(connected := false);
      while true
        invariant world.clean ==> old(world).clean
        invariant !world.connected && world.stray == old(world).stray && AskedNothing(old(world), world)
        invariant Safe() && world.log == old(world).log && checks <= old(checks) && !world.alive
        invariant stopped == old(stopped)
        decreases checks
      {
        var stop := StopNotified();
        if stop {
          return false;
        }
        ghost var left := checks;
        for tries := 0 to endpointCount
          invariant !world.connected && world.stray == old(world).stray && AskedNothing(old(world), world)
          invariant checks == left < old(checks) && !stopped && (world.clean ==> old(world).clean)
          invariant Safe() && world.log == old(world).log && !world.alive
        {
          var up := connects != [] && connects[0];
          if connects != [] {
            connects := connects[1..];
          }
          if up {
            world := world.(alive := true, connected := true);
            var groups := EnsureGroups();
            if groups {
              return true;
            }
            world := world.(alive := false, connected := false);
          }
        }
      }
    }

    /** The flush after a stop was seen. `halt` is the world and `last` the batch at the stop. Of what was
        read up to then, without a failure, everything ends up acknowledged exactly when all of that
        batch does. With HTTP nothing is sent: the delivery sees the same stop. */
    method FinalFlush() returns (ghost halt: World, ghost last: seq<Item>)
      requires Safe() && Tidy() && stopped
      modifies this`world, this`batch, this`allocs, this`deliveries, this`stopped
      ensures Safe() && Tidy() && batch == [] && stopped
      ensures halt == old(world) && last == old(batch) && halt.log <= world.log
      ensures forall it :: it in last ==> EverRead(halt.log, it.id)
      ensures !stdoutMode ==> world == if last == [] then halt else halt.(clean := false)
      ensures !stdoutMode ==> forall it :: it in last && !EverAcked(halt.log, it.id) ==> Pending(world.log, it.id)
      ensures stdoutMode ==> forall it :: it in last ==> Settled(world.log, it.id)
      ensures world.stray == halt.stray + if stdoutMode && !halt.connected then |last| else 0
      ensures AskedNothing(halt, world) && Onward(halt, world) && (stdoutMode && !halt.alive ==> AcksWithin(halt.log, world.log))
      ensures halt.clean ==> (AllAcked(world.log) <==> forall it :: it in last ==> EverAcked(world.log, it.id))
      ensures world.clean ==> AllAcked(world.log) && forall id :: EverRead(world.log, id) ==> Settled(world.log, id)
    {
      hide AckedOnlyWhenSettled;
      hide Complete;
      hide ItemIds;
      hide Settled;
      halt, last := world, batch;
      forall it | it in last ensures EverRead(halt.log, it.id) {
        var i :| 0 <= i < |last| && last[i] == it;
      }
      FlushBatch();
      AllAcknowledged(world);
      if halt.clean {
        StrandedOnlyFromBatch(halt, world.log, last);
      }
    }

    /** The part of a turn behind the check for a dead connection. */
    method Serve() returns (stop: bool)
      requires Safe() && Tidy()
      modifies this
      ensures Safe() && Tidy() && old(world).log <= world.log && old(world).pages <= world.pages
      ensures checks <= old(checks) && (stop ==> stopped) && connects == old(connects)
      ensures batch == [] || |batch| < batchSize
      ensures Onward(old(world), world) && (old(PagesRead(world)) ==> PagesRead(world))
      ensures world.clean && !old(stopped) ==>
                && stop == (old(checks) == 0)
                && |world.pages| == |old(world).pages| + streamCount + (if stop then 0 else 1)
                && (!stop ==> !stopped && checks == old(checks) - 1)
      ensures old(world.alive && !stopped && checks > 0 && batch == [] && Granted(allocs, 1))
              && NothingOffered(old(world).answers, streamCount) && streamCount < |old(world).answers| ==>
                !stop && (Executed(old(world).answers[streamCount]) ==> PageRead(world.log, old(world).answers[streamCount].entries))
    {
      hide AckedOnlyWhenSettled;
      hide Complete;
      hide ItemIds;
      hide Settled;
      hide PagesRead;
      hide NothingOffered;
      hide Granted;
      hide EverRead;
      var _ := ReclaimAll();
      MaybeFlush();
      stop := StopNotified();
      if stop {
        return;
      }
      ghost var asked := world;
      var n := ReadNew();
      FetchReads(asked);
      ghost var fetched := world.log;
      MaybeFlush();
      if Executed(AnswerOf(asked)) && PageRead(fetched, AnswerOf(asked).entries) {
        PageStays(fetched, world.log, AnswerOf(asked).entries);
      }
    }

    /** One turn of the loop of cf_consumer_run_forever; `stop` says that it is the last. */
    method Turn() returns (stop: bool, ghost cut: bool)
      requires Safe() && Tidy()
      modifies this
      ensures Safe() && Tidy() && old(world).log <= world.log && old(world).pages <= world.pages
      ensures checks <= old(checks) && (if stop then stopped else checks < old(checks))
      ensures old(world).connected ==> world.connected == !cut && world.stray == old(world).stray
      ensures cut ==> stop && !world.alive
      ensures old(batch) == [] || |old(batch)| < batchSize ==> batch == [] || |batch| < batchSize
      ensures world.clean ==> old(world).clean && (old(world).alive ==> world.alive)
      ensures old(PagesRead(world)) ==> PagesRead(world)
      // as long as nothing fails, a turn asks for one page of every stream, and then reads, unless a
      // check of the two sees the stop
      ensures world.clean && old(world).alive && !old(stopped) ==>
                && stop == (old(checks) < 2)
                && |world.pages| == |old(world).pages| + (if old(checks) == 0 then 0 else streamCount)
                                    + (if old(checks) < 2 then 0 else 1)
                && (!stop ==> !stopped && checks == old(checks) - 2)
      // on the inputs: when no stream has anything to reclaim, the next answer is the read's
      ensures old(world.alive && !stopped && checks >= 2 && batch == [] && Granted(allocs, 1))
              && NothingOffered(old(world).answers, streamCount) && streamCount < |old(world).answers| ==>
                !stop && (Executed(old(world).answers[streamCount]) ==> PageRead(world.log, old(world).answers[streamCount].entries))
    {
      hide AckedOnlyWhenSettled;
      hide Complete;
      hide ItemIds;
      hide Settled;
      hide PagesRead;
      hide NothingOffered;
      hide Granted;
      hide EverRead;
      hide PageRead;
      cut := false;
      stop := StopNotified();
      if stop {
        return;
      }
      if !world.alive {
        ghost var before := world;
        var back := Reconnect();
        FailedOrSame(before, world, ItemIds(batch));
        if old(PagesRead(world)) {
          PagesStay(before, world);
        }
        if !back {
          return true, true;
        }
      }
      stop := Serve();
    }

    /** The loop of cf_consumer_run_forever; `cut` says that the stop was seen inside Reconnect. */
    method Loop() returns (ghost cut: bool)
      requires Safe() && Tidy()
      modifies this
      ensures Safe() && Tidy() && stopped && old(world).log <= world.log && old(world).pages <= world.pages
      ensures old(batch) == [] || |old(batch)| < batchSize ==> batch == [] || |batch| < batchSize
      ensures old(PagesRead(world)) ==> PagesRead(world)
      ensures old(world).connected ==> world.connected == !cut && world.stray == old(world).stray
      ensures (cut ==> !world.alive) && (world.clean ==> old(world).clean)
      ensures world.clean && old(world).alive && !old(stopped) ==>
                |world.pages| == |old(world).pages| + streamCount * ((old(checks) + 1) / 2) + old(checks) / 2
      ensures && old(world.alive && !stopped && checks >= 2 && batch == [] && Granted(allocs, 1))
              && NothingOffered(old(world).answers, streamCount) && streamCount < |old(world).answers|
              && Executed(old(world).answers[streamCount])
              ==> PageRead(world.log, old(world).answers[streamCount].entries)
    {
      hide AckedOnlyWhenSettled;
      hide Complete;
      hide ItemIds;
      hide Settled;
      hide PagesRead;
      hide PageRead;
      hide EverRead;
      hide EverAcked;
      hide Granted;
      hide NothingOffered;
      hide Executed;
      ghost var turns: nat, page: seq<Entry> := 0, [];
      ghost var ahead := world.alive && !stopped && checks >= 2 && batch == [] && Granted(allocs, 1)
                         && NothingOffered(world.answers, streamCount) && streamCount < |world.answers| && Executed(world.answers[streamCount]);
      if ahead {
        page := world.answers[streamCount].entries;
      }
      var stop := false;
      cut := false;
      while !stop
        invariant Safe() && Tidy() && old(world).log <= world.log && old(world).pages <= world.pages
        invariant old(batch) == [] || |old(batch)| < batchSize ==> batch == [] || |batch| < batchSize
        invariant old(PagesRead(world)) ==> PagesRead(world)
        invariant old(world).connected ==> world.connected == !cut && world.stray == old(world).stray
        invariant (cut ==> stop && !world.alive) && (stop ==> stopped)
        invariant world.clean ==> old(world).clean && (old(world).alive ==> world.alive)
        invariant world.clean && old(world).alive && !old(stopped) ==>
                    if stop then |world.pages| == |old(world).pages| + streamCount * ((old(checks) + 1) / 2) + old(checks) / 2
                    else && !stopped && checks == old(checks) - 2 * turns
                         && |world.pages| == |old(world).pages| + (streamCount + 1) * turns
        invariant turns == 0 && !stop ==>
                    world == old(world) && batch == old(batch) && checks == old(checks) && stopped == old(stopped) && allocs == old(allocs)
        invariant ahead ==> (if turns == 0 then !stop else PageRead(world.log, page))
        decreases !stop, checks
      {
        ghost var before := world.log;
        stop, cut := Turn();
        if turns > 0 && ahead {
          PageStays(before, world.log, page);
        }
        PagesAtStop(streamCount, turns, old(checks));
        if !stop {
          turns := turns + 1;
          PagesPerRead(streamCount, turns);
        }
      }
    }

    /** cf_consumer_run_forever, until a stop is seen: always safe, whatever happens to the connection.
        `halt` and `last` are the world and the batch at the stop, as in FinalFlush, and `cut` says that
        the stop was seen inside Reconnect. A command is issued without a context exactly when it was, in
        stdout mode, with a batch that is not empty: one for each entry of it. */
    method RunForever() returns (ok: bool, ghost halt: World, ghost last: seq<Item>, ghost cut: bool)
      requires Safe() && Tidy()
      modifies this
      ensures Safe() && Tidy() && old(world).log <= world.log
      ensures ok ==> batch == [] && stopped
      ensures !ok ==> batch == old(batch) && world.log == old(world).log
      ensures ok ==> old(world).log <= halt.log <= world.log && forall it :: it in last ==> EverRead(halt.log, it.id)
      ensures ok && !stdoutMode ==> world == if last == [] then halt else halt.(clean := false)
      ensures ok && stdoutMode ==> forall it :: it in last ==> Settled(world.log, it.id)
      ensures !ok ==> Onward(old(world), world)
      ensures ok && old(world).connected ==>
                && halt.connected == !cut && (cut ==> !halt.alive) && halt.stray == old(world).stray
                && world.stray == old(world).stray + (if stdoutMode && cut then |last| else 0)
      ensures ok && halt.clean ==> (AllAcked(world.log) <==> forall it :: it in last ==> EverAcked(world.log, it.id))
      ensures ok && world.clean ==> AllAcked(world.log) && forall id :: EverRead(world.log, id) ==> Settled(world.log, id)
      // no full batch ever waits
      ensures ok && (old(batch) == [] || |old(batch)| < batchSize) ==> last == [] || |last| < batchSize
      // every page handed out is read; and if nothing failed up to the stop, the run has asked each stream
      // for a page on the first check of every two, and read on the second
      ensures ok && old(PagesRead(world)) ==> PagesRead(halt) && old(world).pages <= halt.pages
      ensures ok && halt.clean && old(world).alive && !old(stopped) ==>
                |halt.pages| == |old(world).pages| + streamCount * ((old(checks) + 1) / 2) + old(checks) / 2
      // on the inputs: with fine groups, nothing to reclaim and a stop only later, what the read is
      // answered with is read
      ensures old(world.alive && !stopped && checks >= 2 && batch == [] && Granted(allocs, 1))
              && OneReadAhead(old(world).answers, streamCount) ==>
                ok && PageRead(halt.log, old(world).answers[2 * streamCount].entries)
    {
      hide AckedOnlyWhenSettled;
      hide Complete;
      hide ItemIds;
      hide Settled;
      hide PagesRead;
      hide PageRead;
      hide EverRead;
      hide EverAcked;
      hide Granted;
      hide NothingOffered;
      hide Executed;
      hide AllAcked;
      halt, last, cut := world, batch, false;
      ok := EnsureGroups();
      FailedOrSame(old(world), world, ItemIds(batch));
      if old(PagesRead(world)) {
        PagesStay(old(world), world);
      }
      if !ok {
        return;
      }
      if OneReadAhead(old(world).answers, streamCount) {
        OneReadAheadSplits(old(world).answers, streamCount);
      }
      cut := Loop();
      halt, last := FinalFlush();
    }
  }

  /** Fine answers to the group commands, nothing to reclaim from any stream, and an answer to the read. */
  predicate OneReadAhead(answers: seq<Answer>, streamCount: nat) {
    && 2 * streamCount < |answers| && AllFine(answers, streamCount)
    && (forall i :: streamCount <= i < 2 * streamCount ==> answers[i].reply.OkReply? && answers[i].entries == [])
    && Executed(answers[2 * streamCount])
  }

  lemma OneReadAheadSplits(answers: seq<Answer>, n: nat)
    requires OneReadAhead(answers, n)
    ensures AllFine(answers, n) && NothingOffered(answers[n..], n) && n < |answers[n..]|
    ensures answers[n..][n] == answers[2 * n] && Executed(answers[n..][n])
  {
    assert forall i :: 0 <= i < n ==> answers[n..][i] == answers[n + i];
  }

  lemma PagesPerRead(n: nat, turns: nat)
    requires turns > 0
    ensures (n + 1) * turns == (n + 1) * (turns - 1) + n + 1
  {
  }

  lemma PagesAtStop(n: nat, turns: nat, checks: nat)
    ensures checks == 2 * turns ==> (n + 1) * turns == n * ((checks + 1) / 2) + checks / 2
    ensures checks == 2 * turns + 1 ==> (n + 1) * turns + n == n * ((checks + 1) / 2) + checks / 2
  {
    assert (n + 1) * turns == n * turns + turns && n * (turns + 1) == n * turns + n;
    if checks == 2 * turns {
      assert (checks + 1) / 2 == turns && checks / 2 == turns;
    } else if checks == 2 * turns + 1 {
      assert (checks + 1) / 2 == turns + 1 && checks / 2 == turns;
    }
  }

  /** What was read before the stop is acknowledged once the batch is. */
  lemma StrandedOnlyFromBatch(halt: World, log: seq<Event>, last: seq<Item>)
    requires halt.clean && Complete(halt, ItemIds(last)) && halt.log <= log
    requires forall it :: it in last ==> EverRead(halt.log, it.id)
    requires ReadsWithin(halt.log, log)
    ensures AllAcked(log) <==> forall it :: it in last ==> EverAcked(log, it.id)
  {
  }

  lemma OneEntryId(e: Entry)
    ensures EntryIds([e]) == {e.id} + {}
  {
  }

  /** A consumer that has read one entry and batched its line. */
  method ReadOneEntry(id: Id, line: seq<byte>, stdoutMode: bool, deliveries: seq<seq<HttpDeliver.Event>>) returns (c: Consumer)
    requires line != []
    ensures fresh(c) && c.Safe() && c.Tidy() && c.stdoutMode == stdoutMode && c.deliveries == deliveries
    ensures c.batch == [Item(id, line, [])] && c.world == World([Read(id)], [], true, true, true, 0, c.world.pages)
    ensures !c.stopped && c.checks == 0
  {
    hide AckedOnlyWhenSettled;
    hide Complete;
    hide EntryIds;
    hide ItemIds;
    var e := Entry(id, Fields(Some(REQUIRED_ENCODING), Some(REQUIRED_SCHEMA), Some([])));
    c := new Consumer((_, _) => Output(line), 1, 1, 10, stdoutMode, [Answer(true, OkReply, [e])], [], [], [], deliveries, 0);
    var ok, entries := c.FetchEntries();
    assert c.world.log == [] + ReadsOf([e]) == [Read(id)];
    OneEntryId(e);
    c.ProcessEntry(entries[0], {});
    assert ItemIds(c.batch) + {} == ItemIds(c.batch);
  }

  /** A stop right after an entry was read: whatever the server would have answered, its line is never
      sent, and the entry stays pending. */
  method ShutdownStrandsBatch(id: Id, line: seq<byte>, deliveries: seq<seq<HttpDeliver.Event>>) returns (c: Consumer)
    requires line != []
    ensures !c.stdoutMode && c.batch == [] && c.world.log == [Read(id)] && Pending(c.world.log, id)
  {
    hide Settled;
    hide AllAcked;
    hide Consumer.Safe;
    hide Consumer.Tidy;
    c := ReadOneEntry(id, line, false, deliveries);
    var stop := c.StopNotified();
    ghost var halt, last := c.FinalFlush();
    assert last[0] in last && EverRead(halt.log, last[0].id);
  }

  /** In stdout mode, a stop that comes while the connection is lost: the entry is printed and its
      acknowledgement is issued without a context, so the entry stays pending. */
  method ShutdownWithoutContext(id: Id, line: seq<byte>) returns (c: Consumer)
    requires line != []
    ensures c.stdoutMode && c.batch == [] && !c.world.connected && c.world.stray == 1
    ensures Pending(c.world.log, id) && Settled(c.world.log, id)
  {
    hide Settled;
    hide AllAcked;
    hide Complete;
    hide ItemIds;
    hide EntryIds;
    hide AckedOnlyWhenSettled;
    c := ReadOneEntry(id, line, true, []);
    NoEntryIds();
    var ok, entries := c.FetchEntries();
    assert c.world.log == [Read(id)] + [];
    assert ItemIds(c.batch) + {} == ItemIds(c.batch);
    ghost var before := c.world;
    var back := c.Reconnect();
    FailedOrSame(before, c.world, ItemIds(c.batch));
    ghost var halt, last := c.FinalFlush();
    assert last[0] in last && EverRead(halt.log, last[0].id);
  }
}
