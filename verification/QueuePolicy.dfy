/** The ring as one thread at a time sees it (cf_queue.c), and the backpressure policies on top of
    it (cf_queue_policy.c). */
module QueuePolicy {
  import opened Modular

  const BLOCK_MAX_RETRIES := 500

  datatype Policy = DropNewest | DropOldest | Block

  /** What happens while a blocked push sleeps: shutdown, or the consumer takes some elements. */
  datatype Meanwhile = Stop | Consumed(n: nat)

  /** The slot i places behind slot t. */
  function Slot(t: nat, i: nat, cap: nat): (s: nat)
    requires t < cap && i <= cap
    ensures s < cap
  {
    if t + i < cap then t + i else t + i - cap
  }

  lemma NextSlot(t: nat, cap: nat)
    requires t < cap && cap >= 2
    ensures (t + 1) % cap == Slot(t, 1, cap)
  {
    ModUnique(t + 1, cap, if t + 1 < cap then 0 else 1, Slot(t, 1, cap));
  }

  class Ring<T(0)> {
    const storage: array<T>
    var head: nat
    var tail: nat
    ghost var contents: seq<T>   // queued elements, oldest first

    ghost predicate Valid()
      reads this, storage
    {
      && storage.Length >= 2 && tail < storage.Length
      && |contents| < storage.Length
      && head == Slot(tail, |contents|, storage.Length)
      && forall i :: 0 <= i < |contents| ==> contents[i] == storage[Slot(tail, i, storage.Length)]
    }

    constructor (capacity: nat)
      requires capacity >= 2
      ensures Valid() && contents == [] && storage.Length == capacity && fresh(storage)
    {
      storage := new T[capacity];
      head, tail := 0, 0;
      contents := [];
    }

    /** 0 when the element was queued, 1 when the ring was full. */
    method Push(e: T) returns (rc: int)
      requires Valid()
      modifies this, storage
      ensures Valid()
      ensures rc == if |old(contents)| == storage.Length - 1 then 1 else 0
      ensures contents == if rc == 0 then old(contents) + [e] else old(contents)
    {
      NextSlot(head, storage.Length);
      var next := (head + 1) % storage.Length;
      if next == tail {
        return 1;
      }
      storage[head] := e;
      head := next;
      contents := contents + [e];
      return 0;
    }

    /** The oldest element, or rc == 1 when there is none. */
    method Pop() returns (rc: int, e: T)
      requires Valid()
      modifies this
      ensures Valid()
      ensures rc == if old(contents) == [] then 1 else 0
      ensures rc == 0 ==> e == old(contents)[0] && contents == old(contents)[1..]
      ensures rc == 1 ==> contents == []
    {
      NextSlot(tail, storage.Length);
      e := storage[tail];
      if tail == head {
        return 1, e;
      }
      assert contents[0] == storage[Slot(tail, 0, storage.Length)];
      tail := (tail + 1) % storage.Length;
      contents := contents[1..];
      rc := 0;
    }

    /** Discards the oldest element. */
    method Drop() returns (rc: int)
      requires Valid()
      modifies this
      ensures Valid()
      ensures rc == if old(contents) == [] then 1 else 0
      ensures contents == if old(contents) == [] then [] else old(contents)[1..]
    {
      NextSlot(tail, storage.Length);
      if tail == head {
        return 1;
      }
      tail := (tail + 1) % storage.Length;
      contents := contents[1..];
      return 0;
    }

    method Length() returns (n: nat)
      requires Valid()
      ensures n == |contents|
    {
      if head >= tail {
        return head - tail;
      }
      n := storage.Length - (tail - head);
    }
  }

  /** The consumer at work while the producer sleeps. */
  method ConsumeSome<T(0)>(q: Ring<T>, n: nat)
    requires q.Valid()
    modifies q
    ensures q.Valid()
    ensures q.contents == if n <= |old(q.contents)| then old(q.contents)[n..] else []
  {
    ghost var c := q.contents;
    for i := 0 to n
      invariant q.Valid()
      invariant q.contents == if i <= |c| then c[i..] else []
    {
      var _, _ := q.Pop();
    }
  }

  /** Turn i of a blocked push is the first in which something happens, and what happens is that the
      consumer takes elements. */
  ghost predicate RelievedAt(script: seq<Meanwhile>, i: nat) {
    && i < 500 && i < |script| && script[i].Consumed? && script[i].n > 0
    && forall k :: 0 <= k < i ==> script[k] == Consumed(0)
  }

  /** Nothing has happened in the turns before n. */
  ghost predicate QuietUntil(script: seq<Meanwhile>, n: nat) {
    forall k :: 0 <= k < n && k < |script| ==> script[k] == Consumed(0)
  }

  lemma OnlyRelief(script: seq<Meanwhile>, n: nat)
    requires QuietUntil(script, n) && n < |script| && n < BLOCK_MAX_RETRIES && script[n].Consumed? && script[n].n > 0
    ensures forall i: nat :: RelievedAt(script, i) <==> i == n
  {
  }

  lemma NoRelief(script: seq<Meanwhile>, n: nat)
    requires QuietUntil(script, n) && (n >= BLOCK_MAX_RETRIES || (n < |script| && script[n] == Stop))
    ensures forall i: nat :: !RelievedAt(script, i)
  {
  }

  /** cf_queue_push_policy: 0 when the element is queued, 1 when the policy dropped it. `taken` is the
      number of elements the consumer removed meanwhile; only a blocked push waits for it. Each
      element lost to the policy, old or new, is counted once. A blocked push succeeds exactly when the
      consumer takes something within the retries and before a stop. */
  method PushPolicy<T(0)>(q: Ring<T>, e: T, policy: Policy, drops: nat, script: seq<Meanwhile>)
    returns (rc: int, drops': nat, ghost taken: nat)
    requires q.Valid()
    modifies q, q.storage
    ensures q.Valid() && taken <= |old(q.contents)| && (policy != Block || rc != 0 ==> taken == 0)
    ensures var before, full := old(q.contents), |old(q.contents)| == q.storage.Length - 1;
            && (!full ==> rc == 0 && drops' == drops && q.contents == before + [e] && taken == 0)
            && (full && policy == DropNewest ==> rc == 1 && drops' == drops + 1 && q.contents == before)
            && (full && policy == DropOldest ==> rc == 0 && drops' == drops + 1 && q.contents == before[1..] + [e])
            && (full && policy == Block ==>
                  && (rc == 0 <==> exists i: nat :: RelievedAt(script, i))
                  && (rc == 0 ==> drops' == drops && q.contents == before[taken..] + [e] && taken > 0)
                  && (rc != 0 ==> rc == 1 && drops' == drops + 1 && q.contents == before))
            && (forall i: nat :: full && policy == Block && RelievedAt(script, i) ==>
                  taken == if script[i].n <= |before| then script[i].n else |before|)
    ensures |old(q.contents)| + 1 == |q.contents| + taken + (drops' - drops)
  {
    hide Ring.Valid;
    taken := 0;
    drops' := drops;
    rc := q.Push(e);
    if rc == 0 {
      return;
    }
    match policy {
      case DropOldest =>
        var dropped := q.Drop();
        if dropped == 0 {
          drops' := drops' + 1;
          rc := q.Push(e);
          if rc == 0 {
            return;
          }
        }
        assert false;   // the ring was full, so both the drop and the second push succeed
      case Block =>
        ghost var before := q.contents;
        for retries := 0 to BLOCK_MAX_RETRIES
          invariant q.Valid() && taken == 0 && q.contents == before && drops' == drops
          invariant QuietUntil(script, retries)
        {
          var event := if retries < |script| then script[retries] else Consumed(0);
          if event == Stop {
            NoRelief(script, retries);
            break;
          }
          taken := if taken + event.n <= |before| then taken + event.n else |before|;
          ConsumeSome(q, event.n);
          rc := q.Push(e);
          if rc == 0 {
            OnlyRelief(script, retries);
            assert RelievedAt(script, retries);
            return;
          }
        }
        drops' := drops' + 1;
        return 1, drops', taken;
      case DropNewest =>
        drops' := drops' + 1;
        return 1, drops', taken;
    }
  }
}
