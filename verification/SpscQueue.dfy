/** The single-producer single-consumer ring (cf_queue.c) as two threads of atomic steps: each index
    load, each copied byte and each index store is a step of its own, so either side may act on a
    stale copy of the other's index. */
module SpscQueue {
  import opened Bytes
  import opened Modular

  type Elem = seq<byte>

  /** Where the producer is in cf_queue_push. */
  datatype Producer =
    | PIdle
    | PHead(elem: Elem, h: nat)             // own head loaded
    | PTail(elem: Elem, h: nat, t: nat)     // the consumer's tail loaded
    | PCopy(elem: Elem, h: nat, done: nat)  // `done` bytes written to the slot

  /** Where the consumer is in cf_queue_pop, or in cf_queue_drop when drop holds. */
  datatype Consumer =
    | CIdle
    | CTail(drop: bool, t: nat)
    | CHead(drop: bool, t: nat, h: nat)
    | CCopy(t: nat, buf: Elem)              // the bytes read from the slot so far
    | CDrop(t: nat)

  datatype Taken = Popped(elem: Elem) | Dropped

  /** Shared memory, the two threads, and the history of completed pushes and of pops and drops. */
  datatype State = State(storage: seq<Elem>, head: nat, tail: nat, p: Producer, c: Consumer,
                         pushed: seq<Elem>, taken: seq<Taken>)

  datatype Action = StartPush(elem: Elem) | StepProducer | StartPop | StartDrop | StepConsumer

  function Init(capacity: nat, size: nat): (s: State) {
    State(seq(capacity, _ => seq(size, _ => 0)), 0, 0, PIdle, CIdle, [], [])
  }

  function ProducerStep(s: State, size: nat): (r: State) {
    var cap := |s.storage|;
    match s.p
    case PIdle => s
    case PHead(e, h) => s.(p := PTail(e, h, s.tail))
    case PTail(e, h, t) => if cap > 0 && (h + 1) % cap == t then s.(p := PIdle) else s.(p := PCopy(e, h, 0))
    case PCopy(e, h, done) =>
      if done < size then
        if h < cap && done < |s.storage[h]| && done < |e|
        then s.(storage := s.storage[h := s.storage[h][done := e[done]]], p := PCopy(e, h, done + 1))
        else s
      else s.(head := if cap > 0 then (h + 1) % cap else 0, p := PIdle, pushed := s.pushed + [e])
  }

  function ConsumerStep(s: State, size: nat): (r: State) {
    var cap := |s.storage|;
    match s.c
    case CIdle => s
    case CTail(drop, t) => s.(c := CHead(drop, t, s.head))
    case CHead(drop, t, h) => if t == h then s.(c := CIdle) else if drop then s.(c := CDrop(t)) else s.(c := CCopy(t, []))
    case CCopy(t, buf) =>
      if |buf| < size then
        if t < cap && |buf| < |s.storage[t]| then s.(c := CCopy(t, buf + [s.storage[t][|buf|]])) else s
      else s.(tail := if cap > 0 then (t + 1) % cap else 0, c := CIdle, taken := s.taken + [Popped(buf)])
    case CDrop(t) => s.(tail := if cap > 0 then (t + 1) % cap else 0, c := CIdle, taken := s.taken + [Dropped])
  }

  /** One atomic step; an action that is not enabled changes nothing. */
  function Next(s: State, size: nat, a: Action): (r: State) {
    match a
    case StartPush(e) => if s.p.PIdle? && |e| == size then s.(p := PHead(e, s.head)) else s
    case StepProducer => ProducerStep(s, size)
    case StartPop => if s.c.CIdle? then s.(c := CTail(false, s.tail)) else s
    case StartDrop => if s.c.CIdle? then s.(c := CTail(true, s.tail)) else s
    case StepConsumer => ConsumerStep(s, size)
  }

  /** Any interleaving of the two threads. */
  function Run(capacity: nat, size: nat, actions: seq<Action>): (s: State) {
    if actions == [] then Init(capacity, size)
    else Next(Run(capacity, size, actions[..|actions| - 1]), size, actions[|actions| - 1])
  }

  // ---------------------------------------------------------------- ring arithmetic

  lemma SlotSucc(i: nat, cap: nat)
    requires cap >= 2
    ensures (i % cap + 1) % cap == (i + 1) % cap
  {
    ModOfSum(i, 1, cap);
  }

  lemma SlotDistinct(i: nat, j: nat, cap: nat)
    requires i < j < i + cap
    ensures i % cap != j % cap
  {
    ModAhead(i, j - i, cap);
  }

  // ---------------------------------------------------------------- the invariant

  ghost predicate History(s: State, size: nat) {
    var n, k, cap := |s.pushed|, |s.taken|, |s.storage|;
    && cap >= 2 && k <= n < k + cap
    && s.head == n % cap && s.tail == k % cap
    && (forall i :: 0 <= i < cap ==> |s.storage[i]| == size)
    && (forall i :: 0 <= i < n ==> |s.pushed[i]| == size)
    && (forall i :: 0 <= i < k ==> s.taken[i] == Dropped || s.taken[i] == Popped(s.pushed[i]))
    && (forall i :: k <= i < n ==> s.storage[i % cap] == s.pushed[i])
  }

  ghost predicate ProducerOk(s: State, size: nat) {
    var n, k, cap := |s.pushed|, |s.taken|, |s.storage|;
    match s.p
    case PIdle => true
    case PHead(e, h) => |e| == size && h == s.head
    case PTail(e, h, t) => |e| == size && h == s.head && cap > 0 && ((h + 1) % cap != t ==> n + 1 < k + cap)
    case PCopy(e, h, done) =>
      && |e| == size && h == s.head < cap && n + 1 < k + cap
      && done <= size == |s.storage[h]| && s.storage[h][..done] == e[..done]
  }

  ghost predicate ConsumerOk(s: State, size: nat) {
    var n, k := |s.pushed|, |s.taken|;
    match s.c
    case CIdle => true
    case CTail(_, t) => t == s.tail
    case CHead(_, t, h) => t == s.tail && (t != h ==> k < n)
    case CCopy(t, buf) => t == s.tail && k < n && |buf| <= size == |s.pushed[k]| && buf == s.pushed[k][..|buf|]
    case CDrop(t) => t == s.tail && k < n
  }

  ghost predicate Inv(s: State, size: nat) {
    History(s, size) && ProducerOk(s, size) && ConsumerOk(s, size)
  }

  lemma ProducerKeepsInv(s: State, size: nat)
    requires Inv(s, size)
    ensures Inv(ProducerStep(s, size), size)
  {
    var n, k, cap := |s.pushed|, |s.taken|, |s.storage|;
    match s.p {
      case PIdle =>
      case PHead(e, h) =>
        SlotSucc(n, cap);
        if n + 1 == k + cap {
          ModAhead(k, cap, cap);
        }
      case PTail(e, h, t) =>
      case PCopy(e, h, done) =>
        if done < size {
          WriteKeepsInv(s, size);
        } else {
          SlotSucc(n, cap);
          assert s.storage[h] == e;
        }
    }
  }

  /** Writing a byte touches no slot that holds a queued element. */
  lemma WriteKeepsInv(s: State, size: nat)
    requires Inv(s, size) && s.p.PCopy? && s.p.done < size
    ensures Inv(ProducerStep(s, size), size)
  {
    var n, k, cap := |s.pushed|, |s.taken|, |s.storage|;
    var r := ProducerStep(s, size);
    var e, h, done := s.p.elem, s.p.h, s.p.done;
    forall i | k <= i < n ensures r.storage[i % cap] == s.pushed[i] {
      SlotDistinct(i, n, cap);
    }
    assert r.storage[h][..done + 1] == e[..done + 1];
  }

  lemma ConsumerKeepsInv(s: State, size: nat)
    requires Inv(s, size)
    ensures Inv(ConsumerStep(s, size), size)
  {
    var n, k, cap := |s.pushed|, |s.taken|, |s.storage|;
    match s.c {
      case CIdle =>
      case CTail(_, t) =>
        if k == n { assert s.tail == s.head; }
      case CHead(_, t, h) =>
      case CCopy(t, buf) =>
        assert s.storage[k % cap] == s.pushed[k];
        if |buf| < size {
          assert s.pushed[k][..|buf| + 1] == buf + [s.pushed[k][|buf|]];
        } else {
          PublishKeepsInv(s, size);
        }
      case CDrop(t) => PublishKeepsInv(s, size);
    }
  }

  /** The store that gives the oldest slot back. */
  lemma PublishKeepsInv(s: State, size: nat)
    requires Inv(s, size) && (s.c.CDrop? || (s.c.CCopy? && |s.c.buf| == size))
    ensures Inv(ConsumerStep(s, size), size)
  {
    SlotSucc(|s.taken|, |s.storage|);
  }

  /** Every interleaving keeps the invariant. */
  lemma {:induction false} RunKeepsInv(capacity: nat, size: nat, actions: seq<Action>)
    requires capacity >= 2
    ensures Inv(Run(capacity, size, actions), size) && |Run(capacity, size, actions).storage| == capacity
  {
    if actions != [] {
      var s := Run(capacity, size, actions[..|actions| - 1]);
      RunKeepsInv(capacity, size, actions[..|actions| - 1]);
      match actions[|actions| - 1] {
        case StartPush(e) =>
        case StepProducer => ProducerKeepsInv(s, size);
        case StartPop =>
        case StartDrop =>
        case StepConsumer => ConsumerKeepsInv(s, size);
      }
    }
  }

  // ---------------------------------------------------------------- what the threads may rely on

  /** FIFO, no loss, no tearing: what left the ring is the pushed sequence in order (an element either
      popped whole or dropped on purpose), and never more than capacity - 1 elements are queued. */
  lemma TakenIsPrefixOfPushed(capacity: nat, size: nat, actions: seq<Action>)
    requires capacity >= 2
    ensures var s := Run(capacity, size, actions);
            && |s.taken| <= |s.pushed| <= |s.taken| + capacity - 1
            && forall i :: 0 <= i < |s.taken| ==> s.taken[i] == Dropped || s.taken[i] == Popped(s.pushed[i])
  {
    RunKeepsInv(capacity, size, actions);
  }

  /** Mutual exclusion on slots without a lock: while the producer writes a slot, the consumer is not
      reading or discarding that slot. */
  lemma NeverSameSlot(capacity: nat, size: nat, actions: seq<Action>)
    requires capacity >= 2
    ensures var s := Run(capacity, size, actions);
            && (s.p.PCopy? && s.c.CCopy? ==> s.p.h != s.c.t)
            && (s.p.PCopy? && s.c.CDrop? ==> s.p.h != s.c.t)
  {
    RunKeepsInv(capacity, size, actions);
    var s := Run(capacity, size, actions);
    if s.p.PCopy? && (s.c.CCopy? || s.c.CDrop?) {
      SlotDistinct(|s.taken|, |s.pushed|, capacity);
    }
  }

  /** "Full" is told exactly when, at the moment the tail was loaded, capacity - 1 elements were
      queued; "empty" exactly when, at the moment the head was loaded, none was. */
  lemma AnswersAreExactAtTheLoad(capacity: nat, size: nat, actions: seq<Action>)
    requires capacity >= 2
    ensures var s := Run(capacity, size, actions);
            && (s.p.PHead? ==> ((s.p.h + 1) % capacity == s.tail <==> |s.pushed| - |s.taken| == capacity - 1))
            && (s.c.CTail? ==> (s.c.t == s.head <==> |s.pushed| == |s.taken|))
  {
    RunKeepsInv(capacity, size, actions);
    var s := Run(capacity, size, actions);
    var n, k := |s.pushed|, |s.taken|;
    SlotSucc(n, capacity);
    if n + 1 == k + capacity {
      ModAhead(k, capacity, capacity);
    } else {
      SlotDistinct(k, n + 1, capacity);
    }
    if k < n {
      SlotDistinct(k, n, capacity);
    }
  }

  /** cf_queue_length from the two loaded indices. */
  function Length(head: nat, tail: nat, capacity: nat): (n: int) {
    if head >= tail then head - tail else capacity - (tail - head)
  }

  /** With both indices loaded while no thread moves them, the length is exact. */
  lemma LengthIsExactWhenQuiescent(capacity: nat, size: nat, actions: seq<Action>)
    requires capacity >= 2
    ensures var s := Run(capacity, size, actions);
            Length(s.head, s.tail, capacity) == |s.pushed| - |s.taken|
  {
    RunKeepsInv(capacity, size, actions);
    var s := Run(capacity, size, actions);
    LengthModulo(|s.taken|, |s.pushed|, capacity);
  }

  lemma LengthModulo(k: nat, n: nat, cap: nat)
    requires k <= n < k + cap
    ensures Length(n % cap, k % cap, cap) == n - k
  {
    ModAhead(k, n - k, cap);
  }
}
