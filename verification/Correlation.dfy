/** The pooled pending-query table (correlation.c): a fixed array of entries threaded through a
    hash table, a FIFO and a free list, proved to be the ordered list of PendingList.dfy. */
module Correlation {
  import opened Bytes
  import opened Modular
  import opened TxnKeys
  import opened PendingList
  import opened SlotTable

  const INT32_MAX := 0x7FFF_FFFF

  /** The smallest power of two that is at least n. */
  method NextPow2(n: nat) returns (p: nat)
    requires n > 0
    ensures n <= p < 2 * n
    ensures exists k :: p == Pow2(k)
  {
    p := 1;
    ghost var k := 0;
    while p < n
      invariant p == Pow2(k) && p < 2 * n
    {
      p := p * 2;
      k := k + 1;
    }
  }

  /** Keys that compare equal hash equal, so they meet on one chain. */
  ghost predicate Congruent(hash: Key -> nat) {
    forall a, b :: KeyEqual(a, b) ==> hash(a) == hash(b)
  }

  lemma KeyHashIsCongruent()
    ensures Congruent(KeyHash)
  {
    forall a: Key, b: Key | KeyEqual(a, b) ensures KeyHash(a) == KeyHash(b) {
      KeyEqualIffSignificant(a, b);
    }
  }

  /** The position of a pending slot is what the abstract search finds. */
  lemma SearchHit(E: seq<Entry>, fifo: seq<int>, key: Key, x: int)
    requires InPool(|E|, fifo) && DistinctKeys(Pending(E, fifo))
    requires x in fifo && KeyEqual(E[x].key, key)
    ensures var i := Find(Pending(E, fifo), key); i < |fifo| && fifo[i] == x
  {
    var p := Pending(E, fifo);
    var k :| 0 <= k < |fifo| && fifo[k] == x;
    assert p[k].key == E[x].key;
    var i := Find(p, key);
    if i != k {
      KeyEqualIsEquivalence(p[i].key, key, p[k].key);
      KeyEqualIsEquivalence(p[k].key, key, p[i].key);
      assert false;
    }
  }

  lemma SearchMiss(E: seq<Entry>, sh: Shape, hash: Key -> nat, key: Key)
    requires Hashed(E, sh, hash) && Congruent(hash)
    requires forall x :: x in sh.chains[BucketOf(hash, |sh.chains|, key)] ==> 0 <= x < |E| && !KeyEqual(E[x].key, key)
    ensures Find(Pending(E, sh.fifo), key) == |sh.fifo|
  {
  }

  lemma PendingWithout(E: seq<Entry>, F: seq<Entry>, fifo: seq<int>, p: nat)
    requires InPool(|E|, fifo) && |F| == |E| && p < |fifo|
    requires forall i :: 0 <= i < |E| ==> TxnAt(F, i) == TxnAt(E, i)
    ensures InPool(|F|, RemoveAt(fifo, p))
    ensures Pending(F, RemoveAt(fifo, p)) == RemoveAt(Pending(E, fifo), p)
  {
    var r := RemoveAt(fifo, p);
    assert forall i :: 0 <= i < |r| ==> r[i] == fifo[if i < p then i else i + 1];
  }

  /** Changing entry x, which is not in the list, and appending it. */
  lemma PendingWith(E: seq<Entry>, F: seq<Entry>, fifo: seq<int>, x: int)
    requires InPool(|E|, fifo) && |F| == |E| && 0 <= x < |F| && x !in fifo
    requires forall i :: 0 <= i < |E| && i != x ==> TxnAt(F, i) == TxnAt(E, i)
    ensures Pending(F, fifo + [x]) == Pending(E, fifo) + [TxnAt(F, x)]
  {
    forall i | 0 <= i < |fifo| ensures TxnAt(F, fifo[i]) == TxnAt(E, fifo[i]) {
      assert fifo[i] in fifo;
    }
  }

  /** Replacing a pending entry by one of an equal key and moving it to the FIFO tail. */
  lemma Rethreaded(E: seq<Entry>, F: seq<Entry>, B: seq<int>, freeHead: int, fifoHead: int, fifoTail: int,
                   sh: Shape, hash: Key -> nat, p: nat, head': int, tail': int)
    requires WellFormed(E, B, freeHead, fifoHead, fifoTail, sh, hash) && Congruent(hash)
    requires p < |sh.fifo| && |F| == |E|
    requires forall i :: 0 <= i < |E| ==> F[i].hnext == E[i].hnext
    requires forall i :: 0 <= i < |E| ==> KeyEqual(F[i].key, E[i].key)
    requires Fifo(F, head', tail', RemoveAt(sh.fifo, p) + [sh.fifo[p]])
    ensures WellFormed(F, B, freeHead, head', tail', sh.(fifo := RemoveAt(sh.fifo, p) + [sh.fifo[p]]), hash)
  {
    var t := sh.(fifo := RemoveAt(sh.fifo, p) + [sh.fifo[p]]);
    MemberOfRemoved(sh.fifo, p);
    assert sh.fifo[p] in sh.fifo;
    assert forall x :: x in t.fifo <==> x in sh.fifo;
    assert Partition(|F|, t);
    ChainFrame(E, F, freeHead, sh.free);
    forall b | 0 <= b < |B| ensures Chain(F, B[b], t.chains[b]) {
      assert Chain(E, B[b], sh.chains[b]);
      ChainFrame(E, F, B[b], sh.chains[b]);
    }
    assert Hashed(F, t, hash) by {
      forall i | 0 <= i < |E| ensures BucketOf(hash, |sh.chains|, F[i].key) == BucketOf(hash, |sh.chains|, E[i].key) {
        assert KeyEqual(F[i].key, E[i].key);
      }
      forall x | x in sh.fifo ensures 0 <= x < |E| {}
    }
  }

  lemma DistinctWithout(p: seq<Txn>, i: nat)
    requires DistinctKeys(p) && i < |p|
    ensures DistinctKeys(RemoveAt(p, i))
  {
  }

  /** The effect of detaching the slot at position q of chain s, whose head is in bucket b. */
  ghost predicate ChainCut(E: seq<Entry>, F: seq<Entry>, B: seq<int>, C: seq<int>, s: seq<int>, b: nat, q: nat)
    requires q < |s| && InPool(|E|, s) && b < |B|
  {
    && F == (if q == 0 then E else E[s[q - 1] := E[s[q - 1]].(hnext := At(s, q + 1))])
    && C == (if q == 0 then B[b := At(s, 1)] else B)
  }

  /** A pending slot is on the chain of its key's bucket. */
  lemma Located(E: seq<Entry>, B: seq<int>, freeHead: int, fifoHead: int, fifoTail: int,
                sh: Shape, hash: Key -> nat, p: nat)
    requires WellFormed(E, B, freeHead, fifoHead, fifoTail, sh, hash) && p < |sh.fifo|
    ensures InPool(|E|, sh.fifo) && |B| == |sh.chains| > 0
    ensures Fifo(E, fifoHead, fifoTail, sh.fifo)
    ensures var b := hash(E[sh.fifo[p]].key) % |B|; sh.fifo[p] in sh.chains[b] && Chain(E, B[b], sh.chains[b])
  {
    assert sh.fifo[p] in sh.fifo;
  }

  lemma CutKeepsFifo(E: seq<Entry>, F: seq<Entry>, B: seq<int>, C: seq<int>, s: seq<int>, b: nat, q: nat,
                     head: int, tail: int, fifo: seq<int>)
    requires q < |s| && InPool(|E|, s) && b < |B| && ChainCut(E, F, B, C, s, b, q)
    requires Fifo(E, head, tail, fifo)
    ensures Fifo(F, head, tail, fifo) && |F| == |E|
  {
    FifoFrame(E, F, head, tail, fifo);
  }

  lemma ChainInPool(E: seq<Entry>, head: int, s: seq<int>)
    requires Chain(E, head, s)
    ensures InPool(|E|, s)
  {
  }

  lemma ReleasedInStages(E: seq<Entry>, E1: seq<Entry>, E2: seq<Entry>, F: seq<Entry>, B: seq<int>, C: seq<int>,
                         freeHead: int, fifoHead: int, fifoTail: int, sh: Shape, hash: Key -> nat,
                         p: nat, b: nat, q: nat, head': int, tail': int)
    requires WellFormed(E, B, freeHead, fifoHead, fifoTail, sh, hash)
    requires p < |sh.fifo| && b < |sh.chains| && q < |sh.chains[b]| && sh.chains[b][q] == sh.fifo[p]
    requires InPool(|E|, sh.chains[b]) && ChainCut(E, E1, B, C, sh.chains[b], b, q)
    requires SameButFifo(E1, E2) && Fifo(E2, head', tail', RemoveAt(sh.fifo, p))
    requires F == E2[sh.fifo[p] := E2[sh.fifo[p]].(hnext := freeHead)]
    ensures WellFormed(F, C, sh.fifo[p], head', tail', Unshape(sh, p, b, q), hash)
    ensures forall i :: 0 <= i < |E| ==> TxnAt(F, i) == TxnAt(E, i)
  {
    var s := sh.chains[b];
    assert Chain(E, B[b], s);
    AtRemoved(s, q, 0);
    FifoFrame(E2, F, head', tail', RemoveAt(sh.fifo, p));
    assert C == B[b := At(RemoveAt(s, q), 0)];
    forall i | 0 <= i < |E|
      ensures TxnAt(F, i) == TxnAt(E, i)
      ensures i != sh.fifo[p] && i != At(s, q - 1) ==> F[i].hnext == E[i].hnext
    {
      assert E2[i] == E1[i].(prev := E2[i].prev, next := E2[i].next);
    }
    if q > 0 {
      assert s[q - 1] in s && s[q] in s;
      assert NoDup(s) && s[q - 1] != s[q];
      assert F[s[q - 1]].hnext == E1[s[q - 1]].hnext;
    }
    Released(E, F, B, freeHead, fifoHead, fifoTail, sh, hash, p, b, q, C, head', tail');
  }

  /** The FIFO head is the oldest pending slot. */
  lemma Oldest(E: seq<Entry>, B: seq<int>, freeHead: int, fifoHead: int, fifoTail: int, sh: Shape, hash: Key -> nat)
    requires WellFormed(E, B, freeHead, fifoHead, fifoTail, sh, hash)
    ensures InPool(|E|, sh.fifo) && fifoHead == At(sh.fifo, 0)
    ensures fifoHead == NIL <==> sh.fifo == []
  {
  }

  lemma FirstFree(E: seq<Entry>, B: seq<int>, freeHead: int, fifoHead: int, fifoTail: int, sh: Shape, hash: Key -> nat)
    requires WellFormed(E, B, freeHead, fifoHead, fifoTail, sh, hash) && freeHead != NIL
    ensures sh.free != [] && freeHead == sh.free[0] && 0 <= freeHead < |E| && freeHead !in sh.fifo
    ensures E[freeHead].hnext == At(sh.free, 1)
    ensures Fifo(E, fifoHead, fifoTail, sh.fifo) && |B| == |sh.chains| > 0
  {
    assert sh.free[0] in sh.free;
    assert E[sh.free[0]].hnext == At(sh.free, 1);
  }

  lemma RethreadedInStages(E: seq<Entry>, E1: seq<Entry>, E2: seq<Entry>, F: seq<Entry>, B: seq<int>,
                           freeHead: int, fifoHead: int, fifoTail: int, sh: Shape, hash: Key -> nat,
                           p: nat, t: Txn, head': int, tail': int)
    requires WellFormed(E, B, freeHead, fifoHead, fifoTail, sh, hash) && Congruent(hash)
    requires p < |sh.fifo| && KeyEqual(E[sh.fifo[p]].key, t.key)
    requires var x := sh.fifo[p]; E1 == E[x := E[x].(key := t.key, time := t.time, ctx := t.ctx)]
    requires SameButFifo(E1, E2) && SameButFifo(E2, F)
    requires Fifo(F, head', tail', RemoveAt(sh.fifo, p) + [sh.fifo[p]])
    ensures var r := RemoveAt(sh.fifo, p) + [sh.fifo[p]];
            && WellFormed(F, B, freeHead, head', tail', sh.(fifo := r), hash)
            && Pending(F, r) == RemoveAt(Pending(E, sh.fifo), p) + [t]
  {
    var x := sh.fifo[p];
    forall i | 0 <= i < |E|
      ensures F[i].hnext == E[i].hnext && KeyEqual(F[i].key, E[i].key)
      ensures TxnAt(F, i) == if i == x then t else TxnAt(E, i)
    {
      assert E2[i] == E1[i].(prev := E2[i].prev, next := E2[i].next);
      assert F[i] == E2[i].(prev := F[i].prev, next := F[i].next);
      KeyEqualIsEquivalence(E[i].key, t.key, E[i].key);
    }
    Rethreaded(E, F, B, freeHead, fifoHead, fifoTail, sh, hash, p, head', tail');
    PendingWithout(E, E, sh.fifo, p);
    MemberOfRemoved(sh.fifo, p);
    PendingWith(E, F, RemoveAt(sh.fifo, p), x);
  }

  lemma AcquiredInStages(E: seq<Entry>, E1: seq<Entry>, F: seq<Entry>, B: seq<int>, C: seq<int>,
                         freeHead: int, fifoHead: int, fifoTail: int, sh: Shape, hash: Key -> nat,
                         b: nat, t: Txn, head': int, tail': int)
    requires WellFormed(E, B, freeHead, fifoHead, fifoTail, sh, hash)
    requires sh.free != [] && b < |sh.chains| && BucketOf(hash, |sh.chains|, t.key) == b
    requires var x := sh.free[0]; E1 == E[x := E[x].(key := t.key, time := t.time, ctx := t.ctx, hnext := B[b])]
    requires C == B[b := sh.free[0]]
    requires SameButFifo(E1, F) && Fifo(F, head', tail', sh.fifo + [sh.free[0]])
    ensures WellFormed(F, C, At(sh.free, 1), head', tail', Reshape(sh, b), hash)
    ensures Pending(F, sh.fifo + [sh.free[0]]) == Pending(E, sh.fifo) + [t]
  {
    var x := sh.free[0];
    assert x in sh.free;
    forall i | 0 <= i < |E|
      ensures TxnAt(F, i) == if i == x then t else TxnAt(E, i)
      ensures F[i].hnext == if i == x then B[b] else E[i].hnext
    {
      assert F[i] == E1[i].(prev := F[i].prev, next := F[i].next);
    }
    Acquired(E, F, B, freeHead, fifoHead, fifoTail, sh, hash, b, C, head', tail');
    PendingWith(E, F, sh.fifo, x);
  }

  class Correlator {
    const cfg: Config
    const hash: Key -> nat
    const entries: array<Entry>
    const buckets: array<int>
    var freeHead: int
    var fifoHead: int   // oldest
    var fifoTail: int   // newest
    var count: nat
    var stats: Stats
    var trace: seq<Emission>   // the emit calls made so far
    ghost var shape: Shape

    ghost predicate Valid()
      reads this`freeHead, this`fifoHead, this`fifoTail, this`count, this`shape, entries, buckets
    {
      && 0 < cfg.capacity == entries.Length
      && Congruent(hash)
      && count == |shape.fifo|
      && WellFormed(entries[..], buckets[..], freeHead, fifoHead, fifoTail, shape, hash)
      && DistinctKeys(Pending(entries[..], shape.fifo))
    }

    /** The pending list, the counters and the emissions this object stands for. */
    ghost function Abs(): (m: Model)
      reads this, entries, buckets
      requires Valid()
    {
      Model(Pending(entries[..], shape.fifo), stats, trace)
    }

    lemma TraceIsAbs()
      requires Valid()
      ensures Abs().trace == trace
    {
    }

    constructor (cfg: Config, nbuckets: nat)
      requires 0 < cfg.capacity && 0 < nbuckets
      ensures Valid() && Abs() == INIT && this.cfg == cfg && buckets.Length == nbuckets
      ensures hash == KeyHash
      ensures fresh(entries) && fresh(buckets)
    {
      this.cfg := cfg;
      this.hash := KeyHash;
      this.freeHead := 0;
      this.fifoHead := NIL;
      this.fifoTail := NIL;
      this.count := 0;
      this.stats := INIT.stats;
      this.trace := [];
      this.entries := new Entry[cfg.capacity](_ => Entry(ZERO_KEY, 0, 0, NIL, NIL, NIL));
      this.buckets := new int[nbuckets](_ => NIL);
      this.shape := Shape([], seq(cfg.capacity, i => i), seq(nbuckets, _ => []));
      new;
      for i := 0 to cfg.capacity
        modifies entries
        invariant forall j :: 0 <= j < i ==> entries[j].hnext == if j + 1 < cfg.capacity then j + 1 else NIL
      {
        entries[i] := entries[i].(hnext := if i + 1 < cfg.capacity then i + 1 else NIL);
      }
      KeyHashIsCongruent();
      assert Partition(|entries[..]|, shape) by {
        forall x | 0 <= x < cfg.capacity ensures x in shape.free {
          assert shape.free[x] == x;
        }
      }
    }

    /** A table for cfg, or null when the arguments are invalid. */
    static method New(cfg: Config) returns (c: Correlator?)
      ensures c == null <==> cfg.capacity == 0 || cfg.timeout <= 0 || cfg.capacity > INT32_MAX
      ensures c != null ==> fresh(c) && fresh(c.entries) && fresh(c.buckets)
      ensures c != null ==> c.Valid() && c.cfg == cfg && c.Abs() == INIT && c.hash == KeyHash
      ensures c != null ==> cfg.capacity <= c.buckets.Length && exists k :: c.buckets.Length == Pow2(k)
    {
      if cfg.capacity == 0 || cfg.timeout <= 0 {
        return null;
      }
      if cfg.capacity > INT32_MAX {
        return null;
      }
      var n := NextPow2(cfg.capacity);
      c := new Correlator(cfg, n);
    }

    method FifoAppend(idx: int)
      requires 0 <= idx < entries.Length && idx !in shape.fifo
      requires Fifo(entries[..], fifoHead, fifoTail, shape.fifo)
      modifies this`fifoHead, this`fifoTail, entries
      ensures Fifo(entries[..], fifoHead, fifoTail, shape.fifo + [idx])
      ensures SameButFifo(old(entries[..]), entries[..])
    {
      entries[idx] := entries[idx].(next := NIL, prev := fifoTail);
      if fifoTail != NIL {
        entries[fifoTail] := entries[fifoTail].(next := idx);
      } else {
        fifoHead := idx;
      }
      fifoTail := idx;
      FifoAppended(old(entries[..]), entries[..], shape.fifo, idx);
    }

    method FifoUnlink(idx: int, ghost p: nat)
      requires p < |shape.fifo| && idx == shape.fifo[p]
      requires Fifo(entries[..], fifoHead, fifoTail, shape.fifo)
      modifies this`fifoHead, this`fifoTail, entries
      ensures Fifo(entries[..], fifoHead, fifoTail, RemoveAt(shape.fifo, p))
      ensures SameButFifo(old(entries[..]), entries[..])
    {
      hide Fifo;
      ghost var E := entries[..];
      FifoAt(E, fifoHead, fifoTail, shape.fifo, p);
      var prev, next := entries[idx].prev, entries[idx].next;
      if prev != NIL {
        entries[prev] := entries[prev].(next := next);
      } else {
        fifoHead := next;
      }
      if next != NIL {
        entries[next] := entries[next].(prev := prev);
      } else {
        fifoTail := prev;
      }
      FifoUnlinked(E, entries[..], shape.fifo, p);
      AtRemoved(shape.fifo, p, 0);
      AtRemoved(shape.fifo, p, |shape.fifo| - 2);
    }

    /** Detaches idx from the chain of bucket b. */
    method ChainUnlink(idx: int, b: nat, ghost s: seq<int>) returns (ghost q: nat)
      requires b < buckets.Length && idx in s && Chain(entries[..], buckets[b], s)
      modifies entries, buckets
      ensures q < |s| && s[q] == idx
      ensures ChainCut(old(entries[..]), entries[..], old(buckets[..]), buckets[..], s, b, q)
    {
      ghost var E := entries[..];
      var cur, prev := buckets[b], NIL;
      q := 0;
      while cur != NIL && cur != idx
        invariant q <= |s| && cur == At(s, q) && prev == At(s, q - 1)
        invariant forall i :: 0 <= i < q ==> s[i] != idx
        invariant entries[..] == E && buckets[..] == old(buckets[..])
        decreases |s| - q
      {
        assert E[s[q]].hnext == At(s, q + 1);
        prev := cur;
        cur := entries[cur].hnext;
        q := q + 1;
      }
      assert E[s[q]].hnext == At(s, q + 1);
      if cur == idx {
        if prev == NIL {
          buckets[b] := entries[idx].hnext;
        } else {
          entries[prev] := entries[prev].(hnext := entries[idx].hnext);
        }
      }
    }

    /** Detaches a pending entry from its chain and the FIFO and returns it to the free list. */
    method EntryRelease(idx: int, ghost p: nat)
      requires Valid() && p < |shape.fifo| && idx == shape.fifo[p]
      modifies this`freeHead, this`fifoHead, this`fifoTail, this`count, this`shape, entries, buckets
      ensures Valid() && Abs() == old(Abs()).(pending := RemoveAt(old(Abs()).pending, p))
    {
      hide WellFormed;
      hide Congruent;
      hide DistinctKeys;
      ghost var E, B, sh := entries[..], buckets[..], shape;
      Located(E, B, freeHead, fifoHead, fifoTail, sh, hash, p);
      var b := hash(entries[idx].key) % buckets.Length;
      ghost var q, E1, E2, head', tail' := Detach(idx, b, sh.chains[b], p);
      shape := Unshape(sh, p, b, q);
      ReleasedInStages(E, E1, E2, entries[..], B, buckets[..], old(freeHead), old(fifoHead), old(fifoTail),
                       sh, hash, p, b, q, head', tail');
      PendingWithout(E, entries[..], sh.fifo, p);
      DistinctWithout(Pending(E, sh.fifo), p);
    }

    /** The pointer updates of a release. */
    method Detach(idx: int, b: nat, ghost s: seq<int>, ghost p: nat)
      returns (ghost q: nat, ghost E1: seq<Entry>, ghost E2: seq<Entry>, ghost head': int, ghost tail': int)
      requires count > 0 && p < |shape.fifo| && idx == shape.fifo[p]
      requires Fifo(entries[..], fifoHead, fifoTail, shape.fifo)
      requires b < buckets.Length && idx in s && Chain(entries[..], buckets[b], s)
      modifies this`freeHead, this`fifoHead, this`fifoTail, this`count, entries, buckets
      ensures q < |s| && s[q] == idx && ChainCut(old(entries[..]), E1, old(buckets[..]), buckets[..], s, b, q)
      ensures SameButFifo(E1, E2) && Fifo(E2, head', tail', RemoveAt(shape.fifo, p))
      ensures fifoHead == head' && fifoTail == tail' && freeHead == idx && count == old(count) - 1
      ensures entries[..] == E2[idx := E2[idx].(hnext := old(freeHead))]
    {
      hide Fifo;
      hide Chain;
      hide ChainCut;
      ghost var E := entries[..];
      assert InPool(|E|, s) by { ChainInPool(E, buckets[b], s); }
      q := ChainUnlink(idx, b, s);
      E1 := entries[..];
      CutKeepsFifo(E, E1, old(buckets[..]), buckets[..], s, b, q, fifoHead, fifoTail, shape.fifo);
      FifoUnlink(idx, p);
      E2, head', tail' := entries[..], fifoHead, fifoTail;
      entries[idx] := entries[idx].(hnext := freeHead);
      freeHead := idx;
      count := count - 1;
    }

    method EntryFind(key: Key) returns (idx: int)
      requires Valid()
      ensures var i := Find(Abs().pending, key);
              idx == if i < |shape.fifo| then shape.fifo[i] else NIL
    {
      hide DistinctKeys;
      hide Congruent;
      hide KeyEqual;
      var b := hash(key) % buckets.Length;
      ghost var s := shape.chains[b];
      assert Chain(entries[..], buckets[b], s);
      idx := buckets[b];
      ghost var q := 0;
      while idx != NIL
        invariant q <= |s| && idx == At(s, q)
        invariant forall i :: 0 <= i < q ==> 0 <= s[i] < entries.Length && !KeyEqual(entries[s[i]].key, key)
        decreases |s| - q
      {
        assert entries[..][s[q]].hnext == At(s, q + 1);
        if KeyEqual(entries[idx].key, key) {
          assert s[q] in s;
          SearchHit(entries[..], shape.fifo, key, idx);
          return;
        }
        idx := entries[idx].hnext;
        q := q + 1;
      }
      SearchMiss(entries[..], shape, hash, key);
    }

    /** Hands the oldest pending query back as unanswered and frees its slot. */
    method EvictOldestEntry(why: Reason)
      requires Valid() && fifoHead != NIL
      modifies this, entries, buckets
      ensures Valid() && old(Abs()).pending != [] && Abs() == EvictOldest(old(Abs()), why)
    {
      hide WellFormed;
      hide Congruent;
      hide DistinctKeys;
      hide KeyEqual;
      Oldest(entries[..], buckets[..], freeHead, fifoHead, fifoTail, shape, hash);
      var idx := fifoHead;
      var ctx, key := entries[idx].ctx, entries[idx].key;
      ghost var m := Abs();
      assert m.pending[0] == TxnAt(entries[..], idx);
      EntryRelease(idx, 0);
      assert RemoveAt(m.pending, 0) == m.pending[1..];
      stats := Count(stats, why);
      trace := trace + [Unanswered(ctx, key)];
    }

    /** Evicts up to budget expired entries from the FIFO head. */
    method EvictExpired(now: int, budget: nat) returns (n: nat)
      requires Valid()
      modifies this, entries, buckets
      ensures Valid() && Abs() == Expire(cfg, old(Abs()), now, budget)
      ensures n == |old(Abs()).pending| - |Abs().pending|
    {
      hide WellFormed;
      hide Congruent;
      hide DistinctKeys;
      hide KeyEqual;
      n := 0;
      ghost var m := Abs();
      Oldest(entries[..], buckets[..], freeHead, fifoHead, fifoTail, shape, hash);
      while n < budget && fifoHead != NIL
        invariant Valid() && n <= budget
        invariant Expire(cfg, Abs(), now, budget - n) == Expire(cfg, m, now, budget)
        invariant n == |m.pending| - |Abs().pending|
        invariant InPool(entries.Length, shape.fifo) && fifoHead == At(shape.fifo, 0)
        decreases count
      {
        var idx := fifoHead;
        assert Abs().pending[0] == TxnAt(entries[..], idx);
        if now - entries[idx].time <= cfg.timeout {
          break;
        }
        EvictOldestEntry(Timeout);
        Oldest(entries[..], buckets[..], freeHead, fifoHead, fifoTail, shape, hash);
        n := n + 1;
      }
    }

    method OnQuery(key: Key, time: int, ctx: Ctx)
      requires Valid()
      modifies this, entries, buckets
      ensures Valid() && Abs() == Step(cfg, old(Abs()), Query(key, time, ctx))
    {
      var _ := EvictExpired(time, AMORTIZED_EVICT_MAX);
      var idx := EntryFind(key);
      if idx != NIL {
        Replace(idx, key, time, ctx);
        return;
      }
      if freeHead == NIL {
        if cfg.dropOldest && fifoHead != NIL {
          EvictOldestEntry(TableFull);
          assert freeHead != NIL;
        } else {
          stats := Count(stats, TableFull);
          trace := trace + [Unanswered(ctx, key)];
          return;
        }
      }
      Acquire(key, time, ctx);
    }

    /** Same key already pending: emit the older query, reuse its slot, re-thread it as newest. */
    method Replace(idx: int, key: Key, time: int, ctx: Ctx)
      requires Valid()
      requires var i := Find(Abs().pending, key); i < |shape.fifo| && idx == shape.fifo[i]
      modifies this, entries
      ensures Valid() && Abs() == Collide(old(Abs()), Find(old(Abs()).pending, key), Txn(key, time, ctx))
    {
      hide WellFormed;
      hide Congruent;
      hide DistinctKeys;
      hide KeyEqual;
      ghost var E, sh, m := entries[..], shape, Abs();
      ghost var p := Find(m.pending, key);
      Located(E, buckets[..], freeHead, fifoHead, fifoTail, sh, hash, p);
      assert m.pending[p] == TxnAt(E, idx);
      var oldCtx := entries[idx].ctx;
      stats := stats.(collision := stats.collision + 1);
      trace := trace + [Unanswered(oldCtx, entries[idx].key)];
      ghost var E1, E2 := Rethread(idx, key, time, ctx, p);
      RethreadedInStages(E, E1, E2, entries[..], buckets[..], freeHead, old(fifoHead), old(fifoTail),
                         sh, hash, p, Txn(key, time, ctx), fifoHead, fifoTail);
      CollideKeepsDistinct(m.pending, p, Txn(key, time, ctx));
    }

    /** The pointer updates of a replacement. */
    method Rethread(idx: int, key: Key, time: int, ctx: Ctx, ghost p: nat) returns (ghost E1: seq<Entry>, ghost E2: seq<Entry>)
      requires p < |shape.fifo| && idx == shape.fifo[p]
      requires Fifo(entries[..], fifoHead, fifoTail, shape.fifo)
      modifies this`fifoHead, this`fifoTail, this`shape, entries
      ensures E1 == old(entries[..])[idx := old(entries[..])[idx].(key := key, time := time, ctx := ctx)]
      ensures SameButFifo(E1, E2) && SameButFifo(E2, entries[..])
      ensures shape == old(shape).(fifo := RemoveAt(old(shape).fifo, p) + [idx])
      ensures Fifo(entries[..], fifoHead, fifoTail, shape.fifo)
    {
      ghost var E, sh := entries[..], shape;
      entries[idx] := entries[idx].(key := key, time := time, ctx := ctx);
      E1 := entries[..];
      FifoFrame(E, E1, fifoHead, fifoTail, sh.fifo);
      FifoUnlink(idx, p);
      E2 := entries[..];
      MemberOfRemoved(sh.fifo, p);
      shape := sh.(fifo := RemoveAt(sh.fifo, p));
      FifoAppend(idx);
      shape := sh.(fifo := RemoveAt(sh.fifo, p) + [idx]);
    }

    /** Takes a free slot for a key that is not pending. */
    method Acquire(key: Key, time: int, ctx: Ctx)
      requires Valid() && freeHead != NIL && Find(Abs().pending, key) == |Abs().pending|
      modifies this, entries, buckets
      ensures Valid() && Abs() == Insert(old(Abs()), Txn(key, time, ctx))
    {
      hide WellFormed;
      hide Congruent;
      hide DistinctKeys;
      hide KeyEqual;
      ghost var E, B, sh, m := entries[..], buckets[..], shape, Abs();
      FirstFree(E, B, freeHead, fifoHead, fifoTail, sh, hash);
      var idx := freeHead;
      var b := hash(key) % buckets.Length;
      ghost var E1 := Thread(idx, b, key, time, ctx);
      shape := Reshape(sh, b);
      AcquiredInStages(E, E1, entries[..], B, buckets[..], old(freeHead), old(fifoHead), old(fifoTail),
                       sh, hash, b, Txn(key, time, ctx), fifoHead, fifoTail);
      DistinctWith(m.pending, Txn(key, time, ctx));
    }

    /** The pointer updates of an insertion. */
    method Thread(idx: int, b: nat, key: Key, time: int, ctx: Ctx) returns (ghost E1: seq<Entry>)
      requires 0 <= idx < entries.Length && idx !in shape.fifo && b < buckets.Length
      requires Fifo(entries[..], fifoHead, fifoTail, shape.fifo)
      modifies this`freeHead, this`fifoHead, this`fifoTail, this`count, entries, buckets
      ensures E1 == old(entries[..])[idx := old(entries[..])[idx].(key := key, time := time, ctx := ctx, hnext := old(buckets[b]))]
      ensures SameButFifo(E1, entries[..]) && Fifo(entries[..], fifoHead, fifoTail, shape.fifo + [idx])
      ensures buckets[..] == old(buckets[..])[b := idx]
      ensures freeHead == old(entries[idx]).hnext && count == old(count) + 1
    {
      ghost var E := entries[..];
      freeHead := entries[idx].hnext;
      entries[idx] := entries[idx].(key := key, time := time, ctx := ctx, hnext := buckets[b]);
      buckets[b] := idx;
      E1 := entries[..];
      FifoFrame(E, E1, fifoHead, fifoTail, shape.fifo);
      FifoAppend(idx);
      count := count + 1;
    }

    /** What position p of the pending list is in the pool. */
    lemma PendingSlot(p: nat)
      requires Valid()
      ensures |Abs().pending| == |shape.fifo|
      ensures p < |shape.fifo| ==> 0 <= shape.fifo[p] < entries.Length && shape.fifo[p] != NIL
                                   && Abs().pending[p] == TxnAt(entries[..], shape.fifo[p])
    {
      hide KeyEqual;
      hide DistinctKeys;
      hide Congruent;
      hide Hashed;
      hide Partition;
      if p < |shape.fifo| {
        assert shape.fifo[p] in shape.fifo;
      }
    }

    method OnResponse(key: Key, time: int, ctx: Ctx)
      requires Valid()
      modifies this, entries, buckets
      ensures Valid() && Abs() == Step(cfg, old(Abs()), Response(key, time, ctx))
    {
      hide Valid;
      hide KeyEqual;
      hide Find;
      ghost var m := Abs();
      ghost var p := Find(m.pending, key);
      PendingSlot(p);
      var idx := EntryFind(key);
      if idx == NIL {
        stats := stats.(unmatched := stats.unmatched + 1);
        trace := trace + [Unmatched(ctx, key)];
        return;
      }
      var queryCtx, mkey := entries[idx].ctx, entries[idx].key;
      var rtt := time - entries[idx].time;
      var rttValid;
      if rtt < 0 || rtt > cfg.timeout {
        rttValid := false;
        stats := stats.(rttInvalid := stats.rttInvalid + 1);
      } else {
        rttValid := true;
      }
      EntryRelease(idx, p);
      stats := stats.(observed := stats.observed + 1);
      trace := trace + [Observed(queryCtx, ctx, rtt, rttValid, mkey)];
    }

    method Tick(now: int)
      requires Valid()
      modifies this, entries, buckets
      ensures Valid() && Abs() == Step(cfg, old(Abs()), PendingList.Tick(now))
    {
      var _ := EvictExpired(now, SIZE_MAX);
    }

    /** The drain that precedes freeing the table. */
    method Free()
      requires Valid()
      modifies this, entries, buckets
      ensures Valid() && Abs() == Drain(old(Abs()))
    {
      ghost var m := Abs();
      while fifoHead != NIL
        invariant Valid() && Drain(Abs()) == Drain(m)
        decreases count
      {
        EvictOldestEntry(Timeout);
      }
    }
  }

  /** Any sequence of calls on a fresh table, followed by its teardown. */
  method RunTable(cfg: Config, ops: seq<Op>) returns (trace: seq<Emission>, pending: nat, stats: Stats)
    requires 0 < cfg.capacity <= INT32_MAX && cfg.timeout > 0
    ensures trace == Drain(Run(cfg, ops)).trace
    ensures pending == |Run(cfg, ops).pending| && stats == Run(cfg, ops).stats
    ensures multiset(QueriesOut(trace)) == multiset(QueriesIn(ops)) && ResponsesOut(trace) == ResponsesIn(ops)
  {
    var c := Correlator.New(cfg);
    for i := 0 to |ops|
      invariant c != null && fresh(c) && fresh(c.entries) && fresh(c.buckets)
      invariant c.Valid() && c.cfg == cfg && c.Abs() == Run(cfg, ops[..i])
    {
      assert ops[..i + 1][..i] == ops[..i];
      match ops[i] {
        case Query(key, time, ctx) => c.OnQuery(key, time, ctx);
        case Response(key, time, ctx) => c.OnResponse(key, time, ctx);
        case Tick(now) => c.Tick(now);
      }
    }
    assert ops[..|ops|] == ops;
    pending, stats := c.count, c.stats;
    c.Free();
    trace := c.trace;
    EveryQueryEmittedExactlyOnce(cfg, ops);
  }
}
