/** The three index structures threaded through the entry pool, as predicates on its contents:
    a doubly linked FIFO, a free list, and one hash chain per bucket. */
module SlotTable {
  import opened Bytes
  import opened TxnKeys
  import opened PendingList

  const NIL := -1

  /** hnext is the next slot of the bucket chain, or the next free slot. */
  datatype Entry = Entry(key: Key, time: int, ctx: Ctx, hnext: int, prev: int, next: int)

  /** Which slots make up each list, in order. */
  datatype Shape = Shape(fifo: seq<int>, free: seq<int>, chains: seq<seq<int>>)

  ghost function At(s: seq<int>, i: int): int {
    if 0 <= i < |s| then s[i] else NIL
  }

  ghost predicate NoDup(s: seq<int>) {
    forall i, j :: 0 <= i < j < |s| ==> s[i] != s[j]
  }

  ghost predicate InPool(n: nat, s: seq<int>) {
    forall i :: 0 <= i < |s| ==> 0 <= s[i] < n
  }

  /** The slots of s are linked through hnext, starting at head. */
  ghost predicate Chain(E: seq<Entry>, head: int, s: seq<int>) {
    && InPool(|E|, s)
    && head == At(s, 0)
    && forall i {:trigger E[s[i]]} :: 0 <= i < |s| ==> E[s[i]].hnext == At(s, i + 1)
  }

  /** The slots of s are linked both ways through prev and next. */
  ghost predicate Fifo(E: seq<Entry>, head: int, tail: int, s: seq<int>) {
    && InPool(|E|, s)
    && NoDup(s)
    && head == At(s, 0)
    && tail == At(s, |s| - 1)
    && (forall i {:trigger E[s[i]]} :: 0 <= i < |s| ==> E[s[i]].next == At(s, i + 1))
    && (forall i {:trigger E[s[i]]} :: 0 <= i < |s| ==> E[s[i]].prev == At(s, i - 1))
  }

  /** Each slot is either free or in the FIFO, once. */
  ghost predicate Partition(n: nat, sh: Shape) {
    && InPool(n, sh.free)
    && NoDup(sh.free)
    && |sh.fifo| + |sh.free| == n
    && (forall x :: 0 <= x < n ==> (x in sh.fifo <==> x !in sh.free))
  }

  ghost function BucketOf(hash: Key -> nat, n: nat, k: Key): (b: nat)
    requires n > 0
    ensures b < n
  {
    hash(k) % n
  }

  /** Each pending slot is on the chain of its key's bucket, once, and on no other. */
  ghost predicate Hashed(E: seq<Entry>, sh: Shape, hash: Key -> nat) {
    && |sh.chains| > 0
    && InPool(|E|, sh.fifo)
    && (forall b :: 0 <= b < |sh.chains| ==> NoDup(sh.chains[b]))
    && (forall b, x :: 0 <= b < |sh.chains| && x in sh.chains[b] ==>
          x in sh.fifo && BucketOf(hash, |sh.chains|, E[x].key) == b)
    && (forall x :: x in sh.fifo ==> x in sh.chains[BucketOf(hash, |sh.chains|, E[x].key)])
  }

  ghost predicate Chains(E: seq<Entry>, B: seq<int>, chains: seq<seq<int>>) {
    |B| == |chains| && forall b :: 0 <= b < |B| ==> Chain(E, B[b], chains[b])
  }

  ghost predicate WellFormed(E: seq<Entry>, B: seq<int>, freeHead: int, fifoHead: int, fifoTail: int,
                             sh: Shape, hash: Key -> nat) {
    && Partition(|E|, sh)
    && Fifo(E, fifoHead, fifoTail, sh.fifo)
    && Chain(E, freeHead, sh.free)
    && Chains(E, B, sh.chains)
    && Hashed(E, sh, hash)
  }

  ghost function TxnAt(E: seq<Entry>, i: int): Txn
    requires 0 <= i < |E|
  {
    Txn(E[i].key, E[i].time, E[i].ctx)
  }

  /** The abstract list: the pending queries in FIFO order. */
  ghost function Pending(E: seq<Entry>, fifo: seq<int>): (p: seq<Txn>)
    requires InPool(|E|, fifo)
    ensures |p| == |fifo|
  {
    seq(|fifo|, i requires 0 <= i < |fifo| => TxnAt(E, fifo[i]))
  }

  /** Only the FIFO links differ. */
  ghost predicate SameButFifo(E: seq<Entry>, F: seq<Entry>) {
    |E| == |F| && forall i :: 0 <= i < |E| ==> F[i] == E[i].(prev := F[i].prev, next := F[i].next)
  }

  /** Removing one element of a list without repetitions. */
  lemma MemberOfRemoved(s: seq<int>, p: nat)
    requires p < |s| && NoDup(s)
    ensures NoDup(RemoveAt(s, p))
    ensures forall x :: x in RemoveAt(s, p) <==> x in s && x != s[p]
  {
    var r := RemoveAt(s, p);
    assert forall i :: 0 <= i < |r| ==> r[i] == s[if i < p then i else i + 1];
    forall x | x in s && x != s[p] ensures x in r {
      var k :| 0 <= k < |s| && s[k] == x;
      assert x == r[if k < p then k else k - 1];
    }
  }

  lemma AtRemoved(s: seq<int>, p: nat, i: int)
    requires p < |s|
    ensures At(RemoveAt(s, p), i) == if i < p then At(s, i) else At(s, i + 1)
  {
  }

  lemma FifoUnlinked(E: seq<Entry>, F: seq<Entry>, s: seq<int>, p: nat)
    requires p < |s| && Fifo(E, At(s, 0), At(s, |s| - 1), s) && |F| == |E|
    requires forall i :: 0 <= i < |E| && i != At(s, p - 1) && i != At(s, p + 1) ==> F[i] == E[i]
    requires p > 0 ==> F[s[p - 1]] == E[s[p - 1]].(next := At(s, p + 1))
    requires p + 1 < |s| ==> F[s[p + 1]] == E[s[p + 1]].(prev := At(s, p - 1))
    ensures Fifo(F, At(RemoveAt(s, p), 0), At(RemoveAt(s, p), |s| - 2), RemoveAt(s, p))
  {
    var r := RemoveAt(s, p);
    MemberOfRemoved(s, p);
    forall i | 0 <= i < |r|
      ensures 0 <= r[i] < |F| && F[r[i]].next == At(r, i + 1) && F[r[i]].prev == At(r, i - 1)
    {
      var k := if i < p then i else i + 1;
      assert r[i] == s[k];
      AtRemoved(s, p, i + 1);
      AtRemoved(s, p, i - 1);
      assert E[s[k]].next == At(s, k + 1) && E[s[k]].prev == At(s, k - 1);
      assert k != p - 1 ==> s[k] != At(s, p - 1);
      assert k != p + 1 ==> s[k] != At(s, p + 1);
    }
  }

  /** Where position p of a FIFO is. */
  lemma FifoAt(E: seq<Entry>, head: int, tail: int, s: seq<int>, p: nat)
    requires Fifo(E, head, tail, s) && p < |s|
    ensures InPool(|E|, s) && head == At(s, 0) && tail == At(s, |s| - 1)
    ensures E[s[p]].prev == At(s, p - 1) && E[s[p]].next == At(s, p + 1)
    ensures p > 0 && p + 1 < |s| ==> s[p - 1] != s[p + 1]
  {
  }

  lemma FifoAppended(E: seq<Entry>, F: seq<Entry>, s: seq<int>, x: int)
    requires Fifo(E, At(s, 0), At(s, |s| - 1), s) && |F| == |E|
    requires 0 <= x < |E| && x !in s
    requires forall i :: 0 <= i < |E| && i != x && i != At(s, |s| - 1) ==> F[i] == E[i]
    requires F[x].next == NIL && F[x].prev == At(s, |s| - 1)
    requires s != [] ==> F[s[|s| - 1]] == E[s[|s| - 1]].(next := x)
    ensures Fifo(F, At(s + [x], 0), x, s + [x])
  {
    var r := s + [x];
    forall i | 0 <= i < |r|
      ensures 0 <= r[i] < |F| && F[r[i]].next == At(r, i + 1) && F[r[i]].prev == At(r, i - 1)
    {
      if i < |s| {
        assert r[i] == s[i] && s[i] != x;
        assert i < |s| - 1 ==> s[i] != s[|s| - 1];
      }
    }
  }

  /** Removing the slot at position q of a chain. */
  lemma ChainUnlinked(E: seq<Entry>, F: seq<Entry>, s: seq<int>, q: nat)
    requires q < |s| && Chain(E, At(s, 0), s) && NoDup(s) && |F| == |E|
    requires forall i {:trigger F[s[i]]} :: 0 <= i < |s| && i != q && i != q - 1 ==> F[s[i]].hnext == E[s[i]].hnext
    requires q > 0 ==> F[s[q - 1]].hnext == At(s, q + 1)
    ensures Chain(F, At(RemoveAt(s, q), 0), RemoveAt(s, q))
  {
    var r := RemoveAt(s, q);
    forall i | 0 <= i < |r| ensures 0 <= r[i] < |F| && F[r[i]].hnext == At(r, i + 1) {
      var k := if i < q then i else i + 1;
      assert r[i] == s[k];
      AtRemoved(s, q, i + 1);
      assert E[s[k]].hnext == At(s, k + 1);
      assert k != q - 1 ==> F[s[k]].hnext == E[s[k]].hnext;
    }
  }

  /** A chain survives any change that keeps the hnext of its slots. */
  lemma ChainFrame(E: seq<Entry>, F: seq<Entry>, head: int, s: seq<int>)
    requires Chain(E, head, s) && |F| == |E|
    requires forall i :: 0 <= i < |s| ==> F[s[i]].hnext == E[s[i]].hnext
    ensures Chain(F, head, s)
  {
  }

  lemma FifoFrame(E: seq<Entry>, F: seq<Entry>, head: int, tail: int, s: seq<int>)
    requires Fifo(E, head, tail, s) && |F| == |E|
    requires forall i :: 0 <= i < |s| ==> F[s[i]].next == E[s[i]].next && F[s[i]].prev == E[s[i]].prev
    ensures Fifo(F, head, tail, s)
  {
  }

  ghost function Unshape(sh: Shape, p: nat, b: nat, q: nat): Shape
    requires p < |sh.fifo| && b < |sh.chains| && q < |sh.chains[b]|
  {
    Shape(RemoveAt(sh.fifo, p), [sh.fifo[p]] + sh.free, sh.chains[b := RemoveAt(sh.chains[b], q)])
  }

  lemma PartitionReleased(n: nat, sh: Shape, p: nat, b: nat, q: nat)
    requires p < |sh.fifo| && b < |sh.chains| && q < |sh.chains[b]|
    requires Partition(n, sh) && InPool(n, sh.fifo) && NoDup(sh.fifo)
    ensures Partition(n, Unshape(sh, p, b, q))
  {
    MemberOfRemoved(sh.fifo, p);
    assert sh.fifo[p] in sh.fifo;
    var t := Unshape(sh, p, b, q);
    forall x | 0 <= x < n ensures x in t.fifo <==> x !in t.free {
    }
  }

  /** Releasing a slot: it leaves the FIFO (p) and its bucket chain (b, q) and heads the free list. */
  lemma Released(E: seq<Entry>, F: seq<Entry>, B: seq<int>, freeHead: int, fifoHead: int, fifoTail: int,
                 sh: Shape, hash: Key -> nat, p: nat, b: nat, q: nat, C: seq<int>, head': int, tail': int)
    requires WellFormed(E, B, freeHead, fifoHead, fifoTail, sh, hash)
    requires p < |sh.fifo| && b < |sh.chains| && q < |sh.chains[b]| && sh.chains[b][q] == sh.fifo[p]
    requires |F| == |E| && forall i :: 0 <= i < |E| ==> TxnAt(F, i) == TxnAt(E, i)
    requires Fifo(F, head', tail', RemoveAt(sh.fifo, p))
    requires F[sh.fifo[p]].hnext == freeHead
    requires forall i :: 0 <= i < |E| && i != sh.fifo[p] && i != At(sh.chains[b], q - 1) ==> F[i].hnext == E[i].hnext
    requires q > 0 ==> F[sh.chains[b][q - 1]].hnext == At(sh.chains[b], q + 1)
    requires C == B[b := At(RemoveAt(sh.chains[b], q), 0)]
    ensures WellFormed(F, C, sh.fifo[p], head', tail', Unshape(sh, p, b, q), hash)
  {
    var x := sh.fifo[p];
    var t := Unshape(sh, p, b, q);
    PartitionReleased(|E|, sh, p, b, q);
    var y := At(sh.chains[b], q - 1);
    assert q > 0 ==> y in sh.chains[b];
    assert Chain(F, x, t.free) by {
      assert forall i :: 0 <= i < |sh.free| ==> sh.free[i] in sh.free;
      assert forall i :: 0 <= i < |t.free| && i > 0 ==> t.free[i] == sh.free[i - 1];
      assert x in sh.fifo && (q > 0 ==> y in sh.fifo);
    }
    assert Chain(E, B[b], sh.chains[b]);
    ChainUnlinked(E, F, sh.chains[b], q);
    forall c | 0 <= c < |C| ensures Chain(F, C[c], t.chains[c]) {
      if c != b {
        assert Chain(E, B[c], sh.chains[c]);
        forall i | 0 <= i < |sh.chains[c]| ensures F[sh.chains[c][i]].hnext == E[sh.chains[c][i]].hnext {
          assert sh.chains[c][i] in sh.chains[c];
          assert x in sh.chains[b];
        }
        ChainFrame(E, F, B[c], sh.chains[c]);
      }
    }
    HashedReleased(E, F, sh, hash, p, b, q);
  }

  lemma HashedReleased(E: seq<Entry>, F: seq<Entry>, sh: Shape, hash: Key -> nat, p: nat, b: nat, q: nat)
    requires Hashed(E, sh, hash) && NoDup(sh.fifo)
    requires p < |sh.fifo| && b < |sh.chains| && q < |sh.chains[b]| && sh.chains[b][q] == sh.fifo[p]
    requires |F| == |E| && forall i :: 0 <= i < |E| ==> TxnAt(F, i) == TxnAt(E, i)
    ensures Hashed(F, Unshape(sh, p, b, q), hash)
  {
    var t := Unshape(sh, p, b, q);
    MemberOfRemoved(sh.fifo, p);
    MemberOfRemoved(sh.chains[b], q);
    assert sh.chains[b][q] in sh.chains[b];
    assert InPool(|F|, t.fifo) by {
      assert forall i :: 0 <= i < |t.fifo| ==> t.fifo[i] in t.fifo;
    }
    forall c | 0 <= c < |t.chains| ensures NoDup(t.chains[c]) {
      assert NoDup(sh.chains[c]);
    }
    forall c, x | 0 <= c < |t.chains| && x in t.chains[c]
      ensures x in t.fifo && BucketOf(hash, |t.chains|, F[x].key) == c
    {
      assert x in sh.chains[c];
      assert x in sh.fifo && 0 <= x < |E|;
      assert TxnAt(F, x) == TxnAt(E, x);
    }
    forall x | x in t.fifo ensures x in t.chains[BucketOf(hash, |t.chains|, F[x].key)] {
      assert TxnAt(F, x) == TxnAt(E, x);
    }
  }

  ghost function Reshape(sh: Shape, b: nat): Shape
    requires sh.free != [] && b < |sh.chains|
  {
    Shape(sh.fifo + [sh.free[0]], sh.free[1..], sh.chains[b := [sh.free[0]] + sh.chains[b]])
  }

  lemma PartitionAcquired(n: nat, sh: Shape, b: nat)
    requires Partition(n, sh) && sh.free != [] && b < |sh.chains|
    ensures Partition(n, Reshape(sh, b))
  {
    var t := Reshape(sh, b);
    assert sh.free[0] in sh.free;
    forall y | 0 <= y < n ensures y in t.fifo <==> y !in t.free {
      if y in sh.free {
        var k :| 0 <= k < |sh.free| && sh.free[k] == y;
        assert k > 0 ==> sh.free[k] == t.free[k - 1];
      }
    }
  }

  /** Acquiring the first free slot for a key of bucket b: it joins the FIFO tail and heads the chain. */
  lemma Acquired(E: seq<Entry>, F: seq<Entry>, B: seq<int>, freeHead: int, fifoHead: int, fifoTail: int,
                 sh: Shape, hash: Key -> nat, b: nat, C: seq<int>, head': int, tail': int)
    requires WellFormed(E, B, freeHead, fifoHead, fifoTail, sh, hash)
    requires sh.free != [] && b < |sh.chains|
    requires |F| == |E| && forall i :: 0 <= i < |E| && i != sh.free[0] ==> TxnAt(F, i) == TxnAt(E, i)
    requires BucketOf(hash, |sh.chains|, F[sh.free[0]].key) == b
    requires Fifo(F, head', tail', sh.fifo + [sh.free[0]])
    requires F[sh.free[0]].hnext == B[b]
    requires forall i :: 0 <= i < |E| && i != sh.free[0] ==> F[i].hnext == E[i].hnext
    requires C == B[b := sh.free[0]]
    ensures WellFormed(F, C, At(sh.free, 1), head', tail', Reshape(sh, b), hash)
  {
    var x := sh.free[0];
    assert x in sh.free && x !in sh.fifo;
    var t := Reshape(sh, b);
    PartitionAcquired(|F|, sh, b);
    assert Chain(F, At(sh.free, 1), t.free) by {
      forall i | 0 <= i < |t.free| ensures F[t.free[i]].hnext == At(t.free, i + 1) {
        assert t.free[i] == sh.free[i + 1] && sh.free[i + 1] != x;
      }
    }
    forall c | 0 <= c < |C| ensures Chain(F, C[c], t.chains[c]) {
      assert Chain(E, B[c], sh.chains[c]);
      forall i | 0 <= i < |sh.chains[c]| ensures sh.chains[c][i] != x {
        assert sh.chains[c][i] in sh.chains[c];
      }
      ChainFrame(E, F, B[c], sh.chains[c]);
      if c == b {
        assert forall i :: 0 < i < |t.chains[b]| ==> t.chains[b][i] == sh.chains[b][i - 1];
      }
    }
    HashedAcquired(E, F, sh, hash, b);
  }

  lemma HashedAcquired(E: seq<Entry>, F: seq<Entry>, sh: Shape, hash: Key -> nat, b: nat)
    requires Hashed(E, sh, hash) && sh.free != [] && b < |sh.chains| && InPool(|E|, sh.free)
    requires sh.free[0] !in sh.fifo
    requires |F| == |E| && forall i :: 0 <= i < |E| && i != sh.free[0] ==> TxnAt(F, i) == TxnAt(E, i)
    requires BucketOf(hash, |sh.chains|, F[sh.free[0]].key) == b
    ensures Hashed(F, Reshape(sh, b), hash)
  {
    var t := Reshape(sh, b);
    var x := sh.free[0];
    forall c | 0 <= c < |t.chains| ensures NoDup(t.chains[c]) {
      assert NoDup(sh.chains[c]);
      assert x !in sh.chains[c];
    }
    forall c, y | 0 <= c < |t.chains| && y in t.chains[c]
      ensures y in t.fifo && BucketOf(hash, |t.chains|, F[y].key) == c
    {
      if y != x {
        assert y in sh.chains[c];
        assert y in sh.fifo && 0 <= y < |E|;
        assert TxnAt(F, y) == TxnAt(E, y);
      } else {
        assert x !in sh.chains[c];
      }
    }
    forall y | y in t.fifo ensures y in t.chains[BucketOf(hash, |t.chains|, F[y].key)] {
      if y != x {
        assert y in sh.fifo;
        assert TxnAt(F, y) == TxnAt(E, y);
      }
    }
  }
}
