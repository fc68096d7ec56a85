/** What the pending table means: an insertion-ordered list of pending queries, and the
    trace of emit calls it produces. The pooled table of Correlation.dfy refines it. */
module PendingList {
  import opened Bytes
  import opened TxnKeys

  /** An opaque context pointer. */
  type Ctx = nat

  const AMORTIZED_EVICT_MAX := 8
  const SIZE_MAX := 0xFFFF_FFFF_FFFF_FFFF

  datatype Txn = Txn(key: Key, time: int, ctx: Ctx)

  datatype Emission =
    | Observed(query: Ctx, response: Ctx, rtt: int, rttValid: bool, key: Key)
    | Unanswered(query: Ctx, key: Key)
    | Unmatched(response: Ctx, key: Key)

  datatype Stats = Stats(observed: nat, unanswered: nat, unmatched: nat,
                         collision: nat, drop: nat, rttInvalid: nat)

  datatype Config = Config(capacity: nat, timeout: int, dropOldest: bool)

  datatype Model = Model(pending: seq<Txn>, stats: Stats, trace: seq<Emission>)

  datatype Op =
    | Query(key: Key, time: int, ctx: Ctx)
    | Response(key: Key, time: int, ctx: Ctx)
    | Tick(now: int)

  /** Which counter an eviction of the oldest entry bumps. */
  datatype Reason = Timeout | TableFull

  const INIT := Model([], Stats(0, 0, 0, 0, 0, 0), [])

  function RemoveAt<T>(s: seq<T>, i: nat): (r: seq<T>)
    requires i < |s|
    ensures |r| == |s| - 1
  {
    s[..i] + s[i + 1..]
  }

  function Count(st: Stats, why: Reason): (r: Stats) {
    match why
    case Timeout => st.(unanswered := st.unanswered + 1)
    case TableFull => st.(drop := st.drop + 1)
  }

  predicate Expired(cfg: Config, t: Txn, now: int) {
    now - t.time > cfg.timeout
  }

  function EvictOldest(m: Model, why: Reason): (r: Model)
    requires m.pending != []
  {
    Model(m.pending[1..], Count(m.stats, why),
          m.trace + [Unanswered(m.pending[0].ctx, m.pending[0].key)])
  }

  function Expire(cfg: Config, m: Model, now: int, budget: nat): (r: Model)
    decreases |m.pending|
  {
    if budget == 0 || m.pending == [] || !Expired(cfg, m.pending[0], now) then m
    else Expire(cfg, EvictOldest(m, Timeout), now, budget - 1)
  }

  /** Position of the pending query with an equal key, |p| when there is none. */
  function Find(p: seq<Txn>, key: Key): (i: nat)
    ensures i <= |p|
    ensures i < |p| ==> KeyEqual(p[i].key, key)
    ensures forall j :: 0 <= j < i ==> !KeyEqual(p[j].key, key)
  {
    if p == [] then 0
    else if KeyEqual(p[0].key, key) then 0
    else 1 + Find(p[1..], key)
  }

  function Insert(m: Model, t: Txn): (r: Model) {
    m.(pending := m.pending + [t])
  }

  function Collide(m: Model, i: nat, t: Txn): (r: Model)
    requires i < |m.pending|
  {
    Model(RemoveAt(m.pending, i) + [t], m.stats.(collision := m.stats.collision + 1),
          m.trace + [Unanswered(m.pending[i].ctx, m.pending[i].key)])
  }

  function DropNewest(m: Model, t: Txn): (r: Model) {
    Model(m.pending, Count(m.stats, TableFull), m.trace + [Unanswered(t.ctx, t.key)])
  }

  function OnQuery(cfg: Config, m: Model, t: Txn): (r: Model) {
    var m1 := Expire(cfg, m, t.time, AMORTIZED_EVICT_MAX);
    var i := Find(m1.pending, t.key);
    if i < |m1.pending| then Collide(m1, i, t)
    else if |m1.pending| < cfg.capacity then Insert(m1, t)
    else if cfg.dropOldest && m1.pending != [] then Insert(EvictOldest(m1, TableFull), t)
    else DropNewest(m1, t)
  }

  predicate RttValid(cfg: Config, rtt: int) {
    0 <= rtt <= cfg.timeout
  }

  function OnResponse(cfg: Config, m: Model, key: Key, time: int, ctx: Ctx): (r: Model) {
    var i := Find(m.pending, key);
    if i == |m.pending| then
      Model(m.pending, m.stats.(unmatched := m.stats.unmatched + 1), m.trace + [Unmatched(ctx, key)])
    else
      var t := m.pending[i];
      var rtt := time - t.time;
      var valid := RttValid(cfg, rtt);
      Model(RemoveAt(m.pending, i),
            m.stats.(observed := m.stats.observed + 1,
                     rttInvalid := m.stats.rttInvalid + (if valid then 0 else 1)),
            m.trace + [Observed(t.ctx, ctx, rtt, valid, t.key)])
  }

  function Step(cfg: Config, m: Model, op: Op): (r: Model) {
    match op
    case Query(key, time, ctx) => OnQuery(cfg, m, Txn(key, time, ctx))
    case Response(key, time, ctx) => OnResponse(cfg, m, key, time, ctx)
    case Tick(now) => Expire(cfg, m, now, SIZE_MAX)
  }

  /** The teardown drain: every pending query comes back unanswered, oldest first. */
  function Drain(m: Model): (r: Model)
    decreases |m.pending|
  {
    if m.pending == [] then m else Drain(EvictOldest(m, Timeout))
  }

  function Run(cfg: Config, ops: seq<Op>): (r: Model) {
    if ops == [] then INIT else Step(cfg, Run(cfg, ops[..|ops| - 1]), ops[|ops| - 1])
  }

  // ---------------------------------------------------------------- table invariant

  ghost predicate DistinctKeys(p: seq<Txn>) {
    forall i, j :: 0 <= i < j < |p| ==> !KeyEqual(p[i].key, p[j].key)
  }

  ghost predicate Table(cfg: Config, m: Model) {
    |m.pending| <= cfg.capacity && DistinctKeys(m.pending)
  }

  lemma {:induction false} ExpireDropsPrefix(cfg: Config, m: Model, now: int, budget: nat)
    ensures var r := Expire(cfg, m, now, budget);
            var n := |m.pending| - |r.pending|;
            && 0 <= n <= budget
            && r.pending == m.pending[n..]
            && (forall i :: 0 <= i < n ==> Expired(cfg, m.pending[i], now))
            && (n < budget && n < |m.pending| ==> !Expired(cfg, m.pending[n], now))
            && r.trace == m.trace + seq(n, i requires 0 <= i < |m.pending| => Unanswered(m.pending[i].ctx, m.pending[i].key))
            && r.stats == m.stats.(unanswered := m.stats.unanswered + n)
    decreases |m.pending|
  {
    if budget == 0 || m.pending == [] || !Expired(cfg, m.pending[0], now) {
    } else {
      var m1 := EvictOldest(m, Timeout);
      ExpireDropsPrefix(cfg, m1, now, budget - 1);
      var r := Expire(cfg, m, now, budget);
      var n := |m.pending| - |r.pending|;
      forall i | 0 <= i < n ensures Expired(cfg, m.pending[i], now) {
        if i > 0 { assert m.pending[i] == m1.pending[i - 1]; }
      }
    }
  }

  lemma {:induction false} DrainEmptiesOldestFirst(m: Model)
    ensures var r := Drain(m);
            && r.pending == []
            && r.trace == m.trace + seq(|m.pending|, i requires 0 <= i < |m.pending| => Unanswered(m.pending[i].ctx, m.pending[i].key))
            && r.stats == m.stats.(unanswered := m.stats.unanswered + |m.pending|)
    decreases |m.pending|
  {
    if m.pending != [] {
      DrainEmptiesOldestFirst(EvictOldest(m, Timeout));
    }
  }

  lemma CollideKeepsDistinct(p: seq<Txn>, i: nat, t: Txn)
    requires DistinctKeys(p) && i < |p| && KeyEqual(p[i].key, t.key)
    ensures DistinctKeys(RemoveAt(p, i) + [t])
  {
    var r := RemoveAt(p, i);
    forall j | 0 <= j < |r| ensures !KeyEqual(r[j].key, t.key) {
      KeyEqualIsEquivalence(r[j].key, t.key, p[i].key);
      KeyEqualIsEquivalence(p[i].key, t.key, r[j].key);
    }
  }

  lemma DistinctTail(p: seq<Txn>, n: nat)
    requires DistinctKeys(p) && n <= |p|
    ensures DistinctKeys(p[n..])
  {
  }

  lemma DistinctWith(p: seq<Txn>, t: Txn)
    requires DistinctKeys(p) && forall j :: 0 <= j < |p| ==> !KeyEqual(p[j].key, t.key)
    ensures DistinctKeys(p + [t])
  {
  }

  lemma QueryKeepsTable(cfg: Config, m: Model, t: Txn)
    requires Table(cfg, m)
    ensures Table(cfg, OnQuery(cfg, m, t))
  {
    hide Expire;
    hide KeyEqual;
    hide DistinctKeys;
    ExpireDropsPrefix(cfg, m, t.time, AMORTIZED_EVICT_MAX);
    var m1 := Expire(cfg, m, t.time, AMORTIZED_EVICT_MAX);
    DistinctTail(m.pending, |m.pending| - |m1.pending|);
    var i := Find(m1.pending, t.key);
    if i < |m1.pending| {
      CollideKeepsDistinct(m1.pending, i, t);
    } else if |m1.pending| < cfg.capacity {
      DistinctWith(m1.pending, t);
    } else if cfg.dropOldest && m1.pending != [] {
      DistinctTail(m1.pending, 1);
      DistinctWith(m1.pending[1..], t);
    }
  }

  /** The table never exceeds its capacity and never holds two equal keys. */
  lemma {:induction false} RunKeepsTable(cfg: Config, ops: seq<Op>)
    ensures Table(cfg, Run(cfg, ops))
  {
    if ops != [] {
      var m := Run(cfg, ops[..|ops| - 1]);
      RunKeepsTable(cfg, ops[..|ops| - 1]);
      match ops[|ops| - 1] {
        case Query(key, time, ctx) => QueryKeepsTable(cfg, m, Txn(key, time, ctx));
        case Response(_, _, _) =>
        case Tick(now) => ExpireDropsPrefix(cfg, m, now, SIZE_MAX);
      }
    }
  }

  // ---------------------------------------------------------------- ownership

  function QueryCtx(e: Emission): (s: seq<Ctx>) {
    if e.Unmatched? then [] else [e.query]
  }

  function ResponseCtx(e: Emission): (s: seq<Ctx>) {
    if e.Unanswered? then [] else [e.response]
  }

  function QueriesOut(trace: seq<Emission>): (s: seq<Ctx>) {
    if trace == [] then [] else QueriesOut(trace[..|trace| - 1]) + QueryCtx(trace[|trace| - 1])
  }

  function ResponsesOut(trace: seq<Emission>): (s: seq<Ctx>) {
    if trace == [] then [] else ResponsesOut(trace[..|trace| - 1]) + ResponseCtx(trace[|trace| - 1])
  }

  function QueriesIn(ops: seq<Op>): (s: seq<Ctx>) {
    if ops == [] then []
    else QueriesIn(ops[..|ops| - 1]) + (if ops[|ops| - 1].Query? then [ops[|ops| - 1].ctx] else [])
  }

  function ResponsesIn(ops: seq<Op>): (s: seq<Ctx>) {
    if ops == [] then []
    else ResponsesIn(ops[..|ops| - 1]) + (if ops[|ops| - 1].Response? then [ops[|ops| - 1].ctx] else [])
  }

  function Held(p: seq<Txn>): (s: seq<Ctx>)
    ensures |s| == |p|
  {
    seq(|p|, i requires 0 <= i < |p| => p[i].ctx)
  }

  /** The books of the table: `qs` and `rs` are the query and response contexts handed in. */
  ghost predicate Balanced(m: Model, qs: seq<Ctx>, rs: seq<Ctx>) {
    && multiset(QueriesOut(m.trace)) + multiset(Held(m.pending)) == multiset(qs)
    && ResponsesOut(m.trace) == rs
    && |qs| == m.stats.observed + m.stats.unanswered + m.stats.collision + m.stats.drop + |m.pending|
    && |rs| == m.stats.observed + m.stats.unmatched
  }

  lemma EmitOne(trace: seq<Emission>, e: Emission)
    ensures QueriesOut(trace + [e]) == QueriesOut(trace) + QueryCtx(e)
    ensures ResponsesOut(trace + [e]) == ResponsesOut(trace) + ResponseCtx(e)
  {
    assert (trace + [e])[..|trace + [e]| - 1] == trace;
  }

  lemma HeldWithout(p: seq<Txn>, i: nat)
    requires i < |p|
    ensures multiset(Held(p)) == multiset(Held(RemoveAt(p, i))) + multiset{p[i].ctx}
  {
    var h := Held(p);
    assert h == h[..i] + [h[i]] + h[i + 1..];
    assert Held(RemoveAt(p, i)) == h[..i] + h[i + 1..];
  }

  lemma HeldWith(p: seq<Txn>, t: Txn)
    ensures Held(p + [t]) == Held(p) + [t.ctx]
  {
  }

  lemma EvictKeepsBalance(m: Model, why: Reason, qs: seq<Ctx>, rs: seq<Ctx>)
    requires m.pending != [] && Balanced(m, qs, rs)
    ensures Balanced(EvictOldest(m, why), qs, rs)
  {
    EmitOne(m.trace, Unanswered(m.pending[0].ctx, m.pending[0].key));
    HeldWithout(m.pending, 0);
    assert RemoveAt(m.pending, 0) == m.pending[1..];
  }

  lemma {:induction false} ExpireKeepsBalance(cfg: Config, m: Model, now: int, budget: nat, qs: seq<Ctx>, rs: seq<Ctx>)
    requires Balanced(m, qs, rs)
    ensures Balanced(Expire(cfg, m, now, budget), qs, rs)
    decreases budget
  {
    hide Balanced;
    hide EvictOldest;
    if !(budget == 0 || m.pending == [] || !Expired(cfg, m.pending[0], now)) {
      EvictKeepsBalance(m, Timeout, qs, rs);
      ExpireKeepsBalance(cfg, EvictOldest(m, Timeout), now, budget - 1, qs, rs);
    }
  }

  lemma {:induction false} DrainKeepsBalance(m: Model, qs: seq<Ctx>, rs: seq<Ctx>)
    requires Balanced(m, qs, rs)
    ensures Balanced(Drain(m), qs, rs)
    decreases |m.pending|
  {
    if m.pending != [] {
      EvictKeepsBalance(m, Timeout, qs, rs);
      DrainKeepsBalance(EvictOldest(m, Timeout), qs, rs);
    }
  }

  lemma CollideKeepsBalance(m: Model, i: nat, t: Txn, qs: seq<Ctx>, rs: seq<Ctx>)
    requires i < |m.pending| && Balanced(m, qs, rs)
    ensures Balanced(Collide(m, i, t), qs + [t.ctx], rs)
  {
    HeldWithout(m.pending, i);
    HeldWith(RemoveAt(m.pending, i), t);
    EmitOne(m.trace, Unanswered(m.pending[i].ctx, m.pending[i].key));
  }

  lemma InsertKeepsBalance(m: Model, t: Txn, qs: seq<Ctx>, rs: seq<Ctx>)
    requires Balanced(m, qs, rs)
    ensures Balanced(Insert(m, t), qs + [t.ctx], rs)
  {
    HeldWith(m.pending, t);
  }

  lemma DropKeepsBalance(m: Model, t: Txn, qs: seq<Ctx>, rs: seq<Ctx>)
    requires Balanced(m, qs, rs)
    ensures Balanced(DropNewest(m, t), qs + [t.ctx], rs)
  {
    EmitOne(m.trace, Unanswered(t.ctx, t.key));
  }

  lemma QueryKeepsBalance(cfg: Config, m: Model, t: Txn, qs: seq<Ctx>, rs: seq<Ctx>)
    requires Balanced(m, qs, rs)
    ensures Balanced(OnQuery(cfg, m, t), qs + [t.ctx], rs)
  {
    ExpireKeepsBalance(cfg, m, t.time, AMORTIZED_EVICT_MAX, qs, rs);
    var m1 := Expire(cfg, m, t.time, AMORTIZED_EVICT_MAX);
    var i := Find(m1.pending, t.key);
    if i < |m1.pending| {
      CollideKeepsBalance(m1, i, t, qs, rs);
    } else if |m1.pending| < cfg.capacity {
      InsertKeepsBalance(m1, t, qs, rs);
    } else if cfg.dropOldest && m1.pending != [] {
      EvictKeepsBalance(m1, TableFull, qs, rs);
      InsertKeepsBalance(EvictOldest(m1, TableFull), t, qs, rs);
    } else {
      DropKeepsBalance(m1, t, qs, rs);
    }
  }

  lemma ResponseKeepsBalance(cfg: Config, m: Model, key: Key, time: int, ctx: Ctx, qs: seq<Ctx>, rs: seq<Ctx>)
    requires Balanced(m, qs, rs)
    ensures Balanced(OnResponse(cfg, m, key, time, ctx), qs, rs + [ctx])
  {
    hide QueriesOut;
    hide ResponsesOut;
    hide Held;
    hide Find;
    hide KeyEqual;
    var i := Find(m.pending, key);
    EmitOne(m.trace, Unmatched(ctx, key));
    if i < |m.pending| {
      var t := m.pending[i];
      HeldWithout(m.pending, i);
      EmitOne(m.trace, Observed(t.ctx, ctx, time - t.time, RttValid(cfg, time - t.time), t.key));
    }
  }

  /** At every point of every run, each query context handed in is either still pending or has
      been emitted once, each response context has been emitted once, and the counters add up. */
  lemma {:induction false} RunIsBalanced(cfg: Config, ops: seq<Op>)
    ensures Balanced(Run(cfg, ops), QueriesIn(ops), ResponsesIn(ops))
  {
    if ops != [] {
      var pre := ops[..|ops| - 1];
      RunIsBalanced(cfg, pre);
      var m := Run(cfg, pre);
      match ops[|ops| - 1] {
        case Query(key, time, ctx) => QueryKeepsBalance(cfg, m, Txn(key, time, ctx), QueriesIn(pre), ResponsesIn(pre));
        case Response(key, time, ctx) => ResponseKeepsBalance(cfg, m, key, time, ctx, QueriesIn(pre), ResponsesIn(pre));
        case Tick(now) => ExpireKeepsBalance(cfg, m, now, SIZE_MAX, QueriesIn(pre), ResponsesIn(pre));
      }
    }
  }

  /** The ownership contract: once the table is torn down, every query context ever handed in has
      come back through exactly one emit call. */
  lemma EveryQueryEmittedExactlyOnce(cfg: Config, ops: seq<Op>)
    ensures var r := Drain(Run(cfg, ops));
            && multiset(QueriesOut(r.trace)) == multiset(QueriesIn(ops))
            && ResponsesOut(r.trace) == ResponsesIn(ops)
  {
    RunIsBalanced(cfg, ops);
    DrainKeepsBalance(Run(cfg, ops), QueriesIn(ops), ResponsesIn(ops));
    DrainEmptiesOldestFirst(Run(cfg, ops));
    assert Held([]) == [];
  }

  // ---------------------------------------------------------------- provenance

  /** Operation number i inserted t. */
  ghost predicate Inserted(ops: seq<Op>, i: nat, t: Txn) {
    i < |ops| && ops[i] == Query(t.key, t.time, t.ctx)
  }

  ghost predicate FromQuery(ops: seq<Op>, t: Txn) {
    exists i :: Inserted(ops, i, t)
  }

  /** Response number j matches the query number i, which came earlier and has an equal key. */
  ghost predicate Matches(cfg: Config, ops: seq<Op>, e: Emission, i: nat, j: nat)
    requires e.Observed?
  {
    && i < j < |ops| && ops[i].Query? && ops[j].Response?
    && ops[i].ctx == e.query && ops[i].key == e.key
    && ops[j].ctx == e.response && KeyEqual(ops[j].key, e.key)
    && e.rtt == ops[j].time - ops[i].time
    && (e.rttValid <==> 0 <= e.rtt <= cfg.timeout)
  }

  ghost predicate Justified(cfg: Config, ops: seq<Op>, e: Emission) {
    match e
    case Observed(_, _, _, _, _) => exists i, j :: Matches(cfg, ops, e, i, j)
    case Unanswered(q, k) => exists t :: FromQuery(ops, t) && t.ctx == q && t.key == k
    case Unmatched(r, k) => exists j :: 0 <= j < |ops| && ops[j].Response? && ops[j].ctx == r && ops[j].key == k
  }

  ghost predicate Sound(cfg: Config, ops: seq<Op>, m: Model) {
    && (forall t :: t in m.pending ==> FromQuery(ops, t))
    && (forall e :: e in m.trace ==> Justified(cfg, ops, e))
  }

  lemma MoreOps(cfg: Config, ops: seq<Op>, op: Op, m: Model)
    requires Sound(cfg, ops, m)
    ensures Sound(cfg, ops + [op], m)
  {
    forall t | t in m.pending ensures FromQuery(ops + [op], t) {
      var i :| Inserted(ops, i, t);
      assert Inserted(ops + [op], i, t);
    }
    forall e | e in m.trace ensures Justified(cfg, ops + [op], e) {
      match e {
        case Observed(_, _, _, _, _) =>
          var i, j :| Matches(cfg, ops, e, i, j);
          assert Matches(cfg, ops + [op], e, i, j);
        case Unanswered(q, k) =>
          var t :| FromQuery(ops, t) && t.ctx == q && t.key == k;
          var i :| Inserted(ops, i, t);
          assert Inserted(ops + [op], i, t);
        case Unmatched(r, k) =>
          var j :| 0 <= j < |ops| && ops[j].Response? && ops[j].ctx == r && ops[j].key == k;
          assert (ops + [op])[j] == ops[j];
      }
    }
  }

  lemma EvictIsSound(cfg: Config, ops: seq<Op>, m: Model, why: Reason)
    requires m.pending != [] && Sound(cfg, ops, m)
    ensures Sound(cfg, ops, EvictOldest(m, why))
  {
    assert m.pending[0] in m.pending;
    assert Justified(cfg, ops, Unanswered(m.pending[0].ctx, m.pending[0].key));
  }

  lemma {:induction false} ExpireIsSound(cfg: Config, ops: seq<Op>, m: Model, now: int, budget: nat)
    requires Sound(cfg, ops, m)
    ensures Sound(cfg, ops, Expire(cfg, m, now, budget))
    decreases |m.pending|
  {
    if !(budget == 0 || m.pending == [] || !Expired(cfg, m.pending[0], now)) {
      EvictIsSound(cfg, ops, m, Timeout);
      ExpireIsSound(cfg, ops, EvictOldest(m, Timeout), now, budget - 1);
    }
  }

  lemma QueryIsSound(cfg: Config, ops: seq<Op>, m: Model, t: Txn)
    requires Sound(cfg, ops, m) && FromQuery(ops, t)
    ensures Sound(cfg, ops, OnQuery(cfg, m, t))
  {
    ExpireIsSound(cfg, ops, m, t.time, AMORTIZED_EVICT_MAX);
    var m1 := Expire(cfg, m, t.time, AMORTIZED_EVICT_MAX);
    var i := Find(m1.pending, t.key);
    assert Justified(cfg, ops, Unanswered(t.ctx, t.key));
    if i < |m1.pending| {
      assert m1.pending[i] in m1.pending;
      assert Justified(cfg, ops, Unanswered(m1.pending[i].ctx, m1.pending[i].key));
    } else if |m1.pending| < cfg.capacity {
    } else if cfg.dropOldest && m1.pending != [] {
      EvictIsSound(cfg, ops, m1, TableFull);
    }
  }

  lemma ResponseIsSound(cfg: Config, pre: seq<Op>, m: Model, key: Key, time: int, ctx: Ctx)
    requires Sound(cfg, pre, m)
    ensures Sound(cfg, pre + [Response(key, time, ctx)], OnResponse(cfg, m, key, time, ctx))
  {
    var ops := pre + [Response(key, time, ctx)];
    MoreOps(cfg, pre, Response(key, time, ctx), m);
    var k := Find(m.pending, key);
    assert ops[|pre|].Response?;
    if k < |m.pending| {
      var t := m.pending[k];
      assert t in m.pending;
      var i :| Inserted(pre, i, t);
      var e := Observed(t.ctx, ctx, time - t.time, RttValid(cfg, time - t.time), t.key);
      assert Matches(cfg, ops, e, i, |pre|);
      assert Justified(cfg, ops, e);
    } else {
      assert Justified(cfg, ops, Unmatched(ctx, key));
    }
  }

  /** Nothing is emitted out of thin air: an OBSERVED emission pairs an earlier query with a later
      response of an equal key, with their time difference and its plausibility flag. */
  lemma {:induction false} RunIsSound(cfg: Config, ops: seq<Op>)
    ensures Sound(cfg, ops, Run(cfg, ops))
  {
    if ops != [] {
      var pre := ops[..|ops| - 1];
      var op := ops[|ops| - 1];
      assert ops == pre + [op];
      RunIsSound(cfg, pre);
      var m := Run(cfg, pre);
      MoreOps(cfg, pre, op, m);
      match op {
        case Query(key, time, ctx) =>
          assert Inserted(ops, |pre|, Txn(key, time, ctx));
          QueryIsSound(cfg, ops, m, Txn(key, time, ctx));
        case Response(key, time, ctx) => ResponseIsSound(cfg, pre, m, key, time, ctx);
        case Tick(now) => ExpireIsSound(cfg, ops, m, now, SIZE_MAX);
      }
    }
  }

  // ---------------------------------------------------------------- time order

  ghost predicate Chronological(ops: seq<Op>) {
    forall i, j :: 0 <= i < j < |ops| && ops[i].Query? && ops[j].Query? ==> ops[i].time <= ops[j].time
  }

  ghost predicate Sorted(p: seq<Txn>) {
    forall i, j :: 0 <= i < j < |p| ==> p[i].time <= p[j].time
  }

  lemma PendingTimesAreQueryTimes(cfg: Config, ops: seq<Op>, time: int)
    requires forall i :: 0 <= i < |ops| && ops[i].Query? ==> ops[i].time <= time
    ensures forall t :: t in Run(cfg, ops).pending ==> t.time <= time
  {
    RunIsSound(cfg, ops);
    forall t | t in Run(cfg, ops).pending ensures t.time <= time {
      assert FromQuery(ops, t);
      var i :| Inserted(ops, i, t);
    }
  }

  ghost predicate SortedUpTo(p: seq<Txn>, time: int) {
    Sorted(p) && forall i :: 0 <= i < |p| ==> p[i].time <= time
  }

  lemma SortedWithout(p: seq<Txn>, i: nat, time: int)
    requires SortedUpTo(p, time) && i < |p|
    ensures SortedUpTo(RemoveAt(p, i), time)
  {
  }

  lemma SortedWith(p: seq<Txn>, t: Txn)
    requires SortedUpTo(p, t.time)
    ensures Sorted(p + [t])
  {
  }

  lemma QueryKeepsSorted(cfg: Config, m: Model, t: Txn)
    requires SortedUpTo(m.pending, t.time)
    ensures Sorted(OnQuery(cfg, m, t).pending)
  {
    var m1 := Expire(cfg, m, t.time, AMORTIZED_EVICT_MAX);
    assert SortedUpTo(m1.pending, t.time) by {
      ExpireDropsPrefix(cfg, m, t.time, AMORTIZED_EVICT_MAX);
    }
    var i := Find(m1.pending, t.key);
    if i < |m1.pending| {
      SortedWithout(m1.pending, i, t.time);
      SortedWith(RemoveAt(m1.pending, i), t);
    } else if |m1.pending| < cfg.capacity {
      SortedWith(m1.pending, t);
    } else if cfg.dropOldest && m1.pending != [] {
      assert SortedUpTo(m1.pending[1..], t.time);
      SortedWith(m1.pending[1..], t);
    }
  }

  lemma {:induction false} RunIsSorted(cfg: Config, ops: seq<Op>)
    requires Chronological(ops)
    ensures Sorted(Run(cfg, ops).pending)
  {
    hide Sorted;
    hide Expire;
    NothingSorted();
    if ops != [] {
      var pre := ops[..|ops| - 1];
      RunIsSorted(cfg, pre);
      var m := Run(cfg, pre);
      match ops[|ops| - 1] {
        case Query(key, time, ctx) =>
          PendingTimesAreQueryTimes(cfg, pre, time);
          assert SortedUpTo(m.pending, time);
          QueryKeepsSorted(cfg, m, Txn(key, time, ctx));
        case Response(key, _, _) =>
          if Find(m.pending, key) < |m.pending| {
            SortedPart(m.pending, Find(m.pending, key));
          }
        case Tick(now) =>
          ExpireDropsPrefix(cfg, m, now, SIZE_MAX);
          TailSorted(m.pending, |m.pending| - |Expire(cfg, m, now, SIZE_MAX).pending|);
      }
    }
  }

  lemma NothingSorted()
    ensures Sorted([])
  {
  }

  lemma SortedPart(p: seq<Txn>, i: nat)
    requires Sorted(p) && i < |p|
    ensures Sorted(RemoveAt(p, i))
  {
  }

  lemma TailSorted(p: seq<Txn>, n: nat)
    requires Sorted(p) && n <= |p|
    ensures Sorted(p[n..])
  {
  }

  ghost predicate NoneExpired(cfg: Config, p: seq<Txn>, now: int) {
    forall i :: 0 <= i < |p| ==> !Expired(cfg, p[i], now)
  }

  /** A tick leaves no expired query behind exactly when no expired query sits behind a live one. */
  lemma TickIsExactIff(cfg: Config, m: Model, now: int)
    requires |m.pending| <= SIZE_MAX
    ensures NoneExpired(cfg, Step(cfg, m, Tick(now)).pending, now) <==>
            (forall i, j :: 0 <= i < j < |m.pending| && Expired(cfg, m.pending[j], now) ==> Expired(cfg, m.pending[i], now))
  {
    ExpireDropsPrefix(cfg, m, now, SIZE_MAX);
    var r := Step(cfg, m, Tick(now));
    var n := |m.pending| - |r.pending|;
    if n < |m.pending| {
      assert !Expired(cfg, m.pending[n], now);
      if NoneExpired(cfg, r.pending, now) {
        assert forall j :: n <= j < |m.pending| ==> m.pending[j] == r.pending[j - n];
      }
    }
  }

  /** Two queries whose capture times decrease: the tick stops at the first, which is still live, and
      the second, which has expired, stays behind it. */
  lemma TickLeavesExpiredBehind()
    ensures var cfg := Config(2, 10, false);
            var ops := [Query(ZERO_KEY, 100, 1), Query(ZERO_KEY.(dnsId := 1), 0, 2), Tick(50)];
            var left := Run(cfg, ops).pending;
            |left| == 2 && !Expired(cfg, left[0], 50) && Expired(cfg, left[1], 50)
  {
    var cfg := Config(2, 10, false);
    var a: Key, b: Key := ZERO_KEY, ZERO_KEY.(dnsId := 1);
    var q, r := Query(a, 100, 1), Query(b, 0, 2);
    RunMore(cfg, [], q);
    RunMore(cfg, [q], r);
    RunMore(cfg, [q, r], Tick(50));
    assert [] + [q] == [q] && [q] + [r] == [q, r] && [q, r] + [Tick(50)] == [q, r, Tick(50)];
    assert !KeyEqual(a, b);
    assert Run(cfg, [q]).pending == [Txn(a, 100, 1)];
    assert Run(cfg, [q, r]).pending == [Txn(a, 100, 1), Txn(b, 0, 2)];
  }

  lemma RunMore(cfg: Config, ops: seq<Op>, op: Op)
    ensures Run(cfg, ops + [op]) == Step(cfg, Run(cfg, ops), op)
  {
    assert (ops + [op])[..|ops|] == ops;
  }

  /** With capture times that never decrease, a tick evicts exactly the queries older than the
      timeout, in insertion order, and leaves none behind. */
  lemma TickEvictsExactlyTheExpired(cfg: Config, ops: seq<Op>, now: int)
    requires Chronological(ops) && cfg.capacity <= SIZE_MAX
    ensures var m, r := Run(cfg, ops), Run(cfg, ops + [Tick(now)]);
            var n := |m.pending| - |r.pending|;
            && 0 <= n
            && r.pending == m.pending[n..]
            && (forall i :: 0 <= i < |m.pending| ==> (Expired(cfg, m.pending[i], now) <==> i < n))
            && r.trace == m.trace + seq(n, i requires 0 <= i < |m.pending| => Unanswered(m.pending[i].ctx, m.pending[i].key))
  {
    assert (ops + [Tick(now)])[..|ops|] == ops;
    RunIsSorted(cfg, ops);
    RunKeepsTable(cfg, ops);
    ExpireDropsPrefix(cfg, Run(cfg, ops), now, SIZE_MAX);
  }

  /** A response meets the one pending query with an equal key. */
  lemma ResponseMeetsPendingQuery(cfg: Config, m: Model, k: nat, key: Key, time: int, ctx: Ctx)
    requires DistinctKeys(m.pending) && k < |m.pending| && KeyEqual(m.pending[k].key, key)
    ensures var t := m.pending[k];
            var r := OnResponse(cfg, m, key, time, ctx);
            && r.trace == m.trace + [Observed(t.ctx, ctx, time - t.time, 0 <= time - t.time <= cfg.timeout, t.key)]
            && r.pending == RemoveAt(m.pending, k)
  {
    var i := Find(m.pending, key);
    if i != k {
      KeyEqualIsEquivalence(m.pending[i].key, key, m.pending[k].key);
      KeyEqualIsEquivalence(m.pending[k].key, key, m.pending[i].key);
    }
  }

  // ---------------------------------------------------------------- one call, case by case

  /** The first n queries have timed out, n at most eight, and unless eight have, the next one has not. */
  ghost predicate Swept(cfg: Config, p: seq<Txn>, now: int, n: nat) {
    && n <= 8 && n <= |p|
    && (forall i :: 0 <= i < n ==> now - p[i].time > cfg.timeout)
    && (n < 8 && n < |p| ==> now - p[n].time <= cfg.timeout)
  }

  function TimedOut(p: seq<Txn>, n: nat): (s: seq<Emission>)
    requires n <= |p|
    ensures |s| == n && forall i :: 0 <= i < n ==> s[i] == Unanswered(p[i].ctx, p[i].key)
  {
    seq(n, i requires 0 <= i < |p| => Unanswered(p[i].ctx, p[i].key))
  }

  /** There is exactly one such number. */
  lemma SweptOnce(cfg: Config, p: seq<Txn>, now: int) returns (n: nat)
    ensures Swept(cfg, p, now, n) && forall k: nat :: Swept(cfg, p, now, k) ==> k == n
  {
    n := 0;
    while n < 8 && n < |p| && now - p[n].time > cfg.timeout
      invariant n <= 8 && n <= |p| && forall i :: 0 <= i < n ==> now - p[i].time > cfg.timeout
    {
      n := n + 1;
    }
  }

  lemma SweptUnique(cfg: Config, p: seq<Txn>, now: int, n: nat, k: nat)
    requires Swept(cfg, p, now, n) && Swept(cfg, p, now, k)
    ensures n == k
  {
  }

  lemma SweepIs(cfg: Config, m: Model, now: int, n: nat)
    requires Swept(cfg, m.pending, now, n)
    ensures Expire(cfg, m, now, AMORTIZED_EVICT_MAX)
            == Model(m.pending[n..], m.stats.(unanswered := m.stats.unanswered + n), m.trace + TimedOut(m.pending, n))
  {
    ExpireDropsPrefix(cfg, m, now, AMORTIZED_EVICT_MAX);
    var r := Expire(cfg, m, now, AMORTIZED_EVICT_MAX);
    var k := |m.pending| - |r.pending|;
    assert Swept(cfg, m.pending, now, k);
    SweptUnique(cfg, m.pending, now, n, k);
    assert TimedOut(m.pending, n) == seq(n, i requires 0 <= i < |m.pending| => Unanswered(m.pending[i].ctx, m.pending[i].key));
  }

  /** Every query sweeps first: up to eight timed-out queries at the head are emitted UNANSWERED, in
      order, whether or not the table is full. What is left then gains the query: in place of one with
      an equal key, which is emitted; or at the end, if there is room; or in place of the oldest, or not
      at all, as the policy says, and the one that gives way is emitted. */
  lemma QueryDoes(cfg: Config, m: Model, t: Txn, n: nat)
    requires DistinctKeys(m.pending) && Swept(cfg, m.pending, t.time, n)
    ensures var left, sent := m.pending[n..], m.trace + TimedOut(m.pending, n);
            var st := m.stats.(unanswered := m.stats.unanswered + n);
            var r := OnQuery(cfg, m, t);
            && (forall i :: 0 <= i < |left| && KeyEqual(left[i].key, t.key) ==>
                  r == Model(left[..i] + left[i + 1..] + [t], st.(collision := st.collision + 1),
                             sent + [Unanswered(left[i].ctx, left[i].key)]))
            && ((forall i :: 0 <= i < |left| ==> !KeyEqual(left[i].key, t.key)) ==>
                  r == if |left| < cfg.capacity then Model(left + [t], st, sent)
                       else if cfg.dropOldest && left != [] then
                         Model(left[1..] + [t], st.(drop := st.drop + 1), sent + [Unanswered(left[0].ctx, left[0].key)])
                       else Model(left, st.(drop := st.drop + 1), sent + [Unanswered(t.ctx, t.key)]))
  {
    hide Expire;
    hide KeyEqual;
    SweepIs(cfg, m, t.time, n);
    var left := m.pending[n..];
    var k := Find(left, t.key);
    forall i | 0 <= i < |left| && KeyEqual(left[i].key, t.key) ensures i == k {
      assert k < |left| && left[i] == m.pending[n + i] && left[k] == m.pending[n + k];
      KeyEqualIsEquivalence(left[k].key, t.key, left[i].key);
      KeyEqualIsEquivalence(left[i].key, t.key, left[k].key);
    }
  }

  /** The sweep each query pays for evicts at most eight queries, all of them expired, and emits them
      first; whatever else the query does emits at most one more. */
  lemma AmortizedSweepIsBounded(cfg: Config, m: Model, t: Txn)
    ensures var r := Expire(cfg, m, t.time, AMORTIZED_EVICT_MAX);
            var n := |m.pending| - |r.pending|;
            && 0 <= n <= 8
            && r.pending == m.pending[n..]
            && (forall i :: 0 <= i < n ==> Expired(cfg, m.pending[i], t.time))
            && Swept(cfg, m.pending, t.time, n)
            && (DistinctKeys(m.pending) ==>
                  var q := OnQuery(cfg, m, t);
                  m.trace + TimedOut(m.pending, n) <= q.trace && |q.trace| <= |m.trace| + n + 1)
  {
    hide Expire;
    hide KeyEqual;
    hide OnQuery;
    ExpireDropsPrefix(cfg, m, t.time, AMORTIZED_EVICT_MAX);
    var n := |m.pending| - |Expire(cfg, m, t.time, AMORTIZED_EVICT_MAX).pending|;
    if DistinctKeys(m.pending) {
      QueryDoes(cfg, m, t, n);
    }
  }

  /** A response takes the one query with an equal key away and is emitted with it; without one it is
      emitted UNMATCHED. It never sweeps. */
  lemma ResponseDoes(cfg: Config, m: Model, key: Key, time: int, ctx: Ctx)
    requires DistinctKeys(m.pending)
    ensures var p, st, r := m.pending, m.stats, OnResponse(cfg, m, key, time, ctx);
            && (forall i :: 0 <= i < |p| && KeyEqual(p[i].key, key) ==>
                  var rtt := time - p[i].time;
                  var valid := 0 <= rtt && rtt <= cfg.timeout;
                  r == Model(p[..i] + p[i + 1..],
                             if valid then st.(observed := st.observed + 1)
                             else st.(observed := st.observed + 1, rttInvalid := st.rttInvalid + 1),
                             m.trace + [Observed(p[i].ctx, ctx, rtt, valid, p[i].key)]))
            && ((forall i :: 0 <= i < |p| ==> !KeyEqual(p[i].key, key)) ==>
                  r == Model(p, st.(unmatched := st.unmatched + 1), m.trace + [Unmatched(ctx, key)]))
  {
    hide KeyEqual;
    var k := Find(m.pending, key);
    forall i | 0 <= i < |m.pending| && KeyEqual(m.pending[i].key, key) ensures i == k {
      KeyEqualIsEquivalence(m.pending[k].key, key, m.pending[i].key);
      KeyEqualIsEquivalence(m.pending[i].key, key, m.pending[k].key);
    }
  }

  /** With room to spare, a query sweeps one that has timed out, so its late response is unmatched. */
  lemma SweepShowsInTrace()
    ensures var cfg := Config(4, 10, false);
            var a: Key, b: Key := ZERO_KEY, ZERO_KEY.(dnsId := 1);
            Run(cfg, [Query(a, 0, 1), Query(b, 100, 2), Response(a, 101, 3)]).trace == [Unanswered(1, a), Unmatched(3, a)]
  {
    var cfg := Config(4, 10, false);
    var a: Key, b: Key := ZERO_KEY, ZERO_KEY.(dnsId := 1);
    var q, r, s := Query(a, 0, 1), Query(b, 100, 2), Response(a, 101, 3);
    RunMore(cfg, [], q);
    RunMore(cfg, [q], r);
    RunMore(cfg, [q, r], s);
    assert [] + [q] == [q] && [q] + [r] == [q, r] && [q, r] + [s] == [q, r, s];
    assert !KeyEqual(a, b) && !KeyEqual(b, a);
    QueryDoes(cfg, INIT, Txn(a, 0, 1), 0);
    var one := Run(cfg, [q]);
    assert one.pending == [Txn(a, 0, 1)] && one.trace == [];
    QueryDoes(cfg, one, Txn(b, 100, 2), 1);
    var two := Run(cfg, [q, r]);
    assert two.pending == [Txn(b, 100, 2)] && two.trace == [Unanswered(1, a)];
    ResponseDoes(cfg, two, a, 101, 3);
  }

  // ---------------------------------------------------------------- the counters are those of the trace

  datatype Seen = Seen(observed: nat, invalid: nat, unanswered: nat, unmatched: nat)

  function Emitted(trace: seq<Emission>): (s: Seen) {
    if trace == [] then Seen(0, 0, 0, 0)
    else
      var s := Emitted(trace[..|trace| - 1]);
      match trace[|trace| - 1]
      case Observed(_, _, _, valid, _) =>
        s.(observed := s.observed + 1, invalid := s.invalid + if valid then 0 else 1)
      case Unanswered(_, _) => s.(unanswered := s.unanswered + 1)
      case Unmatched(_, _) => s.(unmatched := s.unmatched + 1)
  }

  ghost predicate CountsEmissions(m: Model) {
    && m.stats.observed == Emitted(m.trace).observed && m.stats.rttInvalid == Emitted(m.trace).invalid
    && m.stats.unanswered + m.stats.collision + m.stats.drop == Emitted(m.trace).unanswered
    && m.stats.unmatched == Emitted(m.trace).unmatched
  }

  lemma EmittedMore(trace: seq<Emission>, e: Emission)
    ensures var s := Emitted(trace);
            Emitted(trace + [e]) == match e
              case Observed(_, _, _, valid, _) =>
                s.(observed := s.observed + 1, invalid := s.invalid + if valid then 0 else 1)
              case Unanswered(_, _) => s.(unanswered := s.unanswered + 1)
              case Unmatched(_, _) => s.(unmatched := s.unmatched + 1)
  {
    assert (trace + [e])[..|trace|] == trace;
  }

  lemma {:induction false} ExpireCounts(cfg: Config, m: Model, now: int, budget: nat)
    requires CountsEmissions(m)
    ensures CountsEmissions(Expire(cfg, m, now, budget))
    decreases |m.pending|
  {
    hide Emitted;
    if !(budget == 0 || m.pending == [] || !Expired(cfg, m.pending[0], now)) {
      EmittedMore(m.trace, Unanswered(m.pending[0].ctx, m.pending[0].key));
      ExpireCounts(cfg, EvictOldest(m, Timeout), now, budget - 1);
    }
  }

  lemma QueryCounts(cfg: Config, m: Model, t: Txn)
    requires CountsEmissions(m)
    ensures CountsEmissions(OnQuery(cfg, m, t))
  {
    hide Emitted;
    hide Find;
    hide Expire;
    hide KeyEqual;
    ExpireCounts(cfg, m, t.time, AMORTIZED_EVICT_MAX);
    var m1 := Expire(cfg, m, t.time, AMORTIZED_EVICT_MAX);
    var i := Find(m1.pending, t.key);
    if i < |m1.pending| {
      EmittedMore(m1.trace, Unanswered(m1.pending[i].ctx, m1.pending[i].key));
    } else if m1.pending != [] {
      EmittedMore(m1.trace, Unanswered(m1.pending[0].ctx, m1.pending[0].key));
    }
    EmittedMore(m1.trace, Unanswered(t.ctx, t.key));
  }

  lemma ResponseCounts(cfg: Config, m: Model, key: Key, time: int, ctx: Ctx)
    requires CountsEmissions(m)
    ensures CountsEmissions(OnResponse(cfg, m, key, time, ctx))
  {
    hide Emitted;
    hide KeyEqual;
    hide Find;
    var i := Find(m.pending, key);
    if i < |m.pending| {
      var t := m.pending[i];
      EmittedMore(m.trace, Observed(t.ctx, ctx, time - t.time, RttValid(cfg, time - t.time), t.key));
    } else {
      EmittedMore(m.trace, Unmatched(ctx, key));
    }
  }

  /** At every point of every run, each counter is the number of emissions of its kind. */
  lemma {:induction false} RunCountsEmissions(cfg: Config, ops: seq<Op>)
    ensures CountsEmissions(Run(cfg, ops))
  {
    hide CountsEmissions;
    hide OnQuery;
    hide OnResponse;
    NothingEmitted();
    hide KeyEqual;
    hide Expire;
    if ops != [] {
      var pre := ops[..|ops| - 1];
      RunCountsEmissions(cfg, pre);
      var m := Run(cfg, pre);
      match ops[|ops| - 1] {
        case Query(key, time, ctx) => QueryCounts(cfg, m, Txn(key, time, ctx));
        case Response(key, time, ctx) => ResponseCounts(cfg, m, key, time, ctx);
        case Tick(now) => ExpireCounts(cfg, m, now, SIZE_MAX);
      }
    }
  }

  lemma NothingEmitted()
    ensures CountsEmissions(INIT)
  {
  }
}
