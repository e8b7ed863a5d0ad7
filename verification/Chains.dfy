/** The bucket chains of the kernel's hash table as values. Entries carry no key, so every
    operation works on whole buckets. `hash_min` is an arbitrary function into the buckets. */
module Chains {
  import opened Words

  const BUCKETS: nat := 0x10_0000

  type Bucket = b: nat | b < BUCKETS
  type Hash = U32 -> Bucket
  type Table<T> = t: seq<seq<T>> | |t| == BUCKETS witness seq(BUCKETS, (i: nat) => [])

  function Empty<T>(): Table<T> {
    seq(BUCKETS, i => [])
  }

  /** `hash_add_rcu` links at the head. */
  function Push<T>(t: Table<T>, b: Bucket, x: T): Table<T> {
    t[b := [x] + t[b]]
  }

  function Clear<T>(t: Table<T>, b: Bucket): Table<T> {
    t[b := []]
  }

  /** What one message does to the table: an `S` links two entries, a `D` empties two buckets,
      and an `S` for which an allocation failed links nothing. */
  datatype Op<T> =
    | Setup(k1: U32, k2: U32, x1: T, x2: T)
    | Teardown(k1: U32, k2: U32)
    | NoRoom

  function Apply<T>(hash: Hash, t: Table<T>, op: Op<T>): Table<T> {
    match op
    case Setup(k1, k2, x1, x2) => Push(Push(t, hash(k1), x1), hash(k2), x2)
    case Teardown(k1, k2) => Clear(Clear(t, hash(k1)), hash(k2))
    case NoRoom => t
  }

  function Run<T>(hash: Hash, t: Table<T>, ops: seq<Op<T>>): Table<T> {
    if ops == [] then t else Apply(hash, Run(hash, t, ops[..|ops| - 1]), ops[|ops| - 1])
  }

  lemma {:induction false} RunConcat<T>(hash: Hash, t: Table<T>, a: seq<Op<T>>, b: seq<Op<T>>)
    ensures Run(hash, t, a + b) == Run(hash, Run(hash, t, a), b)
  {
    if b == [] {
      assert a + b == a;
    } else {
      assert (a + b)[..|a + b| - 1] == a + b[..|b| - 1];
      RunConcat(hash, t, a, b[..|b| - 1]);
    }
  }

  // ----- history: what a chain holds -----

  datatype Event<T> = Pushed(b: Bucket, x: T) | Cleared(b: Bucket)

  function Events<T>(hash: Hash, op: Op<T>): seq<Event<T>> {
    match op
    case Setup(k1, k2, x1, x2) => [Pushed(hash(k1), x1), Pushed(hash(k2), x2)]
    case Teardown(k1, k2) => [Cleared(hash(k1)), Cleared(hash(k2))]
    case NoRoom => []
  }

  function Log<T>(hash: Hash, ops: seq<Op<T>>): seq<Event<T>> {
    if ops == [] then [] else Log(hash, ops[..|ops| - 1]) + Events(hash, ops[|ops| - 1])
  }

  /** The entries pushed into `b`, newest first, whatever was cleared in between. */
  function PushesInto<T>(log: seq<Event<T>>, b: Bucket): seq<T> {
    if log == [] then []
    else
      var e := log[|log| - 1];
      (if e.Pushed? && e.b == b then [e.x] else []) + PushesInto(log[..|log| - 1], b)
  }

  /** `cut` is the position just behind the last event that cleared `b`, or 0. */
  ghost predicate LastClear<T(!new)>(log: seq<Event<T>>, b: Bucket, cut: nat) {
    && cut <= |log|
    && (cut > 0 ==> log[cut - 1] == Cleared(b))
    && (forall i :: cut <= i < |log| ==> log[i] != Cleared(b))
  }

  ghost predicate HistoryFrom<T(!new)>(chain: seq<T>, before: seq<T>, log: seq<Event<T>>, b: Bucket, cut: nat) {
    LastClear(log, b, cut) && chain == PushesInto(log[cut..], b) + (if cut == 0 then before else [])
  }

  ghost predicate IsHistory<T(!new)>(chain: seq<T>, before: seq<T>, log: seq<Event<T>>, b: Bucket) {
    exists cut: nat :: HistoryFrom(chain, before, log, b, cut)
  }

  function ChainAfter<T>(chain: seq<T>, e: Event<T>, b: Bucket): seq<T> {
    if e.b != b then chain else if e.Cleared? then [] else [e.x] + chain
  }

  lemma PushesSnoc<T>(log: seq<Event<T>>, e: Event<T>, b: Bucket)
    ensures PushesInto(log + [e], b) == (if e.Pushed? && e.b == b then [e.x] else []) + PushesInto(log, b)
  {
    assert (log + [e])[..|log|] == log;
  }

  lemma ClearedFrom<T(!new)>(before: seq<T>, log: seq<Event<T>>, b: Bucket)
    ensures HistoryFrom([], before, log + [Cleared(b)], b, |log| + 1)
  {
    assert (log + [Event<T>.Cleared(b)])[|log| + 1..] == [];
  }

  lemma KeptFrom<T(!new)>(chain: seq<T>, before: seq<T>, log: seq<Event<T>>, b: Bucket, cut: nat, e: Event<T>)
    requires HistoryFrom(chain, before, log, b, cut) && e != Cleared(b)
    ensures HistoryFrom(ChainAfter(chain, e, b), before, log + [e], b, cut)
  {
    PushesSnoc(log[cut..], e, b);
    assert (log + [e])[cut..] == log[cut..] + [e];
    var front, old' := PushesInto(log[cut..], b), if cut == 0 then before else [];
    if e.Pushed? && e.b == b {
      assert [e.x] + (front + old') == [e.x] + front + old';
    } else {
      assert [] + front == front;
    }
  }

  lemma {:induction false} HistoryStep<T(!new)>(chain: seq<T>, before: seq<T>, log: seq<Event<T>>, b: Bucket,
                                                e: Event<T>)
    requires IsHistory(chain, before, log, b)
    ensures IsHistory(ChainAfter(chain, e, b), before, log + [e], b)
  {
    var cut: nat :| HistoryFrom(chain, before, log, b, cut);
    if e == Cleared(b) {
      ClearedFrom(before, log, b);
    } else {
      KeptFrom(chain, before, log, b, cut, e);
    }
  }

  lemma HistoryOp<T(!new)>(hash: Hash, s: Table<T>, before: seq<T>, log: seq<Event<T>>, op: Op<T>, b: Bucket)
    requires IsHistory(s[b], before, log, b)
    ensures IsHistory(Apply(hash, s, op)[b], before, log + Events(hash, op), b)
  {
    var es := Events(hash, op);
    if op.NoRoom? {
      assert log + es == log;
    } else {
      HistoryStep(s[b], before, log, b, es[0]);
      HistoryStep(ChainAfter(s[b], es[0], b), before, log + [es[0]], b, es[1]);
      assert log + es == log + [es[0]] + [es[1]];
      assert Apply(hash, s, op)[b] == ChainAfter(ChainAfter(s[b], es[0], b), es[1], b);
    }
  }

  /** After any messages, a bucket's chain is exactly the entries pushed into it since the last
      clearing, newest first, in front of what it held before if nothing cleared it. */
  lemma {:induction false} HistoryRefinement<T(!new)>(hash: Hash, t: Table<T>, ops: seq<Op<T>>, b: Bucket)
    ensures IsHistory(Run(hash, t, ops)[b], t[b], Log(hash, ops), b)
  {
    if ops == [] {
      var log: seq<Event<T>> := [];
      assert PushesInto(log[0..], b) + t[b] == t[b];
      assert HistoryFrom(t[b], t[b], log, b, 0);
    } else {
      var front := ops[..|ops| - 1];
      HistoryRefinement(hash, t, front, b);
      HistoryOp(hash, Run(hash, t, front), t[b], Log(hash, front), ops[|ops| - 1], b);
    }
  }

  // ----- the oldest entry of a bucket -----

  predicate Clears<T>(hash: Hash, op: Op<T>, b: Bucket) {
    op.Teardown? && (hash(op.k1) == b || hash(op.k2) == b)
  }

  /** Later set-ups never displace the oldest entry of a bucket; only a `D` on it does. */
  lemma {:induction false} OldestSurvives<T>(hash: Hash, t: Table<T>, ops: seq<Op<T>>, b: Bucket)
    requires t[b] != []
    requires forall i :: 0 <= i < |ops| ==> !Clears(hash, ops[i], b)
    ensures var chain := Run(hash, t, ops)[b];
            chain != [] && chain[|chain| - 1] == t[b][|t[b]| - 1]
  {
    if ops != [] {
      OldestSurvives(hash, t, ops[..|ops| - 1], b);
      assert !Clears(hash, ops[|ops| - 1], b);
    }
  }

  /** Messages on other buckets leave a chain as it is. */
  lemma {:induction false} Untouched<T>(hash: Hash, t: Table<T>, ops: seq<Op<T>>, b: Bucket)
    requires forall i :: 0 <= i < |ops| ==> !Touches(hash, ops[i], b)
    ensures Run(hash, t, ops)[b] == t[b]
  {
    if ops != [] {
      Untouched(hash, t, ops[..|ops| - 1], b);
      Locality(hash, Run(hash, t, ops[..|ops| - 1]), ops[|ops| - 1], b);
    }
  }

  // ----- set-up and tear-down -----

  /** A `D` with the keys of an `S` undoes it: both buckets are left empty and every other bucket
      as it was, so the table is restored exactly when both buckets were empty before. In the
      other order the entries of the `S` stay behind. */
  lemma TeardownUndoesSetup<T>(hash: Hash, t: Table<T>, k1: U32, k2: U32, x1: T, x2: T)
    ensures var up, down := Op.Setup(k1, k2, x1, x2), Op<T>.Teardown(k1, k2);
            && Run(hash, t, [up, down]) == t[hash(k1) := []][hash(k2) := []]
            && (Run(hash, t, [up, down]) == t <==> t[hash(k1)] == [] && t[hash(k2)] == [])
            && x1 in Run(hash, t, [down, up])[hash(k1)] && x2 in Run(hash, t, [down, up])[hash(k2)]
  {
    var up, down := Op.Setup(k1, k2, x1, x2), Op<T>.Teardown(k1, k2);
    var b1, b2 := hash(k1), hash(k2);
    var r := t[b1 := []][b2 := []];
    RunTwo(hash, t, up, down);
    RunTwo(hash, t, down, up);
    assert Apply(hash, Apply(hash, t, up), down) == r;
    if t[b1] == [] && t[b2] == [] {
      assert r == t;
    }
    assert r[b1] == [] && r[b2] == [];
    var s := Apply(hash, r, up);
    assert x2 == s[b2][0];
    if b1 == b2 {
      assert s[b1] == [x2] + ([x1] + r[b1]);
      assert x1 == s[b1][1];
    } else {
      assert x1 == s[b1][0];
    }
  }

  lemma RunTwo<T>(hash: Hash, t: Table<T>, a: Op<T>, b: Op<T>)
    ensures Run(hash, t, [a, b]) == Apply(hash, Apply(hash, t, a), b)
  {
    assert [a, b][..1] == [a] && [a][..0] == [];
    assert Run(hash, t, [a]) == Apply(hash, Run(hash, t, []), a);
  }

  // ----- independence of interleavings -----

  predicate Touches<T>(hash: Hash, op: Op<T>, b: Bucket) {
    !op.NoRoom? && (hash(op.k1) == b || hash(op.k2) == b)
  }

  predicate ShareBucket<T>(hash: Hash, a: Op<T>, b: Op<T>) {
    !a.NoRoom? && (Touches(hash, b, hash(a.k1)) || Touches(hash, b, hash(a.k2)))
  }

  lemma Commute<T>(hash: Hash, t: Table<T>, a: Op<T>, b: Op<T>)
    requires !ShareBucket(hash, a, b)
    ensures Apply(hash, Apply(hash, t, a), b) == Apply(hash, Apply(hash, t, b), a)
  {
    var l, r := Apply(hash, Apply(hash, t, a), b), Apply(hash, Apply(hash, t, b), a);
    forall c: Bucket ensures l[c] == r[c] {
      Locality(hash, t, a, c);
      Locality(hash, t, b, c);
      Locality(hash, Apply(hash, t, a), b, c);
      Locality(hash, Apply(hash, t, b), a, c);
    }
  }

  /** The new chain of a bucket depends on its old chain only. */
  lemma Locality<T>(hash: Hash, t: Table<T>, op: Op<T>, c: Bucket)
    ensures !Touches(hash, op, c) ==> Apply(hash, t, op)[c] == t[c]
    ensures forall s: Table<T> :: s[c] == t[c] ==> Apply(hash, s, op)[c] == Apply(hash, t, op)[c]
  {
  }

  /** The messages numbered `ids`, in that order. */
  function Pick<T>(msgs: seq<Op<T>>, ids: seq<nat>): seq<Op<T>>
    requires forall i :: 0 <= i < |ids| ==> ids[i] < |msgs|
  {
    seq(|ids|, i requires 0 <= i < |ids| => msgs[ids[i]])
  }

  ghost predicate Distinct(ids: seq<nat>) {
    forall i, j :: 0 <= i < j < |ids| ==> ids[i] != ids[j]
  }

  ghost predicate Before(ids: seq<nat>, a: nat, b: nat) {
    exists i, j :: 0 <= i < j < |ids| && ids[i] == a && ids[j] == b
  }

  ghost predicate KeepsOrder<T>(hash: Hash, msgs: seq<Op<T>>, p: seq<nat>, q: seq<nat>)
    requires forall i :: 0 <= i < |p| ==> p[i] < |msgs|
  {
    forall i, j :: 0 <= i < j < |p| && ShareBucket(hash, msgs[p[i]], msgs[p[j]]) ==> Before(q, p[i], p[j])
  }

  /** Two interleavings of the same messages, each delivered once, in which any two messages
      that share a bucket come in the same order. */
  ghost predicate Equivalent<T>(hash: Hash, msgs: seq<Op<T>>, p: seq<nat>, q: seq<nat>) {
    && Distinct(p) && multiset(p) == multiset(q)
    && (forall i :: 0 <= i < |p| ==> p[i] < |msgs|)
    && KeepsOrder(hash, msgs, p, q)
  }

  /** A message independent of all later ones can be moved behind them. */
  lemma {:induction false} MoveToEnd<T>(hash: Hash, t: Table<T>, x: Op<T>, later: seq<Op<T>>)
    requires forall i :: 0 <= i < |later| ==> !ShareBucket(hash, x, later[i])
    ensures Run(hash, Apply(hash, t, x), later) == Apply(hash, Run(hash, t, later), x)
  {
    if later != [] {
      var front, y := later[..|later| - 1], later[|later| - 1];
      MoveToEnd(hash, t, x, front);
      Commute(hash, Run(hash, t, front), x, y);
    }
  }

  lemma SameMembers(p: seq<nat>, q: seq<nat>)
    requires multiset(p) == multiset(q)
    ensures forall x :: x in p <==> x in q
  {
    forall x ensures x in p <==> x in q {
      assert (x in p <==> x in multiset(p)) && (x in q <==> x in multiset(q));
    }
  }

  lemma {:induction false} DistinctIffCounts(p: seq<nat>)
    ensures Distinct(p) <==> forall x :: multiset(p)[x] <= 1
  {
    if p != [] {
      var front, x := p[..|p| - 1], p[|p| - 1];
      DistinctIffCounts(front);
      assert p == front + [x];
      if Distinct(p) {
        assert x !in front;
        forall y ensures multiset(p)[y] <= 1 { assert multiset(front)[y] <= 1; }
      } else if Distinct(front) {
        var i, j :| 0 <= i < j < |p| && p[i] == p[j];
        assert j == |p| - 1 && front[i] == x;
        assert multiset(p)[x] == multiset(front)[x] + 1 && x in multiset(front);
      } else {
        var y :| multiset(front)[y] > 1;
        assert multiset(p)[y] > 1;
      }
    }
  }

  lemma DropOne(p: seq<nat>, k: nat)
    requires k < |p|
    ensures multiset(p[..k] + p[k + 1..]) == multiset(p) - multiset{p[k]}
  {
    assert p == p[..k] + ([p[k]] + p[k + 1..]);
    assert multiset(p) == multiset(p[..k]) + (multiset{p[k]} + multiset(p[k + 1..]));
  }

  lemma DropMember(p: seq<nat>, q: seq<nat>, k: nat)
    requires p != [] && k < |q| && q[k] == p[|p| - 1]
    requires Distinct(p) && multiset(p) == multiset(q)
    ensures multiset(p[..|p| - 1]) == multiset(q[..k] + q[k + 1..])
    ensures Distinct(q)
  {
    DistinctIffCounts(p);
    DistinctIffCounts(q);
    DropOne(p, |p| - 1);
    DropOne(q, k);
    assert p[..|p| - 1] + p[|p|..] == p[..|p| - 1];
  }

  lemma DropKeepsOrder<T>(hash: Hash, msgs: seq<Op<T>>, p: seq<nat>, q: seq<nat>, k: nat)
    requires p != [] && k < |q| && q[k] == p[|p| - 1] && Distinct(p)
    requires forall i :: 0 <= i < |p| ==> p[i] < |msgs|
    requires KeepsOrder(hash, msgs, p, q)
    ensures KeepsOrder(hash, msgs, p[..|p| - 1], q[..k] + q[k + 1..])
  {
    var p', q' := p[..|p| - 1], q[..k] + q[k + 1..];
    forall i, j | 0 <= i < j < |p'| && ShareBucket(hash, msgs[p'[i]], msgs[p'[j]])
      ensures Before(q', p'[i], p'[j])
    {
      assert p'[i] == p[i] && p'[j] == p[j];
      assert Before(q, p[i], p[j]);
      var c, d :| 0 <= c < d < |q| && q[c] == p[i] && q[d] == p[j];
      assert c != k && d != k;
      var c', d' := if c < k then c else c - 1, if d < k then d else d - 1;
      assert c' < d' && q'[c'] == p'[i] && q'[d'] == p'[j];
    }
  }

  /** The last message of `p` is independent of whatever follows it in `q`. */
  lemma LastIsFree<T>(hash: Hash, msgs: seq<Op<T>>, p: seq<nat>, q: seq<nat>, k: nat, m: nat)
    requires p != [] && k < m < |q| && q[k] == p[|p| - 1] && Distinct(p) && Distinct(q)
    requires forall i :: 0 <= i < |p| ==> p[i] < |msgs|
    requires q[m] in p && KeepsOrder(hash, msgs, p, q)
    ensures !ShareBucket(hash, msgs[q[m]], msgs[q[k]])
  {
    var a :| 0 <= a < |p| && p[a] == q[m];
    assert q[m] != q[k] && a < |p| - 1;
    assert !Before(q, p[a], p[|p| - 1]);
  }

  lemma RunMoved<T>(hash: Hash, t: Table<T>, m1: seq<Op<T>>, m: Op<T>, m2: seq<Op<T>>)
    requires forall i :: 0 <= i < |m2| ==> !ShareBucket(hash, m, m2[i])
    ensures Run(hash, t, m1 + [m] + m2) == Apply(hash, Run(hash, t, m1 + m2), m)
  {
    RunConcat(hash, t, m1 + [m], m2);
    assert (m1 + [m])[..|m1|] == m1;
    RunConcat(hash, t, m1, m2);
    MoveToEnd(hash, Run(hash, t, m1), m, m2);
  }

  lemma LaterAreFree<T>(hash: Hash, msgs: seq<Op<T>>, p: seq<nat>, q: seq<nat>, k: nat)
    requires Distinct(p) && Distinct(q) && KeepsOrderIn(hash, msgs, p, q)
    requires p != [] && k < |q| && q[k] == p[|p| - 1] && SameSet(p, q)
    ensures forall i :: 0 <= i < |q| ==> q[i] < |msgs|
    ensures forall m :: k < m < |q| ==> !ShareBucket(hash, msgs[q[k]], msgs[q[m]])
  {
    forall i | 0 <= i < |q| ensures q[i] < |msgs| { assert q[i] in p; }
    forall m | k < m < |q| ensures !ShareBucket(hash, msgs[q[k]], msgs[q[m]]) {
      assert q[m] in p;
      LastIsFree(hash, msgs, p, q, k, m);
    }
  }

  lemma InterleavingStep<T>(hash: Hash, t: Table<T>, msgs: seq<Op<T>>, q: seq<nat>, k: nat)
    requires k < |q| && forall i :: 0 <= i < |q| ==> q[i] < |msgs|
    requires forall m :: k < m < |q| ==> !ShareBucket(hash, msgs[q[k]], msgs[q[m]])
    ensures Run(hash, t, Pick(msgs, q))
         == Apply(hash, Run(hash, t, Pick(msgs, q[..k] + q[k + 1..])), msgs[q[k]])
  {
    var q1, q2 := q[..k], q[k + 1..];
    var m, m1, m2 := msgs[q[k]], Pick(msgs, q1), Pick(msgs, q2);
    forall i | 0 <= i < |m2| ensures !ShareBucket(hash, m, m2[i]) {
      assert m2[i] == msgs[q[k + 1 + i]];
    }
    RunMoved(hash, t, m1, m, m2);
    assert Pick(msgs, q) == m1 + [m] + m2;
    assert Pick(msgs, q1 + q2) == m1 + m2;
  }

  ghost predicate SameSet(p: seq<nat>, q: seq<nat>) {
    forall x :: x in p <==> x in q
  }

  ghost predicate KeepsOrderIn<T>(hash: Hash, msgs: seq<Op<T>>, p: seq<nat>, q: seq<nat>) {
    (forall i :: 0 <= i < |p| ==> p[i] < |msgs|) && KeepsOrder(hash, msgs, p, q)
  }

  /** Where the last message of `p` stands in `q`, and what remains without it. */
  lemma LastInOther<T>(hash: Hash, msgs: seq<Op<T>>, p: seq<nat>, q: seq<nat>) returns (k: nat)
    requires Equivalent(hash, msgs, p, q) && p != []
    ensures k < |q| && q[k] == p[|p| - 1]
    ensures Equivalent(hash, msgs, p[..|p| - 1], q[..k] + q[k + 1..])
    ensures forall i :: 0 <= i < |q| ==> q[i] < |msgs|
    ensures forall m :: k < m < |q| ==> !ShareBucket(hash, msgs[q[k]], msgs[q[m]])
  {
    SameMembers(p, q);
    assert p[|p| - 1] in q;
    k :| 0 <= k < |q| && q[k] == p[|p| - 1];
    DropMember(p, q, k);
    DropKeepsOrder(hash, msgs, p, q, k);
    LaterAreFree(hash, msgs, p, q, k);
  }

  /** Interleavings that agree on the order of messages sharing a bucket end in the same table. */
  lemma {:induction false} InterleavingIndependence<T>(hash: Hash, t: Table<T>, msgs: seq<Op<T>>, p: seq<nat>,
                                                       q: seq<nat>)
    requires Equivalent(hash, msgs, p, q)
    ensures forall i :: 0 <= i < |q| ==> q[i] < |msgs|
    ensures Run(hash, t, Pick(msgs, p)) == Run(hash, t, Pick(msgs, q))
    decreases |p|
  {
    if p == [] {
      assert |multiset(q)| == |q|;
    } else {
      var k := LastInOther(hash, msgs, p, q);
      InterleavingIndependence(hash, t, msgs, p[..|p| - 1], q[..k] + q[k + 1..]);
      InterleavingStep(hash, t, msgs, q, k);
      assert Pick(msgs, p)[..|p| - 1] == Pick(msgs, p[..|p| - 1]);
    }
  }
}
