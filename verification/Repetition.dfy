/** How often an accepted request is performed, and what a peer that has closed brings about. */
module Repetition {
  import opened Words
  import opened Text
  import opened Chains
  import opened NatTable
  import opened Hooks
  import opened Requests
  import opened UserSpace
  import opened LineMeaning
  import opened ForkPipe
  import opened Continuations
  import opened EndToEnd
  import P = Pipeline

  // ----- once, or more than once -----

  lemma {:induction false} NoneNonEmptyIff(ts: seq<string>)
    ensures NonEmpty(ts) == [] <==> forall i :: 0 <= i < |ts| ==> ts[i] == ""
  {
    if ts != [] {
      NoneNonEmptyIff(ts[1..]);
      assert forall i :: 0 < i < |ts| ==> ts[i] == ts[1..][i - 1];
    }
  }

  /** Nothing but empty reads behind number `a` up to number `b`. */
  ghost predicate OnlyEmpty(msgs: seq<string>, a: nat, b: nat) {
    forall i :: a < i <= b && i < |msgs| ==> msgs[i] == ""
  }

  lemma {:induction false} SameCountIff(msgs: seq<string>, a: nat, b: nat)
    requires a <= b < |msgs|
    ensures |NonEmpty(msgs[..a + 1])| <= |NonEmpty(msgs[..b + 1])|
    ensures |NonEmpty(msgs[..a + 1])| == |NonEmpty(msgs[..b + 1])| <==> OnlyEmpty(msgs, a, b)
  {
    var mid := msgs[a + 1..b + 1];
    assert msgs[..b + 1] == msgs[..a + 1] + mid;
    NonEmptyConcat(msgs[..a + 1], mid);
    NoneNonEmptyIff(mid);
    assert forall i :: a < i <= b ==> msgs[i] == mid[i - a - 1];
  }

  ghost predicate HasSource(s: State, k: nat, at: seq<nat>) {
    k < |s.sent| && s.sent[k].block < |s.messages| && 0 < RequestsRead(s, k) <= |at|
  }

  /** The accepted request that line number `k` was sent for. */
  function Source(s: State, k: nat, at: seq<nat>): nat
    requires HasSource(s, k, at)
  {
    at[RequestsRead(s, k) - 1]
  }

  /** Lines `i` and `j`, the first for an earlier block, come from one request exactly when only
      empty reads lie between their blocks, and else the second comes from a later request. */
  ghost predicate TwiceExactly(s: State, i: nat, j: nat, at: seq<nat>) {
    && HasSource(s, i, at) && HasSource(s, j, at) && Source(s, i, at) <= Source(s, j, at)
    && (Source(s, i, at) == Source(s, j, at) <==> OnlyEmpty(s.messages, s.sent[i].block, s.sent[j].block))
  }

  lemma {:induction false} SameSourceIff(s: State, i: nat, j: nat, at: seq<nat>, sent: seq<string>,
                                         accepted: seq<string>)
    requires P.Embeds(at, sent, accepted) && i < |s.sent| && j < |s.sent| && s.sent[i].block <= s.sent[j].block
    requires ComesFrom(s, i, at, accepted) && ComesFrom(s, j, at, accepted)
    ensures TwiceExactly(s, i, j, at)
  {
    SameCountIff(s.messages, s.sent[i].block, s.sent[j].block);
  }

  lemma {:induction false} AllPairs(s: State, at: seq<nat>, sent: seq<string>, accepted: seq<string>)
    requires P.Embeds(at, sent, accepted)
    requires forall k :: 0 <= k < |s.sent| ==> ComesFrom(s, k, at, accepted)
    ensures forall i, j :: 0 <= i < |s.sent| && 0 <= j < |s.sent| && s.sent[i].block < s.sent[j].block ==>
              TwiceExactly(s, i, j, at)
  {
    forall i, j | 0 <= i < |s.sent| && 0 <= j < |s.sent| && s.sent[i].block < s.sent[j].block
      ensures TwiceExactly(s, i, j, at)
    {
      SameSourceIff(s, i, j, at, sent, accepted);
    }
  }

  lemma BlocksDiffer(cfg: Config, steps: seq<Step>)
    requires After(cfg, steps).Some?
    ensures var s := After(cfg, steps).value;
            forall i, j :: 0 <= i < j < |s.sent| ==> s.sent[i].block != s.sent[j].block
  {
    DeliveredInOrder(cfg, steps);
  }

  /** Over all runs, no block is delivered twice, and two delivered lines are the same accepted
      request performed twice if and only if nothing but empty reads lies between their blocks. */
  lemma {:induction false} PerformedTwiceIff(events: seq<P.Event>, cfg: Config, steps: seq<Step>)
    returns (at: seq<nat>)
    requires Fed(events, cfg, steps)
    ensures var p, s := P.Run(P.START, events), After(cfg, steps).value;
            && p.accepted == P.Accepted(events) && P.Embeds(at, p.sent, p.accepted)
            && (forall k :: 0 <= k < |s.sent| ==> ComesFrom(s, k, at, p.accepted))
            && (forall i, j :: 0 <= i < j < |s.sent| ==> s.sent[i].block != s.sent[j].block)
            && (forall i, j :: 0 <= i < |s.sent| && 0 <= j < |s.sent| && s.sent[i].block < s.sent[j].block ==>
                  TwiceExactly(s, i, j, at))
  {
    at := AcceptedReachesKernel(events, cfg, steps);
    BlocksDiffer(cfg, steps);
    AllPairs(After(cfg, steps).value, at, P.Run(P.START, events).sent, P.Run(P.START, events).accepted);
  }

  ghost predicate DifferentSources(s: State, i: nat, j: nat, at: seq<nat>) {
    HasSource(s, i, at) && HasSource(s, j, at) && Source(s, i, at) != Source(s, j, at)
  }

  lemma {:induction false} Different(s: State, i: nat, j: nat, at: seq<nat>)
    requires "" !in s.messages && i < |s.sent| && j < |s.sent| && s.sent[i].block < s.sent[j].block
    requires TwiceExactly(s, i, j, at)
    ensures DifferentSources(s, i, j, at) && DifferentSources(s, j, i, at)
  {
    assert s.messages[s.sent[j].block] in s.messages;
  }

  /** So without empty reads every accepted request is performed at most once. */
  lemma {:induction false} PerformedOnce(events: seq<P.Event>, cfg: Config, steps: seq<Step>) returns (at: seq<nat>)
    requires Fed(events, cfg, steps) && "" !in After(cfg, steps).value.messages
    ensures var p, s := P.Run(P.START, events), After(cfg, steps).value;
            && p.accepted == P.Accepted(events) && P.Embeds(at, p.sent, p.accepted)
            && (forall k :: 0 <= k < |s.sent| ==> ComesFrom(s, k, at, p.accepted))
            && (forall i, j :: 0 <= i < j < |s.sent| ==> DifferentSources(s, i, j, at))
  {
    at := PerformedTwiceIff(events, cfg, steps);
    var s := After(cfg, steps).value;
    forall i, j | 0 <= i < j < |s.sent| ensures DifferentSources(s, i, j, at) {
      if s.sent[i].block < s.sent[j].block {
        Different(s, i, j, at);
      } else {
        Different(s, j, i, at);
      }
    }
  }

  // ----- after the peer has closed -----

  /** What a delivered request does to the table when there is memory. */
  function OpOf(f: seq<string>, o1: Observation, o2: Observation): Op<Entry>
    requires |f| >= 2 && Usable(f)
  {
    if f[1] == "S" then SetupOf(CallEntry(f, o1, o2))
    else Op<Entry>.Teardown(EntryOf(f).Key1(), EntryOf(f).Key2())
  }

  function Copies<T>(x: T, n: nat): seq<T> {
    seq(n, _ => x)
  }

  lemma QuietPrefix(msgs: seq<string>, all: seq<string>, c: nat)
    requires msgs <= all && |msgs| <= c <= |all| && forall i :: |msgs| <= i < |all| ==> all[i] == ""
    ensures Current(all[..c]) == Current(msgs)
  {
    QuietCurrent(msgs, all[..c]);
  }

  lemma QuietSaid(s: State, s': State, b: nat, said: string)
    requires Quiet(s, s') && s.messages <= s'.messages && |s.messages| <= b < |s'.messages|
    requires Current(s.messages) == said
    ensures Current(s'.messages[..b + 1]) == said
  {
    QuietPrefix(s.messages, s'.messages, b + 1);
  }

  lemma QuietCarries(s: State, s': State, b: nat, f: seq<string>)
    requires Quiet(s, s') && s.messages <= s'.messages && |s.messages| <= b < |s'.messages|
    requires WellFormed(f) && Current(s.messages) == Line(f)
    ensures Carries(s', b, f)
  {
    QuietSaid(s, s', b, Line(f));
  }

  lemma IdleHasWritten(cfg: Config, steps: seq<Step>)
    requires After(cfg, steps).Some? && After(cfg, steps).value.parent.Idle?
    ensures |After(cfg, steps).value.messages| == |After(cfg, steps).value.written|
  {
    ReadsWritten(cfg, steps);
  }

  /** Through empty reads only, every block written since is the last request once more. */
  lemma {:induction false} RepeatedLine(cfg: Config, steps: seq<Step>, run: seq<Step>, f: seq<string>, k: nat)
    requires NextRead(cfg, steps, "") && Continues(cfg, steps, run)
    requires var s, s' := After(cfg, steps).value, After(cfg, run).value;
             Quiet(s, s') && s.messages <= s'.messages && k < |s'.sent| && s'.sent[k].block >= |s.written|
    requires WellFormed(f) && Current(After(cfg, steps).value.messages) == Line(f)
    ensures var d := After(cfg, run).value.sent[k];
            d.done.req == RequestOf(f, d.o1, d.o2)
  {
    IdleHasWritten(cfg, steps);
    SentIsRead(cfg, run, k);
    QuietCarries(After(cfg, steps).value, After(cfg, run).value, After(cfg, run).value.sent[k].block, f);
    CarriedRequest(cfg, run, k, f);
  }

  lemma RepeatedOp(f: seq<string>, d: Sent, o1: Observation, o2: Observation)
    requires WellFormed(f) && SentWith(d, o1, o2) && d.done.req == RequestOf(f, d.o1, d.o2)
    ensures EntryOp(d.done.req, d.done.alloc) == OpOf(f, o1, o2)
  {
    if f[1] == "S" {
      SetupRequest(f, o1, o2, d.done.alloc);
    }
  }

  lemma OpsAfter(sent: seq<Sent>, sent': seq<Sent>, n: nat, op: Op<Entry>)
    requires |sent'| == |sent| + n && sent <= sent'
    requires forall k :: |sent| <= k < |sent'| ==> EntryOp(sent'[k].done.req, sent'[k].done.alloc) == op
    ensures EntryOps(Deliveries(sent')) == EntryOps(Deliveries(sent)) + Copies(op, n)
  {
  }

  /** When its peer has closed, the parent reads 0 bytes, writes the old buffer and forks, again
      and again: for any `n` there is a run with empty reads only in which the kernel performs the
      last request `n` more times, with memory for its entries. */
  lemma {:induction false} LastRequestRepeats(cfg: Config, steps: seq<Step>, f: seq<string>, o1: Observation,
                                              o2: Observation, n: nat) returns (run: seq<Step>)
    requires NextRead(cfg, steps, "") && WellFormed(f) && Current(After(cfg, steps).value.messages) == Line(f)
    requires var s := After(cfg, steps).value; s.failed < cfg.capacity && Delivers(CStr(s.buffer), o1, o2)
    ensures DeliversTimes(cfg, steps, run, n)
    ensures var s, s' := After(cfg, steps).value, After(cfg, run).value;
            Entries(s'.kernel.chains) == Run(cfg.hash, Entries(s.kernel.chains), Copies(OpOf(f, o1, o2), n))
  {
    var settled := Settle(cfg, steps);
    run := RepeatsAnyNumber(cfg, settled, o1, o2, Regs(None, 0, 0, 0, 0, 0, 0, 0, 0, 0, 0, 0), n);
    var s, s' := After(cfg, steps).value, After(cfg, run).value;
    forall k | |s.sent| <= k < |s'.sent|
      ensures EntryOp(s'.sent[k].done.req, s'.sent[k].done.alloc) == OpOf(f, o1, o2)
    {
      RepeatedLine(cfg, steps, run, f, k);
      RepeatedOp(f, s'.sent[k], o1, o2);
    }
    OpsAfter(s.sent, s'.sent, n, OpOf(f, o1, o2));
    TableIsRun(cfg, steps);
    TableIsRun(cfg, run);
    RunConcat(cfg.hash, Empty(), EntryOps(Deliveries(s.sent)), Copies(OpOf(f, o1, o2), n));
  }

  /** So an `S` repeated `n` times leaves `n` entries more in each of its two buckets. */
  lemma {:induction false} RepeatedSetupGrows(hash: Hash, t: Table<Entry>, e: Entry, n: nat)
    ensures var b1, b2, t' := hash(e.Key1()), hash(e.Key2()), Run(hash, t, Copies(SetupOf(e), n));
            && |t'[b1]| == |t[b1]| + (if b1 == b2 then 2 * n else n)
            && |t'[b2]| == |t[b2]| + (if b1 == b2 then 2 * n else n)
  {
    if n > 0 {
      RepeatedSetupGrows(hash, t, e, n - 1);
      assert Copies(SetupOf(e), n) == Copies(SetupOf(e), n - 1) + [SetupOf(e)];
      RunSnoc(hash, t, Copies(SetupOf(e), n - 1), SetupOf(e));
    }
  }
}
