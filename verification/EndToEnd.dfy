/** The three parts together: from a request on the UDP socket to the packets of its call. */
module EndToEnd {
  import opened Words
  import opened Text
  import opened Chains
  import opened NatTable
  import opened Hooks
  import opened Requests
  import opened UserSpace
  import opened LineMeaning
  import opened ForkPipe
  import opened Continuations
  import P = Pipeline

  /** Two reachable states: the parent has read a beginning of what the second stage sent, one
      message per `read`, and any number of empty reads. */
  ghost predicate Fed(events: seq<P.Event>, cfg: Config, steps: seq<Step>) {
    && P.CanRun(P.START, events) && After(cfg, steps).Some?
    && NonEmpty(After(cfg, steps).value.messages) <= P.Run(P.START, events).sent
  }

  /** Every line in the kernel comes from an accepted request, blocks follow the order of acceptance,
      and a well-formed request does in the kernel exactly what it says. */
  lemma {:induction false} AcceptedReachesKernel(events: seq<P.Event>, cfg: Config, steps: seq<Step>)
    returns (at: seq<nat>)
    requires Fed(events, cfg, steps)
    ensures var p, s := P.Run(P.START, events), After(cfg, steps).value;
            && p.accepted == P.Accepted(events) && P.Embeds(at, p.sent, p.accepted)
            && forall k :: 0 <= k < |s.sent| ==> ComesFrom(s, k, at, p.accepted)
  {
    at := P.TwoStageOrder(events);
    var p, s := P.Run(P.START, events), After(cfg, steps).value;
    forall k | 0 <= k < |s.sent| ensures ComesFrom(s, k, at, p.accepted) {
      IsSaid(cfg, steps, k);
      SaidComesFrom(s, k, at, p.sent, p.accepted);
    }
  }

  /** How many requests had been read when the block of line number `k` was written. */
  function RequestsRead(s: State, k: nat): nat
    requires k < |s.sent| && s.sent[k].block < |s.messages|
  {
    |NonEmpty(s.messages[..s.sent[k].block + 1])|
  }

  /** If the request is well-formed, the delivered line adds its call or releases its keys. */
  ghost predicate DoesAsSaid(d: Sent, request: string) {
    forall f :: WellFormed(f) && request == Line(f) ==> d.done.req == RequestOf(f, d.o1, d.o2)
  }

  /** The line does what the last request read up to its block says. */
  ghost predicate Said(s: State, k: nat)
    requires k < |s.sent|
  {
    && s.sent[k].block < |s.messages| && NonEmpty(s.messages[..s.sent[k].block + 1]) != []
    && DoesAsSaid(s.sent[k], Current(s.messages[..s.sent[k].block + 1]))
  }

  /** Line number `k` does what the last request read up to its block says, and that is an accepted
      request: number `n - 1` of those sent. */
  ghost predicate ComesFrom(s: State, k: nat, at: seq<nat>, accepted: seq<string>)
    requires k < |s.sent|
  {
    && Said(s, k)
    && var n := RequestsRead(s, k);
       && 0 < n <= |at| && at[n - 1] < |accepted|
       && accepted[at[n - 1]] == Current(s.messages[..s.sent[k].block + 1])
  }

  lemma NonEmptyPrefix(front: seq<string>, back: seq<string>)
    ensures NonEmpty(front) <= NonEmpty(front + back)
  {
    NonEmptyConcat(front, back);
  }

  lemma LastOfPrefix(front: seq<string>, back: seq<string>, at: seq<nat>, sent: seq<string>, accepted: seq<string>)
    requires NonEmpty(front + back) <= sent && P.Embeds(at, sent, accepted) && NonEmpty(front) != []
    ensures var n := |NonEmpty(front)|;
            n <= |at| && at[n - 1] < |accepted| && accepted[at[n - 1]] == Current(front)
  {
    NonEmptyPrefix(front, back);
    var n := |NonEmpty(front)|;
    assert NonEmpty(front)[n - 1] == sent[n - 1];
  }

  lemma SaidComesFrom(s: State, k: nat, at: seq<nat>, sent: seq<string>, accepted: seq<string>)
    requires NonEmpty(s.messages) <= sent && P.Embeds(at, sent, accepted) && k < |s.sent| && Said(s, k)
    ensures ComesFrom(s, k, at, accepted)
  {
    var c := s.sent[k].block + 1;
    assert s.messages == s.messages[..c] + s.messages[c..];
    LastOfPrefix(s.messages[..c], s.messages[c..], at, sent, accepted);
  }

  lemma {:induction false} DeliveredDoesAsSaid(cfg: Config, steps: seq<Step>, k: nat)
    requires After(cfg, steps).Some? && k < |After(cfg, steps).value.sent|
    ensures var s := After(cfg, steps).value;
            && s.sent[k].block < |s.messages|
            && DoesAsSaid(s.sent[k], Current(s.messages[..s.sent[k].block + 1]))
  {
    SentIsRead(cfg, steps, k);
    var s := After(cfg, steps).value;
    var said, d := Current(s.messages[..s.sent[k].block + 1]), s.sent[k];
    forall f | WellFormed(f) && said == Line(f) ensures d.done.req == RequestOf(f, d.o1, d.o2) {
      RequestReachesKernel(cfg, steps, k, f);
    }
  }

  lemma SentIsRead(cfg: Config, run: seq<Step>, k: nat)
    requires After(cfg, run).Some? && k < |After(cfg, run).value.sent|
    ensures After(cfg, run).value.sent[k].block < |After(cfg, run).value.messages|
  {
    BlockIsBuffer(cfg, run, k);
  }

  lemma {:induction false} IsSaid(cfg: Config, steps: seq<Step>, k: nat)
    requires After(cfg, steps).Some? && k < |After(cfg, steps).value.sent|
    ensures Said(After(cfg, steps).value, k)
  {
    BlockIsRead(cfg, steps, k);
    DeliveredDoesAsSaid(cfg, steps, k);
  }

  /** A buffer that never held anything gives the child no token to look at. */
  lemma {:induction false} BlockIsRead(cfg: Config, steps: seq<Step>, k: nat)
    requires After(cfg, steps).Some? && k < |After(cfg, steps).value.sent|
    ensures var s := After(cfg, steps).value;
            s.sent[k].block < |s.messages| && NonEmpty(s.messages[..s.sent[k].block + 1]) != []
  {
    var s := After(cfg, steps).value;
    var b := s.sent[k].block;
    BlockIsBuffer(cfg, steps, k);
    NothingRead(s.messages[..b + 1]);
    assert CStr(s.taken[b]) != "";
    assert Zeroed()[0] == NUL && CStr(Zeroed()) == "";
  }

  lemma {:induction false} QuietCurrent(msgs: seq<string>, all: seq<string>)
    requires msgs <= all && forall i :: |msgs| <= i < |all| ==> all[i] == ""
    ensures Current(all) == Current(msgs)
  {
    if |all| == |msgs| {
      assert all == msgs;
    } else {
      var front := all[..|all| - 1];
      assert all == front + [""] && msgs <= front;
      QuietCurrent(msgs, front);
      CurrentSnoc(front, "");
    }
  }

  lemma KeyOfBytes(h: Header, address: string, port: string)
    requires IsAddress(address) && IsPort(port) && AddressBytes(h.saddr, address) && PortBytes(h.dest, Value(port))
    ensures LookupKey(h) == Key(AddressWord(address), PortWord(port))
  {
    BytesDecide(address, h.saddr);
    PortInMemory(port);
    assert h.dest == h.dest / 0x100 * 0x100 + h.dest % 0x100;
    assert PortWord(port) == PortWord(port) / 0x100 * 0x100 + PortWord(port) % 0x100;
  }

  /** The keys parsed from a line are those the call's packets are looked up with. */
  lemma {:induction false} ParsedKeysMatchPackets(f: seq<string>, unset: Regs)
    requires Usable(f)
    ensures Parse(f, unset).key1 == LookupKey(FromFar(EntryOf(f)))
    ensures Parse(f, unset).key2 == LookupKey(FromNear(EntryOf(f)))
    ensures forall h: Header :: AddressBytes(h.saddr, f[5]) && PortBytes(h.dest, Value(f[7])) ==>
              LookupKey(h) == Parse(f, unset).key1
    ensures forall h: Header :: AddressBytes(h.saddr, f[2]) && PortBytes(h.dest, Value(f[8])) ==>
              LookupKey(h) == Parse(f, unset).key2
  {
    ParseUsable(f, unset);
    KeysOfBytes(f);
  }

  lemma KeysOfBytes(f: seq<string>)
    requires Usable(f)
    ensures forall h: Header :: AddressBytes(h.saddr, f[5]) && PortBytes(h.dest, Value(f[7])) ==>
              LookupKey(h) == EntryOf(f).Key1()
    ensures forall h: Header :: AddressBytes(h.saddr, f[2]) && PortBytes(h.dest, Value(f[8])) ==>
              LookupKey(h) == EntryOf(f).Key2()
  {
    forall h: Header | AddressBytes(h.saddr, f[5]) && PortBytes(h.dest, Value(f[7]))
      ensures LookupKey(h) == EntryOf(f).Key1()
    {
      KeyOfBytes(h, f[5], f[7]);
    }
    forall h: Header | AddressBytes(h.saddr, f[2]) && PortBytes(h.dest, Value(f[8]))
      ensures LookupKey(h) == EntryOf(f).Key2()
    {
      KeyOfBytes(h, f[2], f[8]);
    }
  }

  lemma CallKeys(f: seq<string>, o1: Observation, o2: Observation)
    requires Usable(f)
    ensures CallEntry(f, o1, o2).Key1() == EntryOf(f).Key1()
    ensures CallEntry(f, o1, o2).Key2() == EntryOf(f).Key2()
  {
  }

  /** Block `c` is written for the request `f`. */
  ghost predicate Carries(s: State, c: nat, f: seq<string>) {
    WellFormed(f) && c < |s.messages| && Current(s.messages[..c + 1]) == Line(f)
  }

  /** Line number `k` is the child's answer to this `S`, and both allocations succeeded. */
  ghost predicate DeliversCall(s: State, k: nat, f: seq<string>) {
    k < |s.sent| && Carries(s, s.sent[k].block, f) && f[1] == "S" && s.sent[k].done.alloc.Both()
  }

  /** This request clears a bucket of that one. */
  predicate Hits(hash: Hash, down: Request, up: Request) {
    && down.Release?
    && (|| hash(down.k1) == hash(up.k1) || hash(down.k1) == hash(up.k2)
        || hash(down.k2) == hash(up.k1) || hash(down.k2) == hash(up.k2))
  }

  /** No `D` delivered after line number `k` clears one of its two buckets. */
  ghost predicate NotClearedSince(hash: Hash, sent: seq<Sent>, k: nat) {
    && k < |sent|
    && (forall i :: k < i < |sent| ==> !Hits(hash, sent[i].done.req, sent[k].done.req))
  }

  /** The table as line number `k` found it. */
  function TableBefore(hash: Hash, sent: seq<Sent>, k: nat): Table<Entry>
    requires k <= |sent|
  {
    Run(hash, Empty(), EntryOps(Deliveries(sent[..k])))
  }

  /** Line number `k` found its two buckets distinct and empty. */
  ghost predicate FoundEmpty(hash: Hash, sent: seq<Sent>, k: nat)
    requires k < |sent|
  {
    var b1, b2 := hash(sent[k].done.req.k1), hash(sent[k].done.req.k2);
    b1 != b2 && TableBefore(hash, sent, k)[b1] == [] && TableBefore(hash, sent, k)[b2] == []
  }

  lemma OpsSplit(sent: seq<Sent>, k: nat)
    requires k < |sent|
    ensures var ops := EntryOps(Deliveries(sent));
            && k < |ops| == |sent| && ops[..k] == EntryOps(Deliveries(sent[..k]))
            && forall i :: 0 <= i < |ops| ==> ops[i] == EntryOp(sent[i].done.req, sent[i].done.alloc)
  {
  }

  lemma NoneClearsSince(hash: Hash, sent: seq<Sent>, k: nat, e: Entry)
    requires NotClearedSince(hash, sent, k) && |EntryOps(Deliveries(sent))| == |sent|
    requires sent[k].done.req.k1 == e.Key1() && sent[k].done.req.k2 == e.Key2()
    ensures NoneClears(hash, EntryOps(Deliveries(sent))[k + 1..], e)
  {
    var later := EntryOps(Deliveries(sent))[k + 1..];
    OpsSplit(sent, k);
    forall i | 0 <= i < |later|
      ensures !Clears(hash, later[i], hash(e.Key1())) && !Clears(hash, later[i], hash(e.Key2()))
    {
      assert !Hits(hash, sent[k + 1 + i].done.req, sent[k].done.req);
    }
  }

  lemma TableIsRun(cfg: Config, steps: seq<Step>)
    requires After(cfg, steps).Some?
    ensures var s := After(cfg, steps).value;
            Entries(s.kernel.chains) == Run(cfg.hash, Empty(), EntryOps(Deliveries(s.sent)))
  {
    DeliveredInOrder(cfg, steps);
  }

  /** What a delivered `S` with memory is in the table's history. */
  lemma {:induction false} DeliveredSetup(cfg: Config, steps: seq<Step>, k: nat, f: seq<string>)
    requires After(cfg, steps).Some?
    requires DeliversCall(After(cfg, steps).value, k, f)
    ensures var d := After(cfg, steps).value.sent[k]; var e := CallEntry(f, d.o1, d.o2);
            && EntryOp(d.done.req, d.done.alloc) == SetupOf(e)
            && d.done.req.k1 == e.Key1() && d.done.req.k2 == e.Key2()
  {
    var s := After(cfg, steps).value;
    var d := s.sent[k];
    CarriedOp(cfg, steps, k, d.block, f, Outcome(d.o1, d.o2, d.unset, d.done.alloc));
    SetupRequest(f, d.o1, d.o2, d.done.alloc);
  }

  lemma SetupRequest(f: seq<string>, o1: Observation, o2: Observation, a: Alloc)
    requires WellFormed(f) && f[1] == "S" && a.Both()
    ensures var e := CallEntry(f, o1, o2);
            && EntryOp(RequestOf(f, o1, o2), a) == SetupOf(e)
            && e.Key1() == EntryOf(f).Key1() && e.Key2() == EntryOf(f).Key2()
  {
    CallKeys(f, o1, o2);
  }

  /** Over every run: until a `D` on one of its two buckets is delivered, a call whose `S` was
      delivered with memory is relayed in both directions between the learned ports if and only
      if, at that delivery, the entry deciding for each of its buckets sent where its own would. */
  lemma {:induction false} CallIsRelayedIff(cfg: Config, steps: seq<Step>, k: nat, f: seq<string>)
    requires After(cfg, steps).Some?
    requires DeliversCall(After(cfg, steps).value, k, f)
    requires NotClearedSince(cfg.hash, After(cfg, steps).value.sent, k)
    ensures var s := After(cfg, steps).value;
            var e, t := CallEntry(f, s.sent[k].o1, s.sent[k].o2), TableBefore(cfg.hash, s.sent, k);
            Relays(cfg.hash, Entries(s.kernel.chains), e)
            <==> && SameTarget(Deciding(cfg.hash, t, e, cfg.hash(e.Key1())), e)
                 && SameTarget(Deciding(cfg.hash, t, e, cfg.hash(e.Key2())), e.Mirror())
  {
    var s := After(cfg, steps).value;
    DeliveredSetup(cfg, steps, k, f);
    TableIsRun(cfg, steps);
    RelayedSinceIff(cfg.hash, s.sent, k, CallEntry(f, s.sent[k].o1, s.sent[k].o2));
  }

  lemma {:induction false} RelayedSinceIff(hash: Hash, sent: seq<Sent>, k: nat, e: Entry)
    requires NotClearedSince(hash, sent, k) && EntryOp(sent[k].done.req, sent[k].done.alloc) == SetupOf(e)
    requires sent[k].done.req.k1 == e.Key1() && sent[k].done.req.k2 == e.Key2()
    ensures var t := TableBefore(hash, sent, k);
            Relays(hash, Run(hash, Empty(), EntryOps(Deliveries(sent))), e)
            <==> && SameTarget(Deciding(hash, t, e, hash(e.Key1())), e)
                 && SameTarget(Deciding(hash, t, e, hash(e.Key2())), e.Mirror())
  {
    var ops := EntryOps(Deliveries(sent));
    OpsSplit(sent, k);
    NoneClearsSince(hash, sent, k, e);
    RunFrom(hash, ops, k);
    SetupRelaysIff(hash, TableBefore(hash, sent, k), e, ops[k + 1..]);
  }

  /** In particular one that found its two buckets distinct and empty is relayed. */
  lemma {:induction false} CallIsRelayed(cfg: Config, steps: seq<Step>, k: nat, f: seq<string>)
    requires After(cfg, steps).Some?
    requires DeliversCall(After(cfg, steps).value, k, f)
    requires NotClearedSince(cfg.hash, After(cfg, steps).value.sent, k)
    ensures var s := After(cfg, steps).value;
            FoundEmpty(cfg.hash, s.sent, k) ==>
              Relays(cfg.hash, Entries(s.kernel.chains), CallEntry(f, s.sent[k].o1, s.sent[k].o2))
  {
    CallIsRelayedIff(cfg, steps, k, f);
    DeliveredSetup(cfg, steps, k, f);
  }

  lemma RunSnoc(hash: Hash, t: Table<Entry>, ops: seq<Op<Entry>>, op: Op<Entry>)
    ensures Run(hash, t, ops + [op]) == Apply(hash, Run(hash, t, ops), op)
  {
    assert (ops + [op])[..|ops|] == ops;
  }

  lemma {:induction false} RunFrom(hash: Hash, ops: seq<Op<Entry>>, k: nat)
    requires k < |ops|
    ensures Run(hash, Empty(), ops)
         == Run(hash, Apply(hash, Run(hash, Empty(), ops[..k]), ops[k]), ops[k + 1..])
  {
    RunConcat(hash, Empty(), ops[..k] + [ops[k]], ops[k + 1..]);
    assert ops == ops[..k] + [ops[k]] + ops[k + 1..];
    RunSnoc(hash, Empty(), ops[..k], ops[k]);
  }

  /** The `D` of a call, which need share only the four fields that enter the keys. */
  ghost predicate SameKeys(f: seq<string>, g: seq<string>) {
    && WellFormed(f) && WellFormed(g) && f[1] == "S" && g[1] == "D"
    && f[2] == g[2] && f[5] == g[5] && f[7] == g[7] && f[8] == g[8]
  }

  /** Tear-down matches set-up across the rewrite: whatever ports were learned, whatever stale text
      follows either line, the `S` and then the `D` of a call leave both buckets empty and every
      other bucket as it was; the table is restored exactly when both were empty before. */
  lemma {:induction false} TeardownMatchesSetup(hash: Hash, t: Table<Entry>, f: seq<string>, g: seq<string>,
                                                tail1: string, tail2: string, o1: Observation, o2: Observation,
                                                unset: Regs, a: Alloc)
    requires SameKeys(f, g) && a.Both()
    requires Tokenisable(Line(f) + tail1) && Tokenisable(Line(g) + tail2)
    requires !o1.BindFailed? && !o2.BindFailed?
    ensures var line1, line2 := ChildLine(Line(f) + tail1, o1, o2), ChildLine(Line(g) + tail2, o1, o2);
            && line1.Some? && |Split(line1.value, ' ')| >= 2 && line2.Some? && |Split(line2.value, ' ')| >= 2
            && var up, down := EntryOp(Meaning(line1.value, unset), a), EntryOp(Meaning(line2.value, unset), a);
               var b1, b2 := hash(EntryOf(f).Key1()), hash(EntryOf(f).Key2());
               && Run(hash, t, [up, down]) == t[b1 := []][b2 := []]
               && (Run(hash, t, [up, down]) == t <==> t[b1] == [] && t[b2] == [])
  {
    var e := CallEntry(f, o1, o2);
    SetupOp(f, tail1, o1, o2, unset, a);
    TeardownOp(g, tail2, o1, o2, unset, a);
    SameKeysMeans(f, g);
    CallKeys(f, o1, o2);
    TeardownUndoesSetup(hash, t, e.Key1(), e.Key2(), e, e.Mirror());
  }

  lemma SameKeysMeans(f: seq<string>, g: seq<string>)
    requires SameKeys(f, g)
    ensures EntryOf(f).Key1() == EntryOf(g).Key1() && EntryOf(f).Key2() == EntryOf(g).Key2()
  {
  }

  lemma SetupOp(f: seq<string>, tail: string, o1: Observation, o2: Observation, unset: Regs, a: Alloc)
    requires WellFormed(f) && f[1] == "S" && Tokenisable(Line(f) + tail)
    requires !o1.BindFailed? && !o2.BindFailed? && a.Both()
    ensures var line := ChildLine(Line(f) + tail, o1, o2);
            && line.Some? && |Split(line.value, ' ')| >= 2
            && EntryOp(Meaning(line.value, unset), a) == SetupOf(CallEntry(f, o1, o2))
  {
    SetupMeaning(f, tail, o1, o2, unset);
    CallKeys(f, o1, o2);
  }

  lemma TeardownOp(g: seq<string>, tail: string, o1: Observation, o2: Observation, unset: Regs, a: Alloc)
    requires WellFormed(g) && g[1] == "D" && Tokenisable(Line(g) + tail)
    ensures var line := ChildLine(Line(g) + tail, o1, o2);
            && line.Some? && |Split(line.value, ' ')| >= 2
            && EntryOp(Meaning(line.value, unset), a) == Op<Entry>.Teardown(EntryOf(g).Key1(), EntryOf(g).Key2())
  {
    TeardownMeaning(g, tail, o1, o2, unset);
  }

  // ----- the order of delivery is the children's, not the requests' -----

  /** The buffer after one more request. */
  lemma BufferOfNext(s: State, g: seq<string>)
    requires WellFormed(g)
    ensures Current(s.messages + [Line(g)]) == Line(g)
    ensures StartsWith(CStr(Overwrite(s.buffer, Line(g))), Line(g))
  {
    CurrentSnoc(s.messages, Line(g));
    LineIsNulFree(g);
    TextInFront(Overwrite(s.buffer, Line(g)), Line(g));
  }

  /** Two lines delivered one after the other, seen from the table. */
  lemma {:induction false} TableAfterTwo(cfg: Config, steps: seq<Step>, run: seq<Step>)
    requires After(cfg, steps).Some? && After(cfg, run).Some?
    requires var s, s' := After(cfg, steps).value, After(cfg, run).value;
             |s'.sent| == |s.sent| + 2 && s'.sent[..|s.sent|] == s.sent
    ensures var s, s' := After(cfg, steps).value, After(cfg, run).value; var n := |s.sent|;
            var op1 := EntryOp(s'.sent[n].done.req, s'.sent[n].done.alloc);
            var op2 := EntryOp(s'.sent[n + 1].done.req, s'.sent[n + 1].done.alloc);
            Entries(s'.kernel.chains) == Run(cfg.hash, Entries(s.kernel.chains), [op1, op2])
  {
    var s, s' := After(cfg, steps).value, After(cfg, run).value;
    DeliveredInOrder(cfg, steps);
    DeliveredInOrder(cfg, run);
    OpsAfterTwo(cfg.hash, s.sent, s'.sent);
  }

  lemma OpsAfterTwo(hash: Hash, sent: seq<Sent>, sent': seq<Sent>)
    requires |sent'| == |sent| + 2 && sent'[..|sent|] == sent
    ensures var n := |sent|;
            Run(hash, Empty(), EntryOps(Deliveries(sent')))
            == Run(hash, Run(hash, Empty(), EntryOps(Deliveries(sent))),
                   [EntryOp(sent'[n].done.req, sent'[n].done.alloc),
                    EntryOp(sent'[n + 1].done.req, sent'[n + 1].done.alloc)])
  {
    var n := |sent|;
    var ops, all := EntryOps(Deliveries(sent)), EntryOps(Deliveries(sent'));
    forall i | 0 <= i < n ensures all[i] == ops[i] { assert sent'[i] == sent'[..n][i]; }
    assert all == ops + [all[n], all[n + 1]];
    RunConcat(hash, Empty(), ops, [all[n], all[n + 1]]);
  }

  lemma SameOp(f: seq<string>, d: Sent, x: Outcome)
    requires |f| >= 2 && Usable(f) && SentAs(d, d.block, x) && d.done.req == RequestOf(f, d.o1, d.o2)
    ensures EntryOp(d.done.req, d.done.alloc) == EntryOp(RequestOf(f, x.o1, x.o2), x.alloc)
  {
  }

  lemma CarriedRequest(cfg: Config, run: seq<Step>, k: nat, f: seq<string>)
    requires After(cfg, run).Some?
    requires var s := After(cfg, run).value; k < |s.sent| && Carries(s, s.sent[k].block, f)
    ensures var d := After(cfg, run).value.sent[k];
            d.done.req == RequestOf(f, d.o1, d.o2)
  {
    RequestReachesKernel(cfg, run, k, f);
  }

  lemma {:induction false} CarriedOp(cfg: Config, run: seq<Step>, k: nat, c: nat, f: seq<string>, x: Outcome)
    requires After(cfg, run).Some?
    requires var s := After(cfg, run).value; k < |s.sent| && SentAs(s.sent[k], c, x) && Carries(s, c, f)
    ensures var d := After(cfg, run).value.sent[k];
            EntryOp(d.done.req, d.done.alloc) == EntryOp(RequestOf(f, x.o1, x.o2), x.alloc)
  {
    CarriedRequest(cfg, run, k, f);
    SameOp(f, After(cfg, run).value.sent[k], x);
  }

  /** Two held requests are sent one after the other: what becomes of the table. */
  lemma {:induction false} DeliverTwo(cfg: Config, held: seq<Step>, c: nat, f: seq<string>, x: Outcome,
                                      d: nat, g: seq<string>, y: Outcome)
    returns (run: seq<Step>)
    requires After(cfg, held).Some? && c != d && (x.alloc == NO_BLOCKS || y.alloc == NO_BLOCKS)
    requires var s := After(cfg, held).value;
             Carries(s, c, f) && Carries(s, d, g) && Ready(s, c, x) && Ready(s, d, y)
    ensures Continues(cfg, held, run) && After(cfg, run).value.messages == After(cfg, held).value.messages
    ensures SentBefore(After(cfg, run).value, c, d)
    ensures Entries(After(cfg, run).value.kernel.chains)
         == Run(cfg.hash, Entries(After(cfg, held).value.kernel.chains),
                [EntryOp(RequestOf(f, x.o1, x.o2), x.alloc), EntryOp(RequestOf(g, y.o1, y.o2), y.alloc)])
  {
    var n := |After(cfg, held).value.sent|;
    run := SendTwo(cfg, held, c, x, d, y);
    BothSent(After(cfg, run).value, n, c, d);
    TableAfterTwo(cfg, held, run);
    CarriedOp(cfg, run, n, c, f, x);
    CarriedOp(cfg, run, n + 1, d, g, y);
  }

  /** The state in which a `D` may overtake: the child of the `S` still holds its block or has yet
      to take it, and the `D` of the call is read next. */
  ghost predicate BeforeTeardown(cfg: Config, steps: seq<Step>, c: nat, f: seq<string>, g: seq<string>, x: Outcome)
  {
    && SameKeys(f, g) && NextRead(cfg, steps, Line(g)) && x.alloc.Both()
    && var s := After(cfg, steps).value;
       && s.failed < cfg.capacity && c < |s.written| && Pending(s, c) && Carries(s, c, f)
       && Delivers(CStr(s.written[c]), x.o1, x.o2)
       && Tokenisable(CStr(Overwrite(s.buffer, Line(g)))) && x.alloc.Fresh(s.kernel.live)
  }

  lemma NextDelivers(s: State, g: seq<string>, o1: Observation, o2: Observation)
    requires WellFormed(g) && g[1] == "D" && Tokenisable(CStr(Overwrite(s.buffer, Line(g))))
    ensures Delivers(CStr(Overwrite(s.buffer, Line(g))), o1, o2)
    ensures Current(s.messages + [Line(g)]) == Line(g)
  {
    BufferOfNext(s, g);
    TeardownDelivers(g, CStr(Overwrite(s.buffer, Line(g))), o1, o2);
  }

  lemma {:induction false} HoldBoth(cfg: Config, steps: seq<Step>, c: nat, f: seq<string>, g: seq<string>, x: Outcome)
    returns (held: seq<Step>)
    requires BeforeTeardown(cfg, steps, c, f, g, x)
    ensures Continues(cfg, steps + [Read(Line(g))], held)
    ensures var s, s' := After(cfg, steps).value, After(cfg, held).value; var d := |s.written|;
            && c < d && Carries(s', c, f) && Carries(s', d, g)
            && Ready(s', c, x) && Ready(s', d, x.(alloc := NO_BLOCKS)) && s'.kernel == s.kernel
  {
    NextDelivers(After(cfg, steps).value, g, x.o1, x.o2);
    held := HoldTwo(cfg, steps, c, f, g, x, x.(alloc := NO_BLOCKS));
  }

  lemma {:induction false} HoldTwo(cfg: Config, steps: seq<Step>, c: nat, f: seq<string>, g: seq<string>,
                                   x: Outcome, y: Outcome)
    returns (held: seq<Step>)
    requires WellFormed(g) && NextRead(cfg, steps, Line(g)) && After(cfg, steps).value.failed < cfg.capacity
    requires var s := After(cfg, steps).value;
             && c < |s.written| && Pending(s, c) && Carries(s, c, f)
             && Current(s.messages + [Line(g)]) == Line(g)
             && Delivers(CStr(s.written[c]), x.o1, x.o2) && Delivers(CStr(Overwrite(s.buffer, Line(g))), y.o1, y.o2)
             && x.alloc.Fresh(s.kernel.live) && y.alloc.Fresh(s.kernel.live)
    ensures Continues(cfg, steps + [Read(Line(g))], held)
    ensures var s, s' := After(cfg, steps).value, After(cfg, held).value; var d := |s.written|;
            && c < d && Carries(s', c, f) && Carries(s', d, g)
            && Ready(s', c, x) && Ready(s', d, y) && s'.kernel == s.kernel
  {
    held := BothReady(cfg, steps, c, Line(g), x, y);
    BothCarried(After(cfg, steps).value, After(cfg, held).value, c, f, g);
  }

  lemma BothCarried(s: State, s': State, c: nat, f: seq<string>, g: seq<string>)
    requires Carries(s, c, f) && WellFormed(g) && Current(s.messages + [Line(g)]) == Line(g)
    requires Received(s, s', c, Line(g))
    ensures Carries(s', c, f) && Carries(s', |s.written|, g)
  {
    QuietCurrent(s.messages + [Line(g)], s'.messages);
    ReadSoFar(s.messages, s'.messages, c, Line(g));
  }

  lemma ReadSoFar(msgs: seq<string>, all: seq<string>, c: nat, msg: string)
    requires c < |msgs| && msgs + [msg] <= all
    ensures all[..c + 1] == msgs[..c + 1] && all[..|msgs| + 1] == msgs + [msg]
  {
  }

  /** From any such reachable state both orders of delivery are possible with the same reads: in
      order the call's buckets end up empty, overtaken they end up with exactly the torn-down call
      in them. */
  lemma {:induction false} TeardownMayOvertake(cfg: Config, steps: seq<Step>, c: nat, f: seq<string>, g: seq<string>,
                                               x: Outcome)
    returns (inOrder: seq<Step>, overtaken: seq<Step>)
    requires BeforeTeardown(cfg, steps, c, f, g, x)
    ensures Continues(cfg, steps + [Read(Line(g))], inOrder) && Continues(cfg, steps + [Read(Line(g))], overtaken)
    ensures After(cfg, inOrder).value.messages == After(cfg, overtaken).value.messages
    ensures var s, s1, s2 := After(cfg, steps).value, After(cfg, inOrder).value, After(cfg, overtaken).value;
            && SentBefore(s1, c, |s.written|) && SentBefore(s2, |s.written|, c)
            && var t, e := Entries(s.kernel.chains), CallEntry(f, x.o1, x.o2);
               && Entries(s1.kernel.chains) == Without(cfg.hash, t, e)
               && Entries(s2.kernel.chains) == Apply(cfg.hash, Without(cfg.hash, t, e), SetupOf(e))
               && Entries(s2.kernel.chains) != Without(cfg.hash, t, e)
  {
    var d := |After(cfg, steps).value.written|;
    var held := HoldBoth(cfg, steps, c, f, g, x);
    inOrder := DeliverTwo(cfg, held, c, f, x, d, g, x.(alloc := NO_BLOCKS));
    overtaken := DeliverTwo(cfg, held, d, g, x.(alloc := NO_BLOCKS), c, f, x);
    BothOps(f, g, x.o1, x.o2, x.alloc);
    OrderMatters(cfg.hash, Entries(After(cfg, steps).value.kernel.chains), CallEntry(f, x.o1, x.o2),
                 EntryOp(RequestOf(f, x.o1, x.o2), x.alloc), EntryOp(RequestOf(g, x.o1, x.o2), NO_BLOCKS));
  }

  lemma TeardownDelivers(g: seq<string>, text: string, o1: Observation, o2: Observation)
    requires WellFormed(g) && g[1] == "D" && StartsWith(text, Line(g)) && Tokenisable(text)
    ensures Delivers(text, o1, o2)
  {
    TokenisableIff(g, text[|Line(g)|..]);
    DeliversIff(g, text);
  }

  lemma BothOps(f: seq<string>, g: seq<string>, o1: Observation, o2: Observation, a: Alloc)
    requires SameKeys(f, g) && a.Both()
    ensures var e := CallEntry(f, o1, o2);
            && EntryOp(RequestOf(f, o1, o2), a) == SetupOf(e)
            && EntryOp(RequestOf(g, o1, o2), NO_BLOCKS) == Op<Entry>.Teardown(e.Key1(), e.Key2())
  {
    SetupRequest(f, o1, o2, a);
    SameKeysMeans(f, g);
  }

  /** The table with the two buckets of the call emptied. */
  function Without(hash: Hash, t: Table<Entry>, e: Entry): Table<Entry> {
    t[hash(e.Key1()) := []][hash(e.Key2()) := []]
  }

  lemma OrderMatters(hash: Hash, t: Table<Entry>, e: Entry, up: Op<Entry>, down: Op<Entry>)
    requires up == SetupOf(e) && down == Op<Entry>.Teardown(e.Key1(), e.Key2())
    ensures Run(hash, t, [up, down]) == Without(hash, t, e)
    ensures Run(hash, t, [down, up]) == Apply(hash, Without(hash, t, e), SetupOf(e)) != Without(hash, t, e)
  {
    TeardownUndoesSetup(hash, t, e.Key1(), e.Key2(), e, e.Mirror());
    RunTwo(hash, t, down, up);
    assert Apply(hash, t, down)[hash(e.Key1())] == [];
    assert Run(hash, t, [down, up])[hash(e.Key1())] != [];
  }

  lemma WrittenHolds(cfg: Config, steps: seq<Step>, c: nat, f: seq<string>)
    requires After(cfg, steps).Some?
    requires c < |After(cfg, steps).value.written| && Carries(After(cfg, steps).value, c, f)
    ensures StartsWith(CStr(After(cfg, steps).value.written[c]), Line(f))
  {
    ReadsWritten(cfg, steps);
    LineIsNulFree(f);
    CurrentInFront(After(cfg, steps).value.messages[..c + 1]);
  }

  /** A child can send something for this request at the front of its block: the text ends before
      the buffer does, at most three tokens were left over behind the request and, for an `S`, the
      shortest reprint fits, as it does for every text of less than 1023 bytes. */
  ghost predicate CanSend(f: seq<string>, text: string)
    requires |f| >= 2
  {
    && |text| < MAX_PAYLOAD && StartsWith(text, Line(f)) && Added(text[|Line(f)|..]) <= 3
    && (f[1] == "S" && |text| == MAX_PAYLOAD - 1 ==> |StrTok(text)| >= 10 && Shortest(StrTok(text)) < MAX_PAYLOAD)
  }

  lemma CanSendIff(f: seq<string>, text: string)
    requires WellFormed(f) && StartsWith(text, Line(f))
    ensures (exists o1, o2 :: Delivers(text, o1, o2)) <==> CanSend(f, text)
  {
    DeliversIff(f, text);
  }

  /** For a call, what decides whether its `D` can overtake its `S`: a pipe with room, a child that
      has not sent yet, and blocks that the two children can send. */
  lemma {:induction false} CallOvertakenIff(cfg: Config, steps: seq<Step>, c: nat, f: seq<string>, g: seq<string>)
    requires SameKeys(f, g) && NextRead(cfg, steps, Line(g))
    requires c < |After(cfg, steps).value.written| && Carries(After(cfg, steps).value, c, f)
    ensures var s := After(cfg, steps).value;
            (exists run :: Overtakes(cfg, steps + [Read(Line(g))], run, |s.written|, c))
            <==> && s.failed < cfg.capacity && Pending(s, c)
                 && CanSend(f, CStr(s.written[c])) && CanSend(g, CStr(Overwrite(s.buffer, Line(g))))
  {
    var s := After(cfg, steps).value;
    OvertakingIff(cfg, steps, c, Line(g));
    WrittenHolds(cfg, steps, c, f);
    BufferOfNext(s, g);
    CanSendIff(f, CStr(s.written[c]));
    CanSendIff(g, CStr(Overwrite(s.buffer, Line(g))));
  }

  lemma SendsAlone(g: seq<string>, text: string)
    requires WellFormed(g) && text == Line(g) && (g[1] == "D" || |text| < MAX_PAYLOAD - 1)
    ensures CanSend(g, text)
  {
    assert text[|Line(g)|..] == "";
    SplitOne("", ' ');
    assert [""][1..] == [];
  }

  /** The process has just started its child for the `S`. */
  function Started(f: seq<string>): seq<Step>
    requires |f| >= 1
  {
    [Read(Line(f))] + [Write] + [ForkOk]
  }

  lemma FirstRead(cfg: Config, msg: string)
    requires |msg| <= MAX_PAYLOAD
    ensures After(cfg, [Read(msg)])
         == Some(INIT.(messages := [msg], buffer := Overwrite(Zeroed(), msg), parent := HasRead))
  {
    Extend(cfg, [], Read(msg));
    assert [] + [Read(msg)] == [Read(msg)] && [] + [msg] == [msg];
  }

  lemma FirstWritten(cfg: Config, msg: string)
    requires |msg| <= MAX_PAYLOAD && cfg.capacity > 0
    ensures var b := Overwrite(Zeroed(), msg);
            After(cfg, [Read(msg)] + [Write])
            == Some(INIT.(messages := [msg], buffer := b, parent := HasWritten, written := [b], pipe := [b]))
  {
    FirstRead(cfg, msg);
    Extend(cfg, [Read(msg)], Write);
    var b := Overwrite(Zeroed(), msg);
    assert [] + [b] == [b];
  }

  lemma StartedState(cfg: Config, f: seq<string>)
    requires WellFormed(f) && cfg.capacity > 0
    ensures After(cfg, Started(f)).Some?
    ensures var s := After(cfg, Started(f)).value;
            && s.parent.Idle? && s.failed == 0 && s.taken == [] && s.messages == [Line(f)]
            && s.buffer == Overwrite(Zeroed(), Line(f)) && s.written == [s.buffer]
  {
    FirstWritten(cfg, Line(f));
    Extend(cfg, [Read(Line(f))] + [Write], ForkOk);
  }

  lemma FreshText(m: string)
    requires |m| < MAX_PAYLOAD && NUL !in m
    ensures CStr(Overwrite(Zeroed(), m)) == m
  {
    var b := Overwrite(Zeroed(), m);
    assert b[..|m|] == m && b[|m|] == NUL;
    FindFirst(b, NUL, |m|);
  }

  lemma SecondText(m1: string, m2: string)
    requires |m1| <= |m2| < MAX_PAYLOAD && NUL !in m2
    ensures CStr(Overwrite(Overwrite(Zeroed(), m1), m2)) == m2
  {
    assert Overwrite(Overwrite(Zeroed(), m1), m2) == Overwrite(Zeroed(), m2);
    FreshText(m2);
  }

  /** So the first call of a fresh process can always be overtaken by its `D`, when that is at least
      as long as the `S` and the `S` leaves room for its reprint. */
  lemma {:induction false} FirstCallMayBeOvertaken(cfg: Config, f: seq<string>, g: seq<string>)
    requires SameKeys(f, g) && cfg.capacity > 0
    requires |Line(f)| <= |Line(g)| && |Line(f)| < MAX_PAYLOAD - 1
    ensures exists run :: Overtakes(cfg, Started(f) + [Read(Line(g))], run, 1, 0)
  {
    StartedState(cfg, f);
    FirstCarries(After(cfg, Started(f)).value, f);
    LineFits(f);
    LineFits(g);
    FreshText(Line(f));
    SecondText(Line(f), Line(g));
    SendsAlone(f, Line(f));
    SendsAlone(g, Line(g));
    CallOvertakenIff(cfg, Started(f), 0, f, g);
  }

  lemma FirstCarries(s: State, f: seq<string>)
    requires WellFormed(f) && s.messages == [Line(f)]
    ensures Carries(s, 0, f)
  {
    CurrentSnoc([], Line(f));
    assert [] + [Line(f)] == [Line(f)] == s.messages[..1];
  }
}
