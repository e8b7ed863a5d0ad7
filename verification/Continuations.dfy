/** Which continuations a reachable state of the user-space process has: when it can still write a
    block, and which block can be delivered before which. */
module Continuations {
  import opened Text
  import opened NatTable
  import opened Requests
  import opened UserSpace
  import opened LineMeaning
  import opened ForkPipe

  ghost predicate Continues(cfg: Config, steps: seq<Step>, run: seq<Step>) {
    steps <= run && After(cfg, run).Some?
  }

  lemma Extend(cfg: Config, steps: seq<Step>, step: Step)
    requires After(cfg, steps).Some? && Enabled(cfg, After(cfg, steps).value, step)
    ensures After(cfg, steps + [step]) == Some(Next(cfg, After(cfg, steps).value, step))
  {
    assert (steps + [step])[..|steps|] == steps;
  }

  // ----- what every continuation keeps -----

  /** The child of block `c` holds it, or has yet to take it. */
  ghost predicate Pending(s: State, c: nat) {
    c in s.busy || |s.taken| <= c
  }

  ghost predicate Grows(s: State, s': State) {
    && s.messages <= s'.messages && s.written <= s'.written && s.taken <= s'.taken && s.sent <= s'.sent
    && (forall c :: c in s'.busy ==> Pending(s, c))
    && (forall i :: |s.sent| <= i < |s'.sent| ==> Pending(s, s'.sent[i].block))
  }

  lemma GrowsStep(cfg: Config, s: State, s1: State, step: Step)
    requires Grows(s, s1) && Enabled(cfg, s1, step)
    ensures Grows(s, Next(cfg, s1, step))
  {
  }

  /** No continuation forgets or reorders what was read, written, taken or sent, and only pending
      blocks are delivered later. */
  lemma {:induction false} RunGrows(cfg: Config, steps: seq<Step>, run: seq<Step>)
    requires Continues(cfg, steps, run)
    ensures After(cfg, steps).Some? && Grows(After(cfg, steps).value, After(cfg, run).value)
    decreases |run|
  {
    if |run| == |steps| {
      assert run == steps;
    } else {
      var front := run[..|run| - 1];
      assert steps <= front;
      RunGrows(cfg, steps, front);
      GrowsStep(cfg, After(cfg, steps).value, After(cfg, front).value, run[|run| - 1]);
    }
  }

  // ----- serving without sending -----

  /** From `s` to `s'` blocks were written and taken, but no line was sent and no child died. */
  ghost predicate Ahead(s: State, s': State) {
    && s.messages <= s'.messages && s.written <= s'.written && s.taken <= s'.taken
    && s'.failed == s.failed && s'.sent == s.sent && s'.kernel == s.kernel
    && (forall c :: c in s'.busy <==> c in s.busy || |s.taken| <= c < |s'.taken|)
  }

  /** No message arrived: whatever was read was empty. */
  ghost predicate Quiet(s: State, s': State) {
    && |s.messages| <= |s'.messages| && s'.buffer == s.buffer
    && (forall i :: |s.messages| <= i < |s'.messages| ==> s'.messages[i] == "")
  }

  /** Between requests, with every child started holding its block. */
  ghost predicate Settled(s: State) {
    s.parent.Idle? && s.waiting == 0
  }

  lemma AheadStep(cfg: Config, steps: seq<Step>, step: Step)
    requires After(cfg, steps).Some? && Enabled(cfg, After(cfg, steps).value, step)
    requires step.Read? || step.Write? || step.ForkOk? || step.Take?
    ensures Continues(cfg, steps, steps + [step])
    ensures After(cfg, steps + [step]) == Some(Next(cfg, After(cfg, steps).value, step))
    ensures Ahead(After(cfg, steps).value, After(cfg, steps + [step]).value)
  {
    Extend(cfg, steps, step);
  }

  lemma AheadTrans(s: State, s1: State, s2: State)
    requires Ahead(s, s1) && Ahead(s1, s2)
    ensures Ahead(s, s2)
  {
  }

  /** Every waiting child finds a block. */
  lemma {:induction false} TakeAll(cfg: Config, steps: seq<Step>) returns (run: seq<Step>)
    requires After(cfg, steps).Some?
    ensures Continues(cfg, steps, run)
    ensures var s, s' := After(cfg, steps).value, After(cfg, run).value;
            && Ahead(s, s') && s'.waiting == 0
            && s'.messages == s.messages && s'.buffer == s.buffer && s'.parent == s.parent && s'.written == s.written
    decreases After(cfg, steps).value.waiting
  {
    run := steps;
    if After(cfg, steps).value.waiting > 0 {
      PipeState(cfg, steps);
      AheadStep(cfg, steps, Take);
      run := TakeAll(cfg, steps + [Take]);
      AheadTrans(After(cfg, steps).value, After(cfg, steps + [Take]).value, After(cfg, run).value);
    }
  }

  /** The parent writes what it has read. */
  lemma WriteOut(cfg: Config, steps: seq<Step>) returns (run: seq<Step>)
    requires After(cfg, steps).Some?
    requires var s := After(cfg, steps).value; s.parent.HasRead? && s.waiting == 0 && s.failed < cfg.capacity
    ensures Continues(cfg, steps, run)
    ensures var s, s' := After(cfg, steps).value, After(cfg, run).value;
            && Ahead(s, s') && s'.parent.HasWritten?
            && s'.messages == s.messages && s'.buffer == s.buffer && s'.written == s.written + [s.buffer]
  {
    PipeState(cfg, steps);
    AheadStep(cfg, steps, Write);
    run := steps + [Write];
  }

  /** The fork succeeds and every child takes its block. */
  lemma Finish(cfg: Config, steps: seq<Step>) returns (run: seq<Step>)
    requires After(cfg, steps).Some? && After(cfg, steps).value.parent.HasWritten?
    ensures Continues(cfg, steps, run)
    ensures var s, s' := After(cfg, steps).value, After(cfg, run).value;
            && Ahead(s, s') && Settled(s')
            && s'.messages == s.messages && s'.buffer == s.buffer && s'.written == s.written
  {
    AheadStep(cfg, steps, ForkOk);
    run := TakeAll(cfg, steps + [ForkOk]);
    AheadTrans(After(cfg, steps).value, After(cfg, steps + [ForkOk]).value, After(cfg, run).value);
  }

  /** What was begun is brought to its end. */
  lemma Settle(cfg: Config, steps: seq<Step>) returns (run: seq<Step>)
    requires After(cfg, steps).Some? && After(cfg, steps).value.failed < cfg.capacity
    ensures Continues(cfg, steps, run)
    ensures var s, s' := After(cfg, steps).value, After(cfg, run).value;
            && Ahead(s, s') && Settled(s') && s'.messages == s.messages && s'.buffer == s.buffer
            && s'.written == if s.parent.HasRead? then s.written + [s.buffer] else s.written
  {
    var s := After(cfg, steps).value;
    if s.parent.HasRead? {
      var r1 := TakeAll(cfg, steps);
      var r2 := WriteOut(cfg, r1);
      run := Finish(cfg, r2);
      AheadTrans(s, After(cfg, r1).value, After(cfg, r2).value);
      AheadTrans(s, After(cfg, r2).value, After(cfg, run).value);
    } else if s.parent.HasWritten? {
      run := Finish(cfg, steps);
    } else {
      run := TakeAll(cfg, steps);
    }
  }

  /** One more block goes in, and so one more comes out. */
  lemma Serve(cfg: Config, steps: seq<Step>, msg: string) returns (run: seq<Step>)
    requires After(cfg, steps).Some? && |msg| <= MAX_PAYLOAD
    requires Settled(After(cfg, steps).value) && After(cfg, steps).value.failed < cfg.capacity
    ensures Continues(cfg, steps, run)
    ensures var s, s' := After(cfg, steps).value, After(cfg, run).value;
            && Ahead(s, s') && Settled(s') && |s'.taken| == |s.taken| + 1
            && s'.messages == s.messages + [msg] && s'.buffer == Overwrite(s.buffer, msg)
            && s'.written == s.written + [s'.buffer]
  {
    AheadStep(cfg, steps, Read(msg));
    run := Settle(cfg, steps + [Read(msg)]);
    AheadTrans(After(cfg, steps).value, After(cfg, steps + [Read(msg)]).value, After(cfg, run).value);
    PipeState(cfg, steps);
    PipeState(cfg, run);
  }

  /** Empty reads push blocks through the pipe until block `b` has been taken. */
  lemma {:induction false} ServeUntil(cfg: Config, steps: seq<Step>, b: nat) returns (run: seq<Step>)
    requires After(cfg, steps).Some?
    requires Settled(After(cfg, steps).value) && After(cfg, steps).value.failed < cfg.capacity
    ensures Continues(cfg, steps, run)
    ensures var s, s' := After(cfg, steps).value, After(cfg, run).value;
            Ahead(s, s') && Settled(s') && Quiet(s, s') && b < |s'.taken|
    decreases b - |After(cfg, steps).value.taken|
  {
    var s := After(cfg, steps).value;
    run := steps;
    if b >= |s.taken| {
      var r1 := Serve(cfg, steps, "");
      assert Overwrite(s.buffer, "") == s.buffer;
      run := ServeUntil(cfg, r1, b);
      AheadTrans(s, After(cfg, r1).value, After(cfg, run).value);
    }
  }

  // ----- when the process can go on -----

  ghost predicate WritesMore(cfg: Config, steps: seq<Step>, run: seq<Step>)
    requires After(cfg, steps).Some?
  {
    Continues(cfg, steps, run) && |After(cfg, run).value.written| > |After(cfg, steps).value.written|
  }

  ghost predicate TakesMore(cfg: Config, steps: seq<Step>, run: seq<Step>)
    requires After(cfg, steps).Some?
  {
    Continues(cfg, steps, run) && |After(cfg, run).value.taken| > |After(cfg, steps).value.taken|
  }

  lemma FullNeverMore(cfg: Config, steps: seq<Step>, run: seq<Step>)
    requires After(cfg, steps).Some? && Continues(cfg, steps, run)
    requires After(cfg, steps).value.failed >= cfg.capacity
    ensures !WritesMore(cfg, steps, run) && !TakesMore(cfg, steps, run)
  {
    assert run == steps + run[|steps|..];
    FullPipeStalls(cfg, steps, run[|steps|..]);
  }

  /** From any reachable state the process can write another block, and a child can take another,
      exactly when fewer forks have failed than the pipe holds blocks. */
  lemma {:induction false} GoesOnIff(cfg: Config, steps: seq<Step>)
    requires After(cfg, steps).Some?
    ensures (exists run :: WritesMore(cfg, steps, run)) <==> After(cfg, steps).value.failed < cfg.capacity
    ensures (exists run :: TakesMore(cfg, steps, run)) <==> After(cfg, steps).value.failed < cfg.capacity
  {
    if After(cfg, steps).value.failed < cfg.capacity {
      var r1 := Settle(cfg, steps);
      var r2 := Serve(cfg, r1, "");
      assert WritesMore(cfg, steps, r2) && TakesMore(cfg, steps, r2);
    } else {
      forall run ensures !WritesMore(cfg, steps, run) && !TakesMore(cfg, steps, run) {
        if Continues(cfg, steps, run) {
          FullNeverMore(cfg, steps, run);
        }
      }
    }
  }

  /** A fork may fail whenever one is tried, so forks can fail until the pipe is full of their
      blocks: for every `n` up to its capacity some run leaves exactly `n` there and nothing else. */
  lemma {:induction false} ForksMayFail(cfg: Config, n: nat) returns (run: seq<Step>)
    requires n <= cfg.capacity
    ensures After(cfg, run).Some?
    ensures var s := After(cfg, run).value;
            s.failed == n == |s.pipe| && s.parent.Idle? && s.waiting == 0 && s.taken == []
  {
    if n == 0 {
      run := [];
    } else {
      var r0 := ForksMayFail(cfg, n - 1);
      Extend(cfg, r0, Read(""));
      var r1 := r0 + [Read("")];
      Extend(cfg, r1, Write);
      var r2 := r1 + [Write];
      Extend(cfg, r2, ForkFail);
      run := r2 + [ForkFail];
    }
  }

  /** So a run exists after which the process never writes again. */
  lemma {:induction false} StallIsReachable(cfg: Config) returns (steps: seq<Step>)
    ensures After(cfg, steps).Some? && forall run :: !WritesMore(cfg, steps, run)
  {
    steps := ForksMayFail(cfg, cfg.capacity);
    forall run ensures !WritesMore(cfg, steps, run) {
      if Continues(cfg, steps, run) {
        FullNeverMore(cfg, steps, run);
      }
    }
  }

  // ----- which block is delivered before which -----

  ghost predicate SentAt(s: State, i: nat, block: nat) {
    i < |s.sent| && s.sent[i].block == block
  }

  ghost predicate SentBefore(s: State, b: nat, c: nat) {
    exists i, j :: i < j && SentAt(s, i, b) && SentAt(s, j, c)
  }

  /** Some behaviour of the two legs makes the child send a line for this block. */
  ghost predicate Deliverable(block: Block) {
    exists o1, o2 :: Delivers(CStr(block), o1, o2)
  }

  /** In `run`, a continuation of `steps`, block `b` is delivered before block `c`. */
  ghost predicate Overtakes(cfg: Config, steps: seq<Step>, run: seq<Step>, b: nat, c: nat) {
    Continues(cfg, steps, run) && SentBefore(After(cfg, run).value, b, c)
  }

  /** What a block holds is settled when it is written. */
  lemma {:induction false} BlockHolds(cfg: Config, steps: seq<Step>, run: seq<Step>, i: nat)
    requires Continues(cfg, steps, run) && i < |After(cfg, run).value.taken|
    ensures After(cfg, steps).Some?
    ensures var s, s' := After(cfg, steps).value, After(cfg, run).value;
            && i < |s'.messages|
            && (i < |s.written| ==> s'.taken[i] == s.written[i])
            && (i < |s.messages| ==> s'.messages[..i + 1] == s.messages[..i + 1])
            && (i == |s.messages| - 1 ==> s'.taken[i] == s.buffer)
  {
    RunGrows(cfg, steps, run);
    var s, s' := After(cfg, steps).value, After(cfg, run).value;
    PipeState(cfg, run);
    ReadsWritten(cfg, steps);
    ReadsWritten(cfg, run);
    assert s'.taken[i] == s'.written[i] == BufferAfter(s'.messages[..i + 1]);
    if i < |s.messages| {
      assert s'.messages[..i + 1] == s.messages[..i + 1];
      if i == |s.messages| - 1 {
        assert s.messages[..i + 1] == s.messages;
      }
    }
  }

  /** A later delivered block was pending, and its content was deliverable. */
  lemma SentLater(cfg: Config, steps: seq<Step>, run: seq<Step>, i: nat)
    requires Continues(cfg, steps, run) && i < |After(cfg, run).value.sent|
    ensures After(cfg, steps).Some?
    ensures var s, s' := After(cfg, steps).value, After(cfg, run).value;
            && s'.sent[i].block < |s'.taken| && Deliverable(s'.taken[s'.sent[i].block])
            && (i < |s.sent| <==> !Pending(s, s'.sent[i].block))
  {
    RunGrows(cfg, steps, run);
    GenuineAt(cfg, run, i);
    var s, s' := After(cfg, steps).value, After(cfg, run).value;
    if i < |s.sent| {
      DeliveredInOrder(cfg, steps);
      assert s.sent[i] == s'.sent[i];
    }
  }

  /** The reads of the rest of the run: first `msg`, by a parent between two requests. */
  ghost predicate NextRead(cfg: Config, steps: seq<Step>, msg: string) {
    After(cfg, steps).Some? && After(cfg, steps).value.parent.Idle? && |msg| <= MAX_PAYLOAD
  }

  lemma {:induction false} OvertakesOnlyIf(cfg: Config, steps: seq<Step>, run: seq<Step>, c: nat, msg: string)
    requires NextRead(cfg, steps, msg) && c < |After(cfg, steps).value.written|
    requires Overtakes(cfg, steps + [Read(msg)], run, |After(cfg, steps).value.written|, c)
    ensures var s := After(cfg, steps).value;
            && s.failed < cfg.capacity && Pending(s, c)
            && Deliverable(s.written[c]) && Deliverable(Overwrite(s.buffer, msg))
  {
    var s, s' := After(cfg, steps).value, After(cfg, run).value;
    var b, read := |s.written|, steps + [Read(msg)];
    var i, j :| i < j && SentAt(s', i, b) && SentAt(s', j, c);
    Extend(cfg, steps, Read(msg));
    PipeState(cfg, steps);
    ReadsWritten(cfg, steps);
    SentLater(cfg, steps, run, i);
    SentLater(cfg, steps, run, j);
    BlockHolds(cfg, read, run, b);
    BlockHolds(cfg, steps, run, c);
    if s.failed >= cfg.capacity {
      FullNeverMore(cfg, steps, run);
    }
  }

  /** A request is read, written and taken by a child; only empty reads follow. */
  lemma {:induction false} Held(cfg: Config, steps: seq<Step>, msg: string) returns (run: seq<Step>)
    requires NextRead(cfg, steps, msg) && After(cfg, steps).value.failed < cfg.capacity
    ensures Continues(cfg, steps + [Read(msg)], run)
    ensures var s, s' := After(cfg, steps).value, After(cfg, run).value; var b := |s.written|;
            && Ahead(s, s') && Settled(s') && b == |s.messages|
            && Quiet(s.(messages := s.messages + [msg], buffer := Overwrite(s.buffer, msg)), s')
            && b < |s'.taken| && b in s'.busy && s'.taken[b] == Overwrite(s.buffer, msg)
            && b < |s'.messages| && s'.messages[..b + 1] == s.messages + [msg]
  {
    var s, read := After(cfg, steps).value, steps + [Read(msg)];
    AheadStep(cfg, steps, Read(msg));
    PipeState(cfg, steps);
    ReadsWritten(cfg, steps);
    var r1 := Settle(cfg, read);
    run := ServeUntil(cfg, r1, |s.written|);
    AheadTrans(s, After(cfg, read).value, After(cfg, r1).value);
    AheadTrans(s, After(cfg, r1).value, After(cfg, run).value);
    BlockHolds(cfg, read, run, |s.written|);
    assert (s.messages + [msg])[..|s.written| + 1] == s.messages + [msg];
  }

  /** `msg` was the next message read, and the only one. */
  ghost predicate Received(s: State, s': State, c: nat, msg: string) {
    && c < |s.written| == |s.messages| && s.messages + [msg] <= s'.messages
    && (forall i :: |s.messages| < i < |s'.messages| ==> s'.messages[i] == "")
  }

  /** The new request and the pending one are both in the hands of their children. */
  lemma {:induction false} BothHeld(cfg: Config, steps: seq<Step>, c: nat, msg: string) returns (run: seq<Step>)
    requires NextRead(cfg, steps, msg) && After(cfg, steps).value.failed < cfg.capacity
    requires c < |After(cfg, steps).value.written| && Pending(After(cfg, steps).value, c)
    ensures Continues(cfg, steps + [Read(msg)], run)
    ensures var s, s' := After(cfg, steps).value, After(cfg, run).value;
            && Ahead(s, s') && Settled(s')
            && c < |s.written| < |s'.taken| && c in s'.busy && |s.written| in s'.busy
            && s'.taken[c] == s.written[c] && s'.taken[|s.written|] == Overwrite(s.buffer, msg)
            && Received(s, s', c, msg)
  {
    run := Held(cfg, steps, msg);
    BlockHolds(cfg, steps, run, c);
  }

  const NO_BLOCKS: Alloc := Alloc(None, None)

  /** A child that holds its block sends its line. */
  lemma SendOne(cfg: Config, steps: seq<Step>, c: nat, o1: Observation, o2: Observation, unset: Regs, a: Alloc)
    returns (run: seq<Step>)
    requires After(cfg, steps).Some?
    requires var s := After(cfg, steps).value;
             && c in s.busy && c < |s.taken| && Delivers(CStr(s.taken[c]), o1, o2) && a.Fresh(s.kernel.live)
    ensures Continues(cfg, steps, run)
    ensures var s, s' := After(cfg, steps).value, After(cfg, run).value;
            && s' == s.(busy := s.busy - {c}, sent := s'.sent, kernel := s'.kernel)
            && |s'.sent| == |s.sent| + 1 && s'.sent[..|s.sent|] == s.sent
            && var d := s'.sent[|s.sent|];
               && d.block == c && d.o1 == o1 && d.o2 == o2 && d.done.alloc == a
               && s'.kernel == Receive(cfg.hash, s.kernel, d.done.req, a)
    ensures a == NO_BLOCKS ==> After(cfg, run).value.kernel.live <= After(cfg, steps).value.kernel.live
  {
    run := steps + [Send(c, o1, o2, unset, a)];
    Extend(cfg, steps, Send(c, o1, o2, unset, a));
  }

  /** The two legs of a child, and what the allocator would answer to its line. */
  datatype Outcome = Outcome(o1: Observation, o2: Observation, unset: Regs, alloc: Alloc)

  ghost predicate Ready(s: State, c: nat, x: Outcome) {
    && c in s.busy && c < |s.taken| && Delivers(CStr(s.taken[c]), x.o1, x.o2) && x.alloc.Fresh(s.kernel.live)
  }

  ghost predicate SentAs(d: Sent, c: nat, x: Outcome) {
    d.block == c && d.o1 == x.o1 && d.o2 == x.o2 && d.done.alloc == x.alloc
  }

  /** Two children send, in the order given. */
  lemma {:induction false} SendTwo(cfg: Config, steps: seq<Step>, b: nat, x: Outcome, c: nat, y: Outcome)
    returns (run: seq<Step>)
    requires After(cfg, steps).Some? && b != c
    requires Ready(After(cfg, steps).value, b, x) && Ready(After(cfg, steps).value, c, y)
    requires x.alloc == NO_BLOCKS || y.alloc == NO_BLOCKS
    ensures Continues(cfg, steps, run)
    ensures var s, s' := After(cfg, steps).value, After(cfg, run).value; var n := |s.sent|;
            && s'.messages == s.messages && s'.taken == s.taken
            && |s'.sent| == n + 2 && s'.sent[..n] == s.sent
            && SentAs(s'.sent[n], b, x) && SentAs(s'.sent[n + 1], c, y)
  {
    var first := SendOne(cfg, steps, b, x.o1, x.o2, x.unset, x.alloc);
    run := SendOne(cfg, first, c, y.o1, y.o2, y.unset, y.alloc);
    var s, s1, s' := After(cfg, steps).value, After(cfg, first).value, After(cfg, run).value;
    assert s'.sent[|s.sent|] == s'.sent[..|s1.sent|][|s.sent|];
    assert s'.sent[..|s.sent|] == s'.sent[..|s1.sent|][..|s.sent|];
  }

  /** Both children are ready to send. */
  lemma {:induction false} BothReady(cfg: Config, steps: seq<Step>, c: nat, msg: string, x: Outcome, y: Outcome)
    returns (run: seq<Step>)
    requires NextRead(cfg, steps, msg) && After(cfg, steps).value.failed < cfg.capacity
    requires c < |After(cfg, steps).value.written| && Pending(After(cfg, steps).value, c)
    requires var s := After(cfg, steps).value;
             && Delivers(CStr(s.written[c]), x.o1, x.o2) && Delivers(CStr(Overwrite(s.buffer, msg)), y.o1, y.o2)
             && x.alloc.Fresh(s.kernel.live) && y.alloc.Fresh(s.kernel.live)
    ensures Continues(cfg, steps + [Read(msg)], run)
    ensures var s, s' := After(cfg, steps).value, After(cfg, run).value;
            Ready(s', c, x) && Ready(s', |s.written|, y) && s'.kernel == s.kernel && Received(s, s', c, msg)
  {
    run := BothHeld(cfg, steps, c, msg);
  }

  lemma {:induction false} OvertakesIf(cfg: Config, steps: seq<Step>, c: nat, msg: string, x: Outcome, y: Outcome)
    returns (run: seq<Step>)
    requires NextRead(cfg, steps, msg) && After(cfg, steps).value.failed < cfg.capacity
    requires c < |After(cfg, steps).value.written| && Pending(After(cfg, steps).value, c)
    requires Delivers(CStr(After(cfg, steps).value.written[c]), x.o1, x.o2)
    requires Delivers(CStr(Overwrite(After(cfg, steps).value.buffer, msg)), y.o1, y.o2)
    requires x.alloc == NO_BLOCKS && y.alloc == NO_BLOCKS
    ensures Overtakes(cfg, steps + [Read(msg)], run, |After(cfg, steps).value.written|, c)
  {
    var held := BothReady(cfg, steps, c, msg, x, y);
    run := SendInOrder(cfg, held, |After(cfg, steps).value.written|, y, c, x);
  }

  lemma {:induction false} SendInOrder(cfg: Config, steps: seq<Step>, b: nat, x: Outcome, c: nat, y: Outcome)
    returns (run: seq<Step>)
    requires After(cfg, steps).Some? && b != c
    requires Ready(After(cfg, steps).value, b, x) && Ready(After(cfg, steps).value, c, y)
    requires x.alloc == NO_BLOCKS || y.alloc == NO_BLOCKS
    ensures Continues(cfg, steps, run) && SentBefore(After(cfg, run).value, b, c)
  {
    run := SendTwo(cfg, steps, b, x, c, y);
    BothSent(After(cfg, run).value, |After(cfg, steps).value.sent|, b, c);
  }

  lemma BothSent(s: State, n: nat, b: nat, c: nat)
    requires |s.sent| >= n + 2 && s.sent[n].block == b && s.sent[n + 1].block == c
    ensures SentBefore(s, b, c)
  {
    assert SentAt(s, n, b) && SentAt(s, n + 1, c);
  }

  /** When a request read now can reach the kernel before an earlier one, over all reachable
      states: exactly when the process is not stuck, the child of the earlier one still holds its
      block or has yet to take it, and both blocks can be delivered at all. In particular what has
      been delivered is never overtaken. */
  lemma {:induction false} OvertakingIff(cfg: Config, steps: seq<Step>, c: nat, msg: string)
    requires NextRead(cfg, steps, msg) && c < |After(cfg, steps).value.written|
    ensures var s := After(cfg, steps).value;
            (exists run :: Overtakes(cfg, steps + [Read(msg)], run, |s.written|, c))
            <==> && s.failed < cfg.capacity && Pending(s, c)
                 && Deliverable(s.written[c]) && Deliverable(Overwrite(s.buffer, msg))
  {
    var s := After(cfg, steps).value;
    if s.failed < cfg.capacity && Pending(s, c) && Deliverable(s.written[c]) && Deliverable(Overwrite(s.buffer, msg)) {
      var unset := Regs(None, 0, 0, 0, 0, 0, 0, 0, 0, 0, 0, 0);
      var o1, o2 :| Delivers(CStr(s.written[c]), o1, o2);
      var p1, p2 :| Delivers(CStr(Overwrite(s.buffer, msg)), p1, p2);
      var run := OvertakesIf(cfg, steps, c, msg, Outcome(o1, o2, unset, NO_BLOCKS), Outcome(p1, p2, unset, NO_BLOCKS));
    } else {
      forall run ensures !Overtakes(cfg, steps + [Read(msg)], run, |s.written|, c) {
        if Overtakes(cfg, steps + [Read(msg)], run, |s.written|, c) {
          OvertakesOnlyIf(cfg, steps, run, c, msg);
        }
      }
    }
  }

  /** A delivered line stays where it is in the order: every block written later comes after it in
      every continuation. */
  lemma {:induction false} DeliveredStaysFirst(cfg: Config, steps: seq<Step>, run: seq<Step>, i: nat, j: nat)
    requires Continues(cfg, steps, run) && After(cfg, steps).Some?
    requires i < |After(cfg, steps).value.sent| && j < |After(cfg, run).value.sent|
    requires After(cfg, run).value.sent[j].block >= |After(cfg, steps).value.written|
    ensures i < j && After(cfg, run).value.sent[i] == After(cfg, steps).value.sent[i]
  {
    RunGrows(cfg, steps, run);
    PipeState(cfg, steps);
    SentLater(cfg, steps, run, j);
  }

  /** A child at work may die at any time; its block is then never delivered. */
  lemma {:induction false} DeathSilences(cfg: Config, steps: seq<Step>, c: nat, run: seq<Step>)
    requires After(cfg, steps).Some? && c in After(cfg, steps).value.busy
    ensures After(cfg, steps + [Die(c)]).Some?
    ensures Continues(cfg, steps + [Die(c)], run) ==>
              forall k :: 0 <= k < |After(cfg, run).value.sent| ==> After(cfg, run).value.sent[k].block != c
  {
    Extend(cfg, steps, Die(c));
    if Continues(cfg, steps + [Die(c)], run) {
      assert run[|steps|] == (steps + [Die(c)])[|steps|] == Die(c);
      FateOfBlock(cfg, run, c);
    }
  }

  // ----- a peer that has closed -----

  /** The run goes on with empty reads only, and `n` more lines are sent, all for blocks written
      since. */
  ghost predicate Repeated(s: State, s': State, n: nat) {
    && Quiet(s, s') && s.messages <= s'.messages && s.written <= s'.written
    && |s'.sent| == |s.sent| + n && s.sent <= s'.sent
    && (forall i :: |s.sent| <= i < |s'.sent| ==> s'.sent[i].block >= |s.written|)
  }

  lemma HeldAgain(cfg: Config, steps: seq<Step>) returns (run: seq<Step>)
    requires NextRead(cfg, steps, "") && After(cfg, steps).value.failed < cfg.capacity
    ensures Continues(cfg, steps, run)
    ensures var s, s' := After(cfg, steps).value, After(cfg, run).value;
            && Ahead(s, s') && Settled(s') && Quiet(s, s')
            && |s.written| < |s'.taken| && |s.written| in s'.busy && s'.taken[|s.written|] == s.buffer
  {
    run := Held(cfg, steps, "");
    assert Overwrite(After(cfg, steps).value.buffer, "") == After(cfg, steps).value.buffer;
  }

  lemma {:induction false} Bound(live: set<nat>) returns (m: nat)
    ensures forall x :: x in live ==> x < m
  {
    m := 0;
    if live != {} {
      var x :| x in live;
      var m' := Bound(live - {x});
      m := if x < m' then m' else x + 1;
      forall y | y in live ensures y < m {
        assert y == x || y in live - {x};
      }
    }
  }

  /** There is always room for two blocks more. */
  lemma FreshPair(live: set<nat>) returns (a: Alloc)
    ensures a.Both() && a.Fresh(live)
  {
    var m := Bound(live);
    a := Alloc(Some(m), Some(m + 1));
  }

  /** The line was sent by a child that saw these legs, and both allocations succeeded. */
  ghost predicate SentWith(d: Sent, o1: Observation, o2: Observation) {
    d.o1 == o1 && d.o2 == o2 && d.done.alloc.Both()
  }

  /** All lines sent from `s` to `s'`. */
  ghost predicate SentSince(s: State, s': State, o1: Observation, o2: Observation) {
    s.sent <= s'.sent && forall i :: |s.sent| <= i < |s'.sent| ==> SentWith(s'.sent[i], o1, o2)
  }

  lemma SentSinceTrans(s: State, s1: State, s2: State, o1: Observation, o2: Observation)
    requires SentSince(s, s1, o1, o2) && SentSince(s1, s2, o1, o2)
    ensures SentSince(s, s2, o1, o2)
  {
    forall i | |s.sent| <= i < |s2.sent| ensures SentWith(s2.sent[i], o1, o2) {
      if i < |s1.sent| { assert s2.sent[i] == s1.sent[i]; }
    }
  }

  lemma {:induction false} RepeatOnce(cfg: Config, steps: seq<Step>, o1: Observation, o2: Observation, unset: Regs)
    returns (run: seq<Step>)
    requires After(cfg, steps).Some? && Settled(After(cfg, steps).value)
    requires After(cfg, steps).value.failed < cfg.capacity && Delivers(CStr(After(cfg, steps).value.buffer), o1, o2)
    ensures Continues(cfg, steps, run)
    ensures var s, s' := After(cfg, steps).value, After(cfg, run).value;
            Settled(s') && s'.failed == s.failed && Repeated(s, s', 1) && SentSince(s, s', o1, o2)
  {
    var held := HeldAgain(cfg, steps);
    var a := FreshPair(After(cfg, held).value.kernel.live);
    run := SendOne(cfg, held, |After(cfg, steps).value.written|, o1, o2, unset, a);
    var s, s' := After(cfg, steps).value, After(cfg, run).value;
    assert s'.sent == s.sent + [s'.sent[|s.sent|]];
  }

  lemma RepeatedTrans(s: State, s1: State, s2: State, n: nat)
    requires Repeated(s, s1, n) && Repeated(s1, s2, 1)
    ensures Repeated(s, s2, n + 1)
  {
    forall i | |s.sent| <= i < |s2.sent| ensures s2.sent[i].block >= |s.written| {
      if i < |s1.sent| { assert s2.sent[i] == s1.sent[i]; }
    }
  }

  /** Once the peer has closed, the last block can be delivered any number of times, each time with
      memory for its entries. */
  lemma {:induction false} RepeatsAnyNumber(cfg: Config, steps: seq<Step>, o1: Observation, o2: Observation,
                                            unset: Regs, n: nat) returns (run: seq<Step>)
    requires After(cfg, steps).Some? && Settled(After(cfg, steps).value)
    requires After(cfg, steps).value.failed < cfg.capacity && Delivers(CStr(After(cfg, steps).value.buffer), o1, o2)
    ensures Continues(cfg, steps, run)
    ensures var s, s' := After(cfg, steps).value, After(cfg, run).value;
            Settled(s') && s'.failed == s.failed && Repeated(s, s', n) && SentSince(s, s', o1, o2)
    decreases n
  {
    if n == 0 {
      run := steps;
    } else {
      var front := RepeatsAnyNumber(cfg, steps, o1, o2, unset, n - 1);
      run := RepeatOnce(cfg, front, o1, o2, unset);
      var s, s1, s' := After(cfg, steps).value, After(cfg, front).value, After(cfg, run).value;
      RepeatedTrans(s, s1, s', n - 1);
      SentSinceTrans(s, s1, s', o1, o2);
    }
  }

  /** In `run`, which goes on with empty reads only, block number `|written|` or a later one is
      delivered. */
  ghost predicate DeliversAgain(cfg: Config, steps: seq<Step>, run: seq<Step>, i: nat)
    requires After(cfg, steps).Some?
  {
    && Continues(cfg, steps, run)
    && var s, s' := After(cfg, steps).value, After(cfg, run).value;
       Quiet(s, s') && i < |s'.sent| && s'.sent[i].block >= |s.written|
  }

  ghost predicate DeliversTimes(cfg: Config, steps: seq<Step>, run: seq<Step>, n: nat)
    requires After(cfg, steps).Some?
  {
    Continues(cfg, steps, run) && Repeated(After(cfg, steps).value, After(cfg, run).value, n)
  }

  lemma {:induction false} QuietBuffer(msgs: seq<string>, all: seq<string>)
    requires forall i :: 0 <= i < |all| ==> |all[i]| <= MAX_PAYLOAD
    requires msgs <= all && forall i :: |msgs| <= i < |all| ==> all[i] == ""
    ensures BufferAfter(all) == BufferAfter(msgs)
  {
    if |all| == |msgs| {
      assert all == msgs;
    } else {
      var front := all[..|all| - 1];
      assert msgs <= front;
      QuietBuffer(msgs, front);
    }
  }

  /** Through empty reads only, every block holds what the buffer held. */
  lemma {:induction false} QuietBlock(cfg: Config, steps: seq<Step>, run: seq<Step>, b: nat)
    requires NextRead(cfg, steps, "") && Continues(cfg, steps, run)
    requires Quiet(After(cfg, steps).value, After(cfg, run).value)
    requires |After(cfg, steps).value.written| <= b < |After(cfg, run).value.taken|
    ensures After(cfg, run).value.taken[b] == After(cfg, steps).value.buffer
  {
    var s, s' := After(cfg, steps).value, After(cfg, run).value;
    RunGrows(cfg, steps, run);
    PipeState(cfg, run);
    ReadsWritten(cfg, steps);
    ReadsWritten(cfg, run);
    assert s'.taken[b] == s'.written[b] == BufferAfter(s'.messages[..b + 1]);
    QuietBuffer(s.messages, s'.messages[..b + 1]);
  }

  lemma {:induction false} DeliversAgainOnlyIf(cfg: Config, steps: seq<Step>, run: seq<Step>, i: nat)
    requires NextRead(cfg, steps, "") && DeliversAgain(cfg, steps, run, i)
    ensures After(cfg, steps).value.failed < cfg.capacity && Deliverable(After(cfg, steps).value.buffer)
  {
    SentLater(cfg, steps, run, i);
    QuietBlock(cfg, steps, run, After(cfg, run).value.sent[i].block);
    PipeState(cfg, run);
    if After(cfg, steps).value.failed >= cfg.capacity {
      FullNeverMore(cfg, steps, run);
    }
  }

  lemma {:induction false} DeliversTimesIf(cfg: Config, steps: seq<Step>, n: nat) returns (run: seq<Step>)
    requires NextRead(cfg, steps, "") && After(cfg, steps).value.failed < cfg.capacity
    requires Deliverable(After(cfg, steps).value.buffer)
    ensures DeliversTimes(cfg, steps, run, n)
  {
    var o1, o2 :| Delivers(CStr(After(cfg, steps).value.buffer), o1, o2);
    var settled := Settle(cfg, steps);
    run := RepeatsAnyNumber(cfg, settled, o1, o2, Regs(None, 0, 0, 0, 0, 0, 0, 0, 0, 0, 0, 0), n);
  }

  lemma TimesIsAgain(cfg: Config, steps: seq<Step>, run: seq<Step>, n: nat)
    requires After(cfg, steps).Some? && DeliversTimes(cfg, steps, run, n) && n > 0
    ensures DeliversAgain(cfg, steps, run, |After(cfg, steps).value.sent|)
  {
  }

  /** When the last block can be delivered again although nothing more is read: exactly when the
      pipe has room and the buffer can be delivered at all; and then any number `n` of times. */
  lemma {:induction false} RepeatsIff(cfg: Config, steps: seq<Step>, n: nat)
    requires NextRead(cfg, steps, "") && n > 0
    ensures var s := After(cfg, steps).value;
            (exists run, i :: DeliversAgain(cfg, steps, run, i)) <==> s.failed < cfg.capacity && Deliverable(s.buffer)
    ensures var s := After(cfg, steps).value;
            (exists run :: DeliversTimes(cfg, steps, run, n)) <==> s.failed < cfg.capacity && Deliverable(s.buffer)
  {
    var s := After(cfg, steps).value;
    forall run, i | DeliversAgain(cfg, steps, run, i) ensures s.failed < cfg.capacity && Deliverable(s.buffer) {
      DeliversAgainOnlyIf(cfg, steps, run, i);
    }
    forall run | DeliversTimes(cfg, steps, run, n) ensures s.failed < cfg.capacity && Deliverable(s.buffer) {
      TimesIsAgain(cfg, steps, run, n);
    }
    if s.failed < cfg.capacity && Deliverable(s.buffer) {
      var run := DeliversTimesIf(cfg, steps, n);
      TimesIsAgain(cfg, steps, run, n);
    }
  }
}
