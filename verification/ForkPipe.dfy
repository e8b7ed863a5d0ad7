/** The user-space process as a protocol: the parent reads into its buffer, writes it to a pipe
    and forks; each child takes one block, and sends one line to the kernel or dies. Read results,
    failed forks, observations, allocations and the scheduling are arbitrary. */
module ForkPipe {
  import opened Words
  import opened Text
  import opened Chains
  import opened NatTable
  import opened Requests
  import opened UserSpace
  import opened LineMeaning

  /** `hash_min`, and the number of blocks after which a write to the pipe waits. */
  datatype Config = Config(hash: Hash, capacity: nat)

  /** Where the parent is in its loop. */
  datatype Parent = Idle | HasRead | HasWritten

  /** One line that reached the kernel: the child's block, its observations, the kernel's
      variables before the parse, the line and what it did. */
  datatype Sent = Sent(block: nat, o1: Observation, o2: Observation, unset: Regs, line: string, done: Delivery)

  datatype State = State(
    messages: seq<string>,      // every message read so far
    buffer: Block,           // the parent's buffer
    parent: Parent,
    written: seq<Block>,     // every block written so far
    pipe: seq<Block>,
    waiting: nat,            // children that have not yet taken a block
    failed: nat,             // forks that failed
    taken: seq<Block>,       // the blocks taken, in order
    busy: set<nat>,          // positions in `taken` of the children still at work
    sent: seq<Sent>,         // the lines delivered to the kernel, in order
    kernel: Heap)

  const INIT: State := State([], Zeroed(), Idle, [], [], 0, 0, [], {}, [], EMPTY_HEAP)

  datatype Step =
    | Read(msg: string)
    | ReadError
    | Write
    | ForkOk
    | ForkFail
    | Take
    | Send(child: nat, o1: Observation, o2: Observation, unset: Regs, alloc: Alloc)
    | Die(child: nat)

  ghost predicate Enabled(cfg: Config, s: State, step: Step) {
    match step
    case Read(msg) => s.parent.Idle? && |msg| <= MAX_PAYLOAD
    case ReadError => s.parent.Idle?
    case Write => s.parent.HasRead? && |s.pipe| < cfg.capacity
    case ForkOk => s.parent.HasWritten?
    case ForkFail => s.parent.HasWritten?
    case Take => s.waiting > 0 && s.pipe != []
    case Send(c, o1, o2, unset, alloc) =>
      && c in s.busy && c < |s.taken| && Delivers(CStr(s.taken[c]), o1, o2) && alloc.Fresh(s.kernel.live)
    case Die(c) => c in s.busy
  }

  ghost function Next(cfg: Config, s: State, step: Step): State
    requires Enabled(cfg, s, step)
  {
    match step
    case Read(msg) => s.(messages := s.messages + [msg], buffer := Overwrite(s.buffer, msg), parent := HasRead)
    case ReadError => s
    case Write => s.(written := s.written + [s.buffer], pipe := s.pipe + [s.buffer], parent := HasWritten)
    case ForkOk => s.(waiting := s.waiting + 1, parent := Idle)
    case ForkFail => s.(failed := s.failed + 1, parent := Idle)
    case Take =>
      s.(waiting := s.waiting - 1, taken := s.taken + [s.pipe[0]], pipe := s.pipe[1..], busy := s.busy + {|s.taken|})
    case Send(c, o1, o2, unset, alloc) =>
      var line := ChildLine(CStr(s.taken[c]), o1, o2).value;
      SentLineHasSession(CStr(s.taken[c]), o1, o2);
      var req := Meaning(line, unset);
      s.(busy := s.busy - {c}, sent := s.sent + [Sent(c, o1, o2, unset, line, Delivery(req, alloc))],
         kernel := Receive(cfg.hash, s.kernel, req, alloc))
    case Die(c) => s.(busy := s.busy - {c})
  }

  /** The state after these steps, if each was possible when it was taken. */
  ghost function After(cfg: Config, steps: seq<Step>): Option<State> {
    if steps == [] then Some(INIT)
    else
      var s := After(cfg, steps[..|steps| - 1]);
      if s.Some? && Enabled(cfg, s.value, steps[|steps| - 1])
      then Some(Next(cfg, s.value, steps[|steps| - 1])) else None
  }

  function Deliveries(sent: seq<Sent>): seq<Delivery> {
    seq(|sent|, i requires 0 <= i < |sent| => sent[i].done)
  }

  // ----- the pipe -----

  ghost predicate PipeInv(cfg: Config, s: State) {
    && |s.pipe| == s.waiting + s.failed + (if s.parent.HasWritten? then 1 else 0)
    && |s.pipe| <= cfg.capacity
    && s.taken + s.pipe == s.written
  }

  lemma {:induction false} PipeState(cfg: Config, steps: seq<Step>)
    requires After(cfg, steps).Some?
    ensures var s := After(cfg, steps).value;
            && PipeInv(cfg, s)
            && (s.waiting > 0 ==> s.pipe != [] && Enabled(cfg, s, Take))
            && (s.waiting == 0 && !s.parent.HasWritten? ==>
                  s.failed <= |s.written| && s.pipe == s.written[|s.written| - s.failed..])
  {
    if steps != [] {
      var front, step := steps[..|steps| - 1], steps[|steps| - 1];
      PipeState(cfg, front);
      PipeStep(cfg, After(cfg, front).value, step);
    }
    var s := After(cfg, steps).value;
    assert s.written[|s.taken|..] == s.pipe;
  }

  lemma PipeStep(cfg: Config, s: State, step: Step)
    requires PipeInv(cfg, s) && Enabled(cfg, s, step)
    ensures PipeInv(cfg, Next(cfg, s, step))
  {
    match step
    case Write => assert s.taken + (s.pipe + [s.buffer]) == s.written + [s.buffer];
    case Take => assert s.taken + [s.pipe[0]] + s.pipe[1..] == s.taken + s.pipe;
    case _ =>
  }

  // ----- the state is what the steps make of it -----

  predicate IsRead(step: Step) { step.Read? }
  predicate IsWrite(step: Step) { step.Write? }
  predicate IsForkOk(step: Step) { step.ForkOk? }
  predicate IsForkFail(step: Step) { step.ForkFail? }
  predicate IsTake(step: Step) { step.Take? }
  predicate IsSend(step: Step) { step.Send? }

  /** The steps of one kind, in order. */
  function Filter(steps: seq<Step>, p: Step -> bool): seq<Step> {
    if steps == [] then []
    else
      var last := steps[|steps| - 1];
      Filter(steps[..|steps| - 1], p) + (if p(last) then [last] else [])
  }

  lemma {:induction false} FilterMembers(steps: seq<Step>, p: Step -> bool)
    ensures forall step :: step in Filter(steps, p) <==> step in steps && p(step)
  {
    if steps != [] {
      FilterMembers(steps[..|steps| - 1], p);
      assert steps == steps[..|steps| - 1] + [steps[|steps| - 1]];
    }
  }

  /** How often each step of the parent and each take occurred. */
  ghost predicate Counted(s: State, steps: seq<Step>) {
    && s.failed == |Filter(steps, IsForkFail)|
    && s.waiting + |s.taken| == |Filter(steps, IsForkOk)|
    && |s.taken| == |Filter(steps, IsTake)|
    && |s.written| == |Filter(steps, IsWrite)|
    && |s.messages| == |Filter(steps, IsRead)|
  }

  lemma CountedStep(cfg: Config, s: State, front: seq<Step>, step: Step)
    requires Counted(s, front) && Enabled(cfg, s, step)
    ensures Counted(Next(cfg, s, step), front + [step])
  {
    assert (front + [step])[..|front|] == front;
  }

  lemma {:induction false} RunCounts(cfg: Config, steps: seq<Step>)
    requires After(cfg, steps).Some?
    ensures Counted(After(cfg, steps).value, steps)
  {
    if steps != [] {
      var front, step := steps[..|steps| - 1], steps[|steps| - 1];
      RunCounts(cfg, front);
      CountedStep(cfg, After(cfg, front).value, front, step);
      assert front + [step] == steps;
    }
  }

  /** In every reachable state `failed` is the number of forks that failed, and the children waiting
      or past their take are those that were started. Each child still waiting, each failed fork
      and the parent between write and fork account for one block in the pipe; the blocks taken and
      those in the pipe are the blocks written, in that order. So no waiting child finds the pipe
      empty, and with none waiting exactly the newest blocks, one per failed fork, are untaken. */
  lemma {:induction false} PipeProtocol(cfg: Config, steps: seq<Step>)
    requires After(cfg, steps).Some?
    ensures var s := After(cfg, steps).value;
            && s.failed == |Filter(steps, IsForkFail)|
            && s.waiting + |s.taken| == |Filter(steps, IsForkOk)|
            && |s.taken| == |Filter(steps, IsTake)| && |s.written| == |Filter(steps, IsWrite)|
            && |s.pipe| == s.waiting + s.failed + (if s.parent.HasWritten? then 1 else 0) <= cfg.capacity
            && s.taken + s.pipe == s.written
            && (s.waiting > 0 ==> s.pipe != [] && Enabled(cfg, s, Take))
            && (s.waiting == 0 && !s.parent.HasWritten? ==>
                  s.failed <= |s.written| && s.pipe == s.written[|s.written| - s.failed..])
  {
    PipeState(cfg, steps);
    RunCounts(cfg, steps);
  }

  /** The line was sent by this step. */
  ghost predicate SentBy(d: Sent, step: Step) {
    && step.Send? && d.block == step.child && d.o1 == step.o1 && d.o2 == step.o2
    && d.unset == step.unset && d.done.alloc == step.alloc
  }

  ghost predicate Logged(s: State, steps: seq<Step>) {
    var got, sends := Filter(steps, IsRead), Filter(steps, IsSend);
    && |s.messages| == |got| && (forall i :: 0 <= i < |got| ==> got[i] == Read(s.messages[i]))
    && |s.sent| == |sends| && (forall i :: 0 <= i < |sends| ==> SentBy(s.sent[i], sends[i]))
  }

  lemma LoggedStep(cfg: Config, s: State, front: seq<Step>, step: Step)
    requires Logged(s, front) && Enabled(cfg, s, step)
    ensures Logged(Next(cfg, s, step), front + [step])
  {
    assert (front + [step])[..|front|] == front;
    assert Filter(front + [step], IsRead) == Filter(front, IsRead) + (if step.Read? then [step] else []);
    assert Filter(front + [step], IsSend) == Filter(front, IsSend) + (if step.Send? then [step] else []);
  }

  /** The messages are those of the read steps, and the lines in the kernel those of the send
      steps, with the observations and allocations of each, both in order. */
  lemma {:induction false} RunLogs(cfg: Config, steps: seq<Step>)
    requires After(cfg, steps).Some?
    ensures var s := After(cfg, steps).value; var got, sends := Filter(steps, IsRead), Filter(steps, IsSend);
            && |s.messages| == |got| && (forall i :: 0 <= i < |got| ==> got[i] == Read(s.messages[i]))
            && |s.sent| == |sends| && (forall i :: 0 <= i < |sends| ==> SentBy(s.sent[i], sends[i]))
  {
    if steps != [] {
      var front, step := steps[..|steps| - 1], steps[|steps| - 1];
      RunLogs(cfg, front);
      LoggedStep(cfg, After(cfg, front).value, front, step);
      assert front + [step] == steps;
    }
  }

  /** The child of block `c` sends or dies. */
  predicate Ends(step: Step, c: nat) {
    (step.Send? || step.Die?) && step.child == c
  }

  ghost predicate Ended(steps: seq<Step>, c: nat) {
    exists i :: 0 <= i < |steps| && Ends(steps[i], c)
  }

  lemma EndedSnoc(front: seq<Step>, step: Step, c: nat)
    ensures Ended(front + [step], c) <==> Ended(front, c) || Ends(step, c)
  {
    var steps := front + [step];
    assert steps[|front|] == step;
    if Ended(front, c) {
      var i :| 0 <= i < |front| && Ends(front[i], c);
      assert steps[i] == front[i];
    }
  }

  /** The child of block `c` is at work exactly when it has taken its block and has not ended. */
  ghost predicate BusyAsEnded(s: State, steps: seq<Step>, c: nat) {
    (c in s.busy <==> c < |s.taken| && !Ended(steps, c)) && (Ended(steps, c) ==> c < |s.taken|)
  }

  /** A child is at work from its take until its one send or its death. */
  lemma {:induction false} BusyUntilEnd(cfg: Config, steps: seq<Step>)
    requires After(cfg, steps).Some?
    ensures var s := After(cfg, steps).value;
            forall c: nat :: BusyAsEnded(s, steps, c)
  {
    if steps == [] {
      forall c: nat ensures !Ended([], c) {}
    } else {
      var front, step := steps[..|steps| - 1], steps[|steps| - 1];
      BusyUntilEnd(cfg, front);
      assert front + [step] == steps;
      forall c: nat ensures BusyAsEnded(After(cfg, steps).value, steps, c) {
        BusyStep(cfg, After(cfg, front).value, front, step, c);
      }
    }
  }

  lemma BusyStep(cfg: Config, s: State, front: seq<Step>, step: Step, c: nat)
    requires BusyAsEnded(s, front, c) && Enabled(cfg, s, step)
    ensures BusyAsEnded(Next(cfg, s, step), front + [step], c)
  {
    EndedSnoc(front, step, c);
  }

  lemma {:induction false} PrefixRuns(cfg: Config, steps: seq<Step>, j: nat)
    requires After(cfg, steps).Some? && j < |steps|
    ensures After(cfg, steps[..j]).Some? && Enabled(cfg, After(cfg, steps[..j]).value, steps[j])
  {
    if j < |steps| - 1 {
      var front := steps[..|steps| - 1];
      PrefixRuns(cfg, front, j);
      assert front[..j] == steps[..j];
    }
  }

  /** Each child ends once: no step of a child follows its send or its death. */
  lemma {:induction false} EndsOnce(cfg: Config, steps: seq<Step>, i: nat, j: nat, c: nat)
    requires After(cfg, steps).Some? && i < j < |steps| && Ends(steps[i], c)
    ensures !Ends(steps[j], c)
  {
    PrefixRuns(cfg, steps, j);
    BusyUntilEnd(cfg, steps[..j]);
    assert Ends(steps[..j][i], c) && BusyAsEnded(After(cfg, steps[..j]).value, steps[..j], c);
  }

  /** What happens to block `c`: it is in the kernel exactly when its child's send was taken, and
      never when its child died. */
  lemma {:induction false} FateOfBlock(cfg: Config, steps: seq<Step>, c: nat)
    requires After(cfg, steps).Some?
    ensures var s := After(cfg, steps).value;
            && ((exists k :: 0 <= k < |s.sent| && s.sent[k].block == c)
                <==> (exists i :: 0 <= i < |steps| && steps[i].Send? && steps[i].child == c))
            && (Die(c) in steps ==> forall k :: 0 <= k < |s.sent| ==> s.sent[k].block != c)
  {
    var s := After(cfg, steps).value;
    var sends := Filter(steps, IsSend);
    RunLogs(cfg, steps);
    FilterMembers(steps, IsSend);
    forall k | 0 <= k < |s.sent|
      ensures exists i :: 0 <= i < |steps| && steps[i].Send? && steps[i].child == s.sent[k].block
    {
      assert sends[k] in steps && SentBy(s.sent[k], sends[k]);
    }
    forall i | 0 <= i < |steps| && steps[i].Send? && steps[i].child == c
      ensures exists k :: 0 <= k < |s.sent| && s.sent[k].block == c
    {
      assert steps[i] in sends;
      var k :| 0 <= k < |sends| && sends[k] == steps[i];
      assert SentBy(s.sent[k], sends[k]);
    }
    if Die(c) in steps {
      SendsNoMore(cfg, steps, c);
    }
  }

  lemma {:induction false} SendsNoMore(cfg: Config, steps: seq<Step>, c: nat)
    requires After(cfg, steps).Some? && Die(c) in steps
    ensures forall i :: 0 <= i < |steps| ==> !(steps[i].Send? && steps[i].child == c)
  {
    var d :| 0 <= d < |steps| && steps[d] == Die(c);
    forall i | 0 <= i < |steps| ensures !(steps[i].Send? && steps[i].child == c) {
      if i < d {
        if Ends(steps[i], c) { EndsOnce(cfg, steps, i, d, c); }
      } else if d < i {
        EndsOnce(cfg, steps, d, i, c);
      }
    }
  }

  /** Blocks of failed forks are never recovered: once there are as many as the pipe holds, no
      continuation writes a block or lets a child take one. */
  lemma {:induction false} FullPipeStalls(cfg: Config, steps: seq<Step>, more: seq<Step>)
    requires After(cfg, steps + more).Some? && After(cfg, steps).Some?
    requires After(cfg, steps).value.failed >= cfg.capacity
    ensures var s, s' := After(cfg, steps).value, After(cfg, steps + more).value;
            s'.failed == s.failed && s'.written == s.written && s'.taken == s.taken
    decreases |more|
  {
    PipeState(cfg, steps);
    if more == [] {
      assert steps + more == steps;
    } else {
      var front := more[..|more| - 1];
      assert (steps + more)[..|steps + more| - 1] == steps + front;
      FullPipeStalls(cfg, steps, front);
      PipeState(cfg, steps + front);
    }
  }

  // ----- what is delivered -----

  ghost predicate SendInv(cfg: Config, s: State) {
    && (forall c :: c in s.busy ==> c < |s.taken|)
    && (forall i :: 0 <= i < |s.sent| ==> s.sent[i].block < |s.taken| && s.sent[i].block !in s.busy)
    && (forall i, j :: 0 <= i < j < |s.sent| ==> s.sent[i].block != s.sent[j].block)
    && (forall i :: 0 <= i < |s.sent| ==> Genuine(s, s.sent[i]))
  }

  /** The line is the child's answer to its block, and was received as such. */
  ghost predicate Genuine(s: State, d: Sent) {
    && d.block < |s.taken| && Delivers(CStr(s.taken[d.block]), d.o1, d.o2)
    && ChildLine(CStr(s.taken[d.block]), d.o1, d.o2) == Some(d.line)
    && |Split(d.line, ' ')| >= 2 && d.done.req == Meaning(d.line, d.unset)
  }

  ghost predicate KernelInv(cfg: Config, s: State) {
    && Legal(cfg.hash, Deliveries(s.sent))
    && s.kernel == HeapAfter(cfg.hash, Deliveries(s.sent))
  }

  lemma StillGenuine(cfg: Config, s: State, step: Step, i: nat)
    requires Enabled(cfg, s, step) && i < |s.sent| && Genuine(s, s.sent[i])
    ensures var s' := Next(cfg, s, step); s'.sent[i] == s.sent[i] && Genuine(s', s.sent[i])
  {
    var s' := Next(cfg, s, step);
    assert s'.taken[s.sent[i].block] == s.taken[s.sent[i].block];
  }

  lemma NewlySent(cfg: Config, s: State, step: Step)
    requires Enabled(cfg, s, step) && step.Send?
    ensures var s' := Next(cfg, s, step);
            |s'.sent| == |s.sent| + 1 && Genuine(s', s'.sent[|s.sent|]) && s'.sent[|s.sent|].block == step.child
  {
    SentLineHasSession(CStr(s.taken[step.child]), step.o1, step.o2);
  }

  lemma SendStep(cfg: Config, s: State, step: Step)
    requires SendInv(cfg, s) && Enabled(cfg, s, step)
    ensures SendInv(cfg, Next(cfg, s, step))
  {
    GenuineStep(cfg, s, step);
    if step.Send? {
      NewlySent(cfg, s, step);
    }
  }

  lemma GenuineStep(cfg: Config, s: State, step: Step)
    requires Enabled(cfg, s, step) && forall i :: 0 <= i < |s.sent| ==> Genuine(s, s.sent[i])
    ensures var s' := Next(cfg, s, step);
            forall i :: 0 <= i < |s'.sent| ==> Genuine(s', s'.sent[i])
  {
    var s' := Next(cfg, s, step);
    assert s'.sent[..|s.sent|] == s.sent;
    forall i | 0 <= i < |s'.sent| ensures Genuine(s', s'.sent[i]) {
      if i < |s.sent| {
        StillGenuine(cfg, s, step, i);
      } else {
        NewlySent(cfg, s, step);
      }
    }
  }

  lemma KernelStep(cfg: Config, s: State, step: Step)
    requires KernelInv(cfg, s) && Enabled(cfg, s, step)
    ensures KernelInv(cfg, Next(cfg, s, step))
  {
    if step.Send? {
      var s' := Next(cfg, s, step);
      var ds := Deliveries(s'.sent);
      assert ds[..|ds| - 1] == Deliveries(s.sent);
    }
  }

  /** In every reachable state each block was delivered at most once, as the child's answer to
      it; whatever the interleaving, the table is what the delivered lines make of it one after
      the other, and the blocks of the kernel are conserved. */
  lemma {:induction false} DeliveredInOrder(cfg: Config, steps: seq<Step>)
    requires After(cfg, steps).Some?
    ensures var s := After(cfg, steps).value;
            && SendInv(cfg, s) && KernelInv(cfg, s) && Conserved(s.kernel)
            && Entries(s.kernel.chains) == Run(cfg.hash, Empty(), EntryOps(Deliveries(s.sent)))
  {
    if steps == [] {
      assert Deliveries([]) == [];
    } else {
      var front, step := steps[..|steps| - 1], steps[|steps| - 1];
      DeliveredInOrder(cfg, front);
      SendStep(cfg, After(cfg, front).value, step);
      KernelStep(cfg, After(cfg, front).value, step);
    }
    var s := After(cfg, steps).value;
    EntriesRun(cfg.hash, Deliveries(s.sent));
    BlockConservation(cfg.hash, Deliveries(s.sent));
  }

  /** Two runs that deliver the same messages, in orders that agree on messages sharing a bucket,
      leave the same table. */
  lemma RunsAgree(cfg: Config, run1: seq<Step>, run2: seq<Step>, msgs: seq<Op<Entry>>, p: seq<nat>, q: seq<nat>)
    requires After(cfg, run1).Some? && After(cfg, run2).Some?
    requires Equivalent(cfg.hash, msgs, p, q) && forall i :: 0 <= i < |q| ==> q[i] < |msgs|
    requires EntryOps(Deliveries(After(cfg, run1).value.sent)) == Pick(msgs, p)
    requires EntryOps(Deliveries(After(cfg, run2).value.sent)) == Pick(msgs, q)
    ensures Entries(After(cfg, run1).value.kernel.chains) == Entries(After(cfg, run2).value.kernel.chains)
  {
    DeliveredInOrder(cfg, run1);
    DeliveredInOrder(cfg, run2);
    InterleavingIndependence(cfg.hash, Empty(), msgs, p, q);
  }

  // ----- from what was read to what the kernel does -----

  ghost predicate ReadInv(s: State) {
    && |s.messages| == |s.written| + (if s.parent.HasRead? then 1 else 0)
    && (forall i :: 0 <= i < |s.messages| ==> |s.messages[i]| <= MAX_PAYLOAD)
    && s.buffer == BufferAfter(s.messages)
    && (forall i :: 0 <= i < |s.written| ==> s.written[i] == BufferAfter(s.messages[..i + 1]))
  }

  lemma ReadStep(cfg: Config, s: State, step: Step)
    requires ReadInv(s) && Enabled(cfg, s, step)
    ensures ReadInv(Next(cfg, s, step))
  {
    var s' := Next(cfg, s, step);
    forall i | 0 <= i < |s.written| ensures s'.written[i] == BufferAfter(s'.messages[..i + 1]) {
      assert s'.messages[..i + 1] == s.messages[..i + 1];
    }
    match step
    case Read(msg) => assert s'.messages[..|s.messages|] == s.messages;
    case Write => assert s.messages[..|s.messages|] == s.messages;
    case _ =>
  }

  lemma {:induction false} ReadsWritten(cfg: Config, steps: seq<Step>)
    requires After(cfg, steps).Some?
    ensures ReadInv(After(cfg, steps).value)
  {
    if steps != [] {
      ReadsWritten(cfg, steps[..|steps| - 1]);
      ReadStep(cfg, After(cfg, steps[..|steps| - 1]).value, steps[|steps| - 1]);
    }
  }

  /** Write order is read order: the `i`-th block taken starts with the last message among the
      first `i + 1` reads that was not empty, and so does its text unless the message holds a NUL;
      what follows are bytes left over from longer earlier ones. */
  lemma {:induction false} TakenHoldsRead(cfg: Config, steps: seq<Step>, i: nat)
    requires After(cfg, steps).Some? && i < |After(cfg, steps).value.taken|
    ensures var s := After(cfg, steps).value;
            && i < |s.messages|
            && var said := Current(s.messages[..i + 1]);
               && |said| <= MAX_PAYLOAD && s.taken[i][..|said|] == said
               && (NUL !in said ==> StartsWith(CStr(s.taken[i]), said))
  {
    var s := After(cfg, steps).value;
    PipeState(cfg, steps);
    ReadsWritten(cfg, steps);
    assert s.taken[i] == s.written[i] == BufferAfter(s.messages[..i + 1]);
    CurrentInFront(s.messages[..i + 1]);
  }

  lemma GenuineAt(cfg: Config, steps: seq<Step>, k: nat)
    requires After(cfg, steps).Some? && k < |After(cfg, steps).value.sent|
    ensures Genuine(After(cfg, steps).value, After(cfg, steps).value.sent[k])
  {
    DeliveredInOrder(cfg, steps);
  }

  lemma {:induction false} SentText(cfg: Config, steps: seq<Step>, k: nat, said: string)
    requires After(cfg, steps).Some? && k < |After(cfg, steps).value.sent|
    requires var s := After(cfg, steps).value;
             s.sent[k].block < |s.messages| && Current(s.messages[..s.sent[k].block + 1]) == said && NUL !in said
    ensures var s := After(cfg, steps).value;
            && s.sent[k].block < |s.taken| && StartsWith(CStr(s.taken[s.sent[k].block]), said)
            && Genuine(s, s.sent[k])
  {
    GenuineAt(cfg, steps, k);
    TakenHoldsRead(cfg, steps, After(cfg, steps).value.sent[k].block);
  }

  /** In every run a well-formed request that reaches the kernel does exactly what it says: an `S`
      adds its call's entry with the learned ports, a `D` releases its two keys, whatever was read
      before and in whatever order children run. */
  lemma {:induction false} RequestReachesKernel(cfg: Config, steps: seq<Step>, k: nat, f: seq<string>)
    requires After(cfg, steps).Some? && k < |After(cfg, steps).value.sent|
    requires var s := After(cfg, steps).value;
             && WellFormed(f) && s.sent[k].block < |s.messages|
             && Current(s.messages[..s.sent[k].block + 1]) == Line(f)
    ensures var d := After(cfg, steps).value.sent[k];
            d.done.req == RequestOf(f, d.o1, d.o2)
  {
    var s := After(cfg, steps).value;
    var d := s.sent[k];
    LineIsNulFree(f);
    SentText(cfg, steps, k, Line(f));
    SentMeaning(f, CStr(s.taken[d.block]), d.o1, d.o2, d.unset);
  }

  /** A block written after empty reads makes the kernel perform the last request again. */
  lemma {:induction false} EmptyReadsRepeat(cfg: Config, steps: seq<Step>, k: nat, c: nat, f: seq<string>)
    requires After(cfg, steps).Some? && k < |After(cfg, steps).value.sent|
    requires var s := After(cfg, steps).value;
             && c <= s.sent[k].block < |s.messages| && WellFormed(f) && s.messages[c] == Line(f)
             && forall i :: c < i <= s.sent[k].block ==> s.messages[i] == ""
    ensures var d := After(cfg, steps).value.sent[k];
            d.done.req == RequestOf(f, d.o1, d.o2)
  {
    var s := After(cfg, steps).value;
    CurrentRepeats(s.messages[..s.sent[k].block + 1], c);
    RequestReachesKernel(cfg, steps, k, f);
  }

  /** A delivered block is the buffer as it was when the block was written. */
  lemma BlockIsBuffer(cfg: Config, steps: seq<Step>, k: nat)
    requires After(cfg, steps).Some? && k < |After(cfg, steps).value.sent|
    ensures var s := After(cfg, steps).value; var b := s.sent[k].block;
            && b < |s.messages| && b < |s.taken|
            && (forall i :: 0 <= i < |s.messages| ==> |s.messages[i]| <= MAX_PAYLOAD)
            && s.taken[b] == BufferAfter(s.messages[..b + 1])
            && Delivers(CStr(s.taken[b]), s.sent[k].o1, s.sent[k].o2)
  {
    GenuineAt(cfg, steps, k);
    PipeState(cfg, steps);
    ReadsWritten(cfg, steps);
    var s := After(cfg, steps).value;
    assert s.taken[s.sent[k].block] == s.written[s.sent[k].block];
  }

  /** A message that fills the buffer spoils every later block: none is delivered by a child that
      stays within its arrays, whatever it sees, until a message with a NUL has been read. */
  lemma {:induction false} FullMessageSilences(cfg: Config, steps: seq<Step>, k: nat, c: nat)
    requires After(cfg, steps).Some? && k < |After(cfg, steps).value.sent|
    requires var s := After(cfg, steps).value;
             && c <= s.sent[k].block && c < |s.messages| && |s.messages[c]| == MAX_PAYLOAD && NUL !in s.messages[c]
    ensures var s := After(cfg, steps).value;
            s.sent[k].block < |s.messages| && exists i :: c < i <= s.sent[k].block && NUL in s.messages[i]
  {
    var s := After(cfg, steps).value;
    var b := s.sent[k].block;
    BlockIsBuffer(cfg, steps, k);
    if forall i :: c < i <= b ==> NUL !in s.messages[i] {
      NoNulSince(s.messages[..b + 1], c);
      UnterminatedNeverDelivers(s.taken[b], s.sent[k].o1, s.sent[k].o2);
    }
  }
}
