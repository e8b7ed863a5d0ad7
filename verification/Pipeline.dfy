/** The Python side: UDP requests are queued, and two identical batching consumers hand them on
    to the UNIX socket. Arrivals, clocks, scheduling and send failures are arbitrary. */
module Pipeline {
  import opened Text
  import opened Requests

  // ----- strings -----

  function StripLeft(s: string): string {
    if s != "" && IsSpace(s[0]) then StripLeft(s[1..]) else s
  }

  function StripRight(s: string): string {
    if s != "" && IsSpace(s[|s| - 1]) then StripRight(s[..|s| - 1]) else s
  }

  /** `replace("  ", " ")`: one pass over disjoint pairs. */
  function HalveDoubles(s: string): string {
    if |s| < 2 then s
    else if s[0] == ' ' && s[1] == ' ' then " " + HalveDoubles(s[2..])
    else [s[0]] + HalveDoubles(s[1..])
  }

  /** `strip().replace("  ", " ").split(" ")`. */
  function Fields(data: string): seq<string> {
    Split(HalveDoubles(StripRight(StripLeft(data))), ' ')
  }

  datatype Ingress = Queued | Answered | Rejected

  /** `bind_socket`: what happens to a datagram. */
  function Dispatch(data: string): Ingress {
    var f := Fields(data);
    if data == "" || |f| < 2 || f[0] == "" || f[1] == "" then Rejected
    else if f[1] == "P" || f[1] == "G" then Answered
    else if f[1] == "S" || f[1] == "D" then Queued
    else Rejected
  }

  /** `get_call_id` indexes field 11 whenever there are at least 11 fields. */
  predicate Raises(data: string) {
    |Fields(data)| >= 11 && !(11 < |Fields(data)|)
  }

  /** The request as `data_request_handler` passes it on: split and joined again. */
  function Rejoined(data: string): string {
    Join(Split(data, ' '), ' ')
  }

  lemma {:induction false} NoDoublesToHalve(s: string)
    requires forall i :: 0 <= i < |s| - 1 ==> s[i] != ' ' || s[i + 1] != ' '
    ensures HalveDoubles(s) == s
    decreases |s|
  {
    if |s| >= 2 {
      var rest := s[1..];
      forall i | 0 <= i < |rest| - 1 ensures rest[i] != ' ' || rest[i + 1] != ' ' {
        assert rest[i] == s[i + 1] && rest[i + 1] == s[i + 1 + 1];
      }
      NoDoublesToHalve(rest);
    }
  }

  lemma {:induction false} JoinEnds(ts: seq<string>, c: char)
    requires |ts| >= 1 && ts[0] != "" && ts[|ts| - 1] != ""
    ensures var s := Join(ts, c); var last := ts[|ts| - 1];
            s != "" && s[0] == ts[0][0] && s[|s| - 1] == last[|last| - 1]
    decreases |ts|
  {
    if |ts| == 2 {
      assert Join(ts[1..], c) == ts[1];
    } else if |ts| > 2 {
      JoinTail(ts, c);
    }
  }

  lemma {:induction false} JoinTail(ts: seq<string>, c: char)
    requires |ts| >= 2 && ts[|ts| - 1] != ""
    ensures var s := Join(ts, c); var last := ts[|ts| - 1];
            s != "" && s[|s| - 1] == last[|last| - 1]
    decreases |ts|
  {
    if |ts| == 2 {
      assert Join(ts[1..], c) == ts[1];
    } else {
      JoinTail(ts[1..], c);
    }
  }

  lemma CleanFields(f: seq<string>)
    requires |f| >= 1 && AllClean(f)
    ensures Fields(Line(f)) == f && Line(f) != ""
  {
    var s := Line(f);
    FieldsAreFree(f);
    forall i | 0 <= i < |f| ensures f[i] != "" { assert Clean(f[i]); }
    NoEmptyPieceIff(s);
    assert Clean(f[0]) && Clean(f[|f| - 1]);
    JoinEnds(f, ' ');
    NoDoublesToHalve(s);
  }

  /** An `S` or `D` line is queued however many fields it has, and its handler raises exactly when
      it has 11: every well-formed request passes. */
  lemma QueuedRaisesIff(f: seq<string>)
    requires |f| >= 2 && AllClean(f) && (f[1] == "S" || f[1] == "D")
    ensures Dispatch(Line(f)) == Queued
    ensures Raises(Line(f)) <==> |f| == 11
    ensures WellFormed(f) ==> !Raises(Line(f))
  {
    CleanFields(f);
    assert Clean(f[0]) && Clean(f[1]);
  }

  // ----- any line: padding, double spaces, empty fields -----

  ghost predicate AllSpace(s: string) {
    forall i :: 0 <= i < |s| ==> IsSpace(s[i])
  }

  /** No white space at either end. */
  ghost predicate Trimmed(s: string) {
    s == "" || (!IsSpace(s[0]) && !IsSpace(s[|s| - 1]))
  }

  lemma {:induction false} StripLeftOf(pad: string, s: string)
    requires AllSpace(pad) && (s != "" ==> !IsSpace(s[0]))
    ensures StripLeft(pad + s) == s
    decreases |pad|
  {
    if pad == "" {
      assert pad + s == s;
    } else {
      assert (pad + s)[1..] == pad[1..] + s;
      assert AllSpace(pad[1..]) by {
        forall i | 0 <= i < |pad[1..]| ensures IsSpace(pad[1..][i]) { assert IsSpace(pad[i + 1]); }
      }
      StripLeftOf(pad[1..], s);
    }
  }

  lemma {:induction false} StripRightOf(s: string, pad: string)
    requires AllSpace(pad) && (s != "" ==> !IsSpace(s[|s| - 1]))
    ensures StripRight(s + pad) == s
    decreases |pad|
  {
    if pad == "" {
      assert s + pad == s;
    } else {
      assert (s + pad)[..|s + pad| - 1] == s + pad[..|pad| - 1];
      StripRightOf(s, pad[..|pad| - 1]);
    }
  }

  lemma {:induction false} StripOf(left: string, core: string, right: string)
    requires AllSpace(left) && AllSpace(right) && Trimmed(core)
    ensures StripRight(StripLeft(left + core + right)) == core
  {
    if core == "" {
      assert left + core + right == left + right + "" && AllSpace(left + right);
      StripLeftOf(left + right, "");
    } else {
      assert left + core + right == left + (core + right);
      StripLeftOf(left, core + right);
      StripRightOf(core, right);
    }
  }

  /** The pieces that are left when every second of a run of spaces is dropped: the empty piece
      behind a kept one goes, unless it is the last. */
  function Halved(ts: seq<string>): seq<string> {
    if |ts| < 2 then ts
    else if ts[1] == "" && |ts| > 2 then [ts[0]] + Halved(ts[2..])
    else [ts[0]] + Halved(ts[1..])
  }

  lemma HalvedFront(c: char, ts: seq<string>)
    requires |ts| >= 1
    ensures |Halved(ts)| >= 1 && Halved(ts)[0] == ts[0]
    ensures Halved([[c] + ts[0]] + ts[1..]) == [[c] + ts[0]] + Halved(ts)[1..]
  {
    var us := [[c] + ts[0]] + ts[1..];
    if |ts| >= 2 {
      assert us[1..] == ts[1..] && us[2..] == ts[2..] && us[1] == ts[1];
    }
  }

  lemma SpaceFirst(s: string)
    requires s != "" && s[0] == ' '
    ensures Split(s, ' ') == [""] + Split(s[1..], ' ')
  {
    SplitAt(s, ' ', 0);
  }

  lemma {:induction false} HalvedSpace(s: string)
    requires s != "" && s[0] == ' ' && (|s| > 1 ==> s[1] != ' ')
    ensures Halved(Split(s, ' ')) == [""] + Halved(Split(s[1..], ' '))
  {
    SpaceFirst(s);
    var ts := Split(s[1..], ' ');
    assert ([""] + ts)[1..] == ts;
    if |s| > 1 {
      var i := Find(s[1..], ' ');
      assert i > 0;
    } else {
      SplitOne("", ' ');
    }
  }

  lemma {:induction false} HalvedPair(s: string)
    requires |s| >= 2 && s[0] == ' ' && s[1] == ' '
    ensures Halved(Split(s, ' ')) == [""] + Halved(Split(s[2..], ' '))
  {
    SpaceFirst(s);
    SpaceFirst(s[1..]);
    assert s[1..][1..] == s[2..];
    var ts := Split(s[2..], ' ');
    assert Split(s, ' ')[2..] == ts;
  }

  /** `replace("  ", " ")` seen from the pieces. */
  lemma {:induction false} HalvedPieces(s: string)
    ensures Split(HalveDoubles(s), ' ') == Halved(Split(s, ' '))
    decreases |s|
  {
    if |s| < 2 {
      if s == " " {
        HalvedSpace(s);
        SpaceFirst(s);
      } else {
        SplitOne(s, ' ');
      }
    } else if s[0] == ' ' && s[1] == ' ' {
      HalvedPieces(s[2..]);
      HalvedPair(s);
      SpaceFirst(" " + HalveDoubles(s[2..]));
    } else if s[0] == ' ' {
      HalvedPieces(s[1..]);
      HalvedSpace(s);
      SpaceFirst(" " + HalveDoubles(s[1..]));
    } else {
      var rest := s[1..];
      HalvedPieces(rest);
      assert s == [s[0]] + rest;
      SplitFront([s[0]], rest, ' ');
      SplitFront([s[0]], HalveDoubles(rest), ' ');
      HalvedFront(s[0], Split(rest, ' '));
    }
  }

  /** The fields of any datagram: white space around it is ignored, and the empty piece behind a
      kept one is dropped. */
  lemma {:induction false} FieldsOf(left: string, core: string, right: string)
    requires AllSpace(left) && AllSpace(right) && Trimmed(core)
    ensures Fields(left + core + right) == Halved(Split(core, ' '))
    ensures Raises(left + core + right) <==> |Halved(Split(core, ' '))| == 11
  {
    StripOf(left, core, right);
    HalvedPieces(core);
  }

  lemma {:induction false} HalvedOneEmpty(a: seq<string>, b: seq<string>)
    requires |a| >= 1 && |b| >= 1 && "" !in a && "" !in b
    ensures Halved(a + [""] + b) == a + b
    decreases |a|
  {
    var f := a + [""] + b;
    if |a| == 1 {
      assert f[2..] == b && f[0] == a[0] && f[1] == "";
      HalvedNone(b);
      assert a == [a[0]];
    } else {
      assert f[1..] == a[1..] + [""] + b && f[1] == a[1] && f[0] == a[0];
      HalvedOneEmpty(a[1..], b);
      assert a + b == [a[0]] + (a[1..] + b);
    }
  }

  lemma {:induction false} HalvedNone(f: seq<string>)
    requires "" !in f
    ensures Halved(f) == f
    decreases |f|
  {
    if |f| >= 2 {
      HalvedNone(f[1..]);
    }
  }

  lemma TrimmedLine(f: seq<string>)
    requires |f| >= 1 && Clean(f[0]) && Clean(f[|f| - 1])
    ensures Trimmed(Line(f)) && Line(f) != ""
  {
    JoinEnds(f, ' ');
  }

  lemma NoneEmpty(f: seq<string>)
    requires AllClean(f)
    ensures "" !in f && Free(f, ' ')
  {
    forall i | 0 <= i < |f| ensures f[i] != "" && ' ' !in f[i] {
      assert Clean(f[i]) && IsSpace(' ');
    }
  }

  lemma {:induction false} FieldsOneEmpty(a: seq<string>, b: seq<string>)
    requires |a| >= 1 && |b| >= 1 && AllClean(a) && AllClean(b)
    ensures Fields(Line(a + [""] + b)) == a + b && Line(a + [""] + b) != ""
  {
    NoneEmpty(a);
    NoneEmpty(b);
    assert Clean(a[0]) && Clean(b[|b| - 1]);
    FreeAround(a, b);
    FieldsOfLine(a + [""] + b);
    HalvedOneEmpty(a, b);
  }

  lemma FieldsOfTrimmed(core: string)
    requires Trimmed(core)
    ensures Fields(core) == Halved(Split(core, ' '))
  {
    FieldsOf("", core, "");
    assert "" + core + "" == core;
  }

  lemma FieldsOfLine(f: seq<string>)
    requires |f| >= 1 && Clean(f[0]) && Clean(f[|f| - 1]) && Free(f, ' ')
    ensures Fields(Line(f)) == Halved(f) && Line(f) != ""
  {
    TrimmedLine(f);
    SplitJoin(f, ' ');
    FieldsOfTrimmed(Line(f));
  }

  lemma FreeAround(a: seq<string>, b: seq<string>)
    requires Free(a, ' ') && Free(b, ' ')
    ensures Free(a + [""] + b, ' ')
  {
  }

  /** One empty field shortens the line by a field: an `S` or `D` of twelve fields with one of them
      behind the command empty is queued as eleven, and its handler raises. */
  lemma {:induction false} EmptyFieldRaises(a: seq<string>, b: seq<string>)
    requires |a| >= 2 && |b| >= 1 && |a| + 1 + |b| == 12 && AllClean(a) && AllClean(b)
    requires a[1] == "S" || a[1] == "D"
    ensures Dispatch(Line(a + [""] + b)) == Queued && Raises(Line(a + [""] + b))
  {
    FieldsOneEmpty(a, b);
    assert Clean(a[0]) && (a + b)[0] == a[0] && (a + b)[1] == a[1];
  }

  /** What becomes of any line of clean fields. */
  lemma {:induction false} DispatchIff(f: seq<string>)
    requires |f| >= 1 && AllClean(f)
    ensures Dispatch(Line(f)) == Queued <==> |f| >= 2 && (f[1] == "S" || f[1] == "D")
    ensures Dispatch(Line(f)) == Answered <==> |f| >= 2 && (f[1] == "P" || f[1] == "G")
  {
    CleanFields(f);
    assert Clean(f[0]);
    if |f| >= 2 {
      assert Clean(f[1]);
    }
  }

  // ----- one batching consumer -----

  datatype Pc = AtGet | Deciding | Handing(i: nat) | Crashed(i: nat)

  datatype Stage = Stage(queue: seq<string>, batch: seq<string>, lastGet: real, pc: Pc, handled: seq<string>)
  {
    /** What of the batch has not been handed on. */
    function Rest(): seq<string> {
      match pc
      case Handing(i) => if i <= |batch| then batch[i..] else []
      case Crashed(i) => if i <= |batch| then batch[i..] else []
      case _ => batch
    }

    /** Requests in the queue and in the batch. */
    function Backlog(): nat {
      |queue| + |batch|
    }

    function Put(data: string): Stage {
      this.(queue := queue + [data])
    }
  }

  const IDLE: Stage := Stage([], [], 0.0, AtGet, [])

  /** The atomic actions of the loop, with the clock readings they use. */
  datatype Act = Get(now: real) | Decide(now: real) | Hand | Finish

  predicate CanAct(st: Stage, act: Act) {
    match act
    case Get(_) => st.pc.AtGet? && st.queue != []
    case Decide(_) => st.pc.Deciding?
    case Hand => st.pc.Handing? && st.pc.i < |st.batch|
    case Finish => st.pc.Handing? && st.pc.i == |st.batch|
  }

  /** `fails` says on which requests the handler raises, which ends the thread. */
  function Do(fails: string -> bool, st: Stage, act: Act): Stage
    requires CanAct(st, act)
  {
    match act
    case Get(now) =>
      Stage(st.queue[1..], st.batch + [st.queue[0]], if st.batch == [] then now else st.lastGet, Deciding, st.handled)
    case Decide(now) =>
      st.(pc := if now - st.lastGet < 1.0 && st.queue != [] then AtGet else Handing(0))
    case Hand =>
      if fails(st.batch[st.pc.i]) then st.(pc := Crashed(st.pc.i))
      else st.(handled := st.handled + [st.batch[st.pc.i]], pc := Handing(st.pc.i + 1))
    case Finish =>
      st.(batch := [], pc := AtGet)
  }

  /** Everything put so far is handled, in the batch or in the queue, in that order; a consumer
      waiting on an empty queue has an empty batch; it crashes only on a request that raises. */
  ghost predicate StageInv(fails: string -> bool, st: Stage, puts: seq<string>) {
    && st.handled + st.Rest() + st.queue == puts
    && (st.pc.AtGet? && st.queue == [] ==> st.batch == [])
    && (st.pc.Handing? ==> st.pc.i <= |st.batch|)
    && (st.pc.Crashed? ==> st.pc.i < |st.batch| && fails(st.batch[st.pc.i]))
    && (forall i :: 0 <= i < |st.handled| ==> !fails(st.handled[i]))
  }

  lemma StagePut(fails: string -> bool, st: Stage, puts: seq<string>, data: string)
    requires StageInv(fails, st, puts)
    ensures StageInv(fails, st.Put(data), puts + [data])
  {
    assert st.handled + st.Rest() + (st.queue + [data]) == puts + [data];
  }

  lemma StageGet(fails: string -> bool, st: Stage, puts: seq<string>, now: real)
    requires StageInv(fails, st, puts) && CanAct(st, Get(now))
    ensures StageInv(fails, Do(fails, st, Get(now)), puts)
  {
    var x, rest := st.queue[0], st.queue[1..];
    assert st.queue == [x] + rest;
    assert st.handled + (st.batch + [x]) + rest == st.handled + st.batch + ([x] + rest);
  }

  lemma StageHand(fails: string -> bool, st: Stage, puts: seq<string>)
    requires StageInv(fails, st, puts) && CanAct(st, Hand)
    ensures StageInv(fails, Do(fails, st, Hand), puts)
  {
    var x, rest := st.batch[st.pc.i], st.batch[st.pc.i + 1..];
    assert st.batch[st.pc.i..] == [x] + rest;
    assert st.handled + ([x] + rest) == st.handled + [x] + rest;
  }

  lemma StageAct(fails: string -> bool, st: Stage, puts: seq<string>, act: Act)
    requires StageInv(fails, st, puts) && CanAct(st, act)
    ensures StageInv(fails, Do(fails, st, act), puts)
  {
    match act
    case Get(now) => StageGet(fails, st, puts, now);
    case Decide(now) => assert st.batch[0..] == st.batch;
    case Hand => StageHand(fails, st, puts);
    case Finish =>
  }

  /** Bounds the actions a stage can still take without new input. */
  function Work(st: Stage): nat {
    4 * |st.queue| + |st.Rest()| + (match st.pc case Deciding => 2 case Handing(_) => 1 case _ => 0)
  }

  // ----- the imperative consumer -----

  /** The rest of a pass through the loop, from the `for` over the batch on. */
  function HandAll(fails: string -> bool, st: Stage): Stage
    requires st.pc.Handing? && st.pc.i <= |st.batch|
    decreases |st.batch| - st.pc.i
  {
    if st.pc.i == |st.batch| then Do(fails, st, Finish)
    else
      var next := Do(fails, st, Hand);
      if next.pc.Crashed? then next else HandAll(fails, next)
  }

  /** One pass through the loop body, with the requests that arrive before the decision and
      those that arrive after it. */
  function Pass(fails: string -> bool, st: Stage, now: real, early: seq<string>, later: real, late: seq<string>): Stage
    requires CanAct(st, Get(now))
  {
    var got := Do(fails, st, Get(now));
    var decided := Do(fails, got.(queue := got.queue + early), Decide(later));
    if decided.pc.AtGet? then decided else HandAll(fails, decided.(queue := decided.queue + late))
  }

  lemma StagePutAll(fails: string -> bool, st: Stage, puts: seq<string>, more: seq<string>)
    requires StageInv(fails, st, puts)
    ensures StageInv(fails, st.(queue := st.queue + more), puts + more)
  {
    assert st.handled + st.Rest() + (st.queue + more) == st.handled + st.Rest() + st.queue + more;
  }

  lemma {:induction false} HandAllKeeps(fails: string -> bool, st: Stage, puts: seq<string>)
    requires StageInv(fails, st, puts) && st.pc.Handing? && st.pc.i <= |st.batch|
    ensures StageInv(fails, HandAll(fails, st), puts)
    ensures !HandAll(fails, st).pc.Crashed? ==> HandAll(fails, st).pc.AtGet? && HandAll(fails, st).batch == []
    decreases |st.batch| - st.pc.i
  {
    if st.pc.i == |st.batch| {
      StageAct(fails, st, puts, Finish);
    } else {
      StageAct(fails, st, puts, Hand);
      if !Do(fails, st, Hand).pc.Crashed? {
        HandAllKeeps(fails, Do(fails, st, Hand), puts);
      }
    }
  }

  /** A pass through the loop loses, repeats and reorders nothing, and leaves requests in the
      batch only when the queue is not empty or the thread has ended. */
  lemma PassKeepsOrder(fails: string -> bool, st: Stage, puts: seq<string>, now: real, early: seq<string>,
                       later: real, late: seq<string>)
    requires StageInv(fails, st, puts) && CanAct(st, Get(now))
    ensures var r := Pass(fails, st, now, early, later, late);
            && (StageInv(fails, r, puts + early) || StageInv(fails, r, puts + early + late))
            && (r.pc.Crashed? || (r.pc.AtGet? && (r.batch == [] || r.queue != [])))
  {
    StageAct(fails, st, puts, Get(now));
    var got := Do(fails, st, Get(now));
    StagePutAll(fails, got, puts, early);
    var got' := got.(queue := got.queue + early);
    StageAct(fails, got', puts + early, Decide(later));
    var decided := Do(fails, got', Decide(later));
    if decided.pc.Handing? {
      StagePutAll(fails, decided, puts + early, late);
      HandAllKeeps(fails, decided.(queue := decided.queue + late), puts + early + late);
    }
  }

  lemma UntilFailsFirst(fails: string -> bool, x: string, rest: seq<string>)
    ensures UntilFails(fails, [x] + rest) == if fails(x) then [] else [x] + UntilFails(fails, rest)
  {
    assert ([x] + rest)[1..] == rest;
  }

  /** `done` of the batch is handed on from position `i`. */
  ghost predicate HandsOn(st: Stage, r: Stage, i: nat, done: seq<string>)
    requires i <= |st.batch|
  {
    && r.handled == st.handled + done && r.queue == st.queue && r.lastGet == st.lastGet
    && (if i + |done| == |st.batch| then r.pc == AtGet && r.batch == []
        else r.pc == Crashed(i + |done|) && r.batch == st.batch)
  }

  lemma HandsOnNext(st: Stage, next: Stage, r: Stage, i: nat, x: string, done: seq<string>)
    requires i < |st.batch| && next == st.(handled := st.handled + [x], pc := Handing(i + 1))
    requires HandsOn(next, r, i + 1, done)
    ensures HandsOn(st, r, i, [x] + done)
  {
    assert st.handled + [x] + done == st.handled + ([x] + done);
  }

  lemma {:induction false} HandAllDoes(fails: string -> bool, st: Stage)
    requires st.pc.Handing? && st.pc.i <= |st.batch|
    ensures HandsOn(st, HandAll(fails, st), st.pc.i, UntilFails(fails, st.batch[st.pc.i..]))
    decreases |st.batch| - st.pc.i
  {
    var i := st.pc.i;
    if i < |st.batch| {
      var x, rest := st.batch[i], st.batch[i + 1..];
      assert st.batch[i..] == [x] + rest;
      UntilFailsFirst(fails, x, rest);
      var next := Do(fails, st, Hand);
      if !fails(x) {
        HandAllDoes(fails, next);
        HandsOnNext(st, next, HandAll(fails, next), i, x, UntilFails(fails, rest));
      }
    }
  }

  /** What one pass does: the next request joins the batch; while less than a second has passed
      since the batch was begun and others wait, the batch is kept; otherwise all of it is handed
      on, or what stands before the first request that raises, which ends the thread. */
  lemma {:induction false} PassDoes(fails: string -> bool, st: Stage, now: real, early: seq<string>,
                                    later: real, late: seq<string>)
    requires CanAct(st, Get(now))
    ensures var r := Pass(fails, st, now, early, later, late);
            var batch, waiting := st.batch + [st.queue[0]], st.queue[1..] + early;
            var begun, done := if st.batch == [] then now else st.lastGet, UntilFails(fails, batch);
            && r.lastGet == begun
            && if later - begun < 1.0 && waiting != []
               then r.pc == AtGet && r.batch == batch && r.handled == st.handled && r.queue == waiting
               else && r.handled == st.handled + done && r.queue == waiting + late
                    && if |done| == |batch| then r.pc == AtGet && r.batch == []
                       else r.pc == Crashed(|done|) && r.batch == batch
  {
    var batch := st.batch + [st.queue[0]];
    var got := Do(fails, st, Get(now));
    var decided := Do(fails, got.(queue := got.queue + early), Decide(later));
    if decided.pc.Handing? {
      assert batch[0..] == batch;
      HandAllDoes(fails, decided.(queue := decided.queue + late));
    }
  }

  /** One consumer with its queue; `fails` says on which requests its handler raises. */
  class Consumer {
    const fails: string -> bool
    var queue: seq<string>
    var localRequests: seq<string>
    var lastGetTime: real
    var running: bool
    var passedOn: seq<string>   // the requests its handler returned from
    ghost var stage: Stage

    ghost predicate Valid()
      reads this
    {
      && stage.queue == queue && stage.batch == localRequests && stage.lastGet == lastGetTime
      && stage.handled == passedOn && running == !stage.pc.Crashed?
      && (running ==> stage.pc.AtGet?)
    }

    constructor (fails: string -> bool)
      ensures Valid() && stage == IDLE && this.fails == fails
    {
      this.fails := fails;
      queue, localRequests, lastGetTime, running, passedOn := [], [], 0.0, true, [];
      stage := IDLE;
    }

    method Put(data: string)
      requires Valid()
      modifies this`queue, this`stage
      ensures Valid() && stage == old(stage).Put(data)
    {
      queue := queue + [data];
      stage := stage.Put(data);
    }

    /** One pass through the loop of the running consumer; `get` has returned because the queue
        is not empty. */
    method Turn(now: real, early: seq<string>, later: real, late: seq<string>)
      requires Valid() && running && queue != []
      modifies this
      ensures Valid() && stage == Pass(fails, old(stage), now, early, later, late)
    {
      ghost var target := Pass(fails, stage, now, early, later, late);
      var req := queue[0];
      queue := queue[1..];
      if |localRequests| == 0 {
        lastGetTime := now;
      }
      localRequests := localRequests + [req];
      queue := queue + early;
      if later - lastGetTime < 1.0 && |queue| > 0 {
        stage := target;
        return;
      }
      queue := queue + late;
      stage := Stage(queue, localRequests, lastGetTime, Handing(0), passedOn);
      assert HandAll(fails, stage) == target;
      HandOn();
    }

    /** The `for` loop over the batch. */
    method HandOn()
      requires running && stage == Stage(queue, localRequests, lastGetTime, Handing(0), passedOn)
      modifies this
      ensures Valid() && stage == HandAll(fails, old(stage))
    {
      var batch := localRequests;
      for i := 0 to |batch|
        invariant running && localRequests == batch
        invariant stage == Stage(queue, batch, lastGetTime, Handing(i), passedOn)
        invariant HandAll(fails, stage) == HandAll(fails, old(stage))
      {
        stage := Do(fails, stage, Hand);
        if fails(batch[i]) {
          running := false;
          return;
        }
        passedOn := passedOn + [batch[i]];
      }
      localRequests := [];
      stage := Do(fails, stage, Finish);
    }
  }

  // ----- both stages -----

  datatype System = System(
    accepted: seq<string>,    // the S and D datagrams queued, in arrival order
    first: Stage,
    second: Stage,
    delivered: seq<bool>,     // for each request handled by the second stage, did `send` succeed
    sent: seq<string>)        // the byte strings sent on the UNIX socket

  const START: System := System([], IDLE, IDLE, [], [])

  datatype Event = Arrive(data: string) | First(act: Act) | Second(act: Act, sends: bool)

  predicate Never(data: string) { false }

  predicate Can(s: System, e: Event) {
    match e
    case Arrive(_) => true
    case First(act) => CanAct(s.first, act)
    case Second(act, _) => CanAct(s.second, act)
  }

  function Next(s: System, e: Event): System
    requires Can(s, e)
  {
    match e
    case Arrive(data) =>
      if Dispatch(data) != Queued then s
      else s.(accepted := s.accepted + [data], first := s.first.Put(data))
    case First(act) =>
      var first := Do(Raises, s.first, act);
      if act == Hand && !first.pc.Crashed?
      then s.(first := first, second := s.second.Put(Rejoined(s.first.batch[s.first.pc.i])))
      else s.(first := first)
    case Second(act, sends) =>
      var s' := s.(second := Do(Never, s.second, act));
      if act != Hand then s'
      else
        var data := s.second.batch[s.second.pc.i];
        s'.(delivered := s.delivered + [sends], sent := if sends then s.sent + [data] else s.sent)
  }

  predicate CanRun(s: System, events: seq<Event>)
    decreases |events|
  {
    events == [] || (Can(s, events[0]) && CanRun(Next(s, events[0]), events[1..]))
  }

  function Run(s: System, events: seq<Event>): System
    requires CanRun(s, events)
    decreases |events|
  {
    if events == [] then s else Run(Next(s, events[0]), events[1..])
  }

  function Kept(xs: seq<string>, flags: seq<bool>): seq<string>
    requires |flags| == |xs|
  {
    if xs == [] then []
    else
      var n := |xs| - 1;
      Kept(xs[..n], flags[..n]) + (if flags[n] then [xs[n]] else [])
  }

  // ----- the state is what the events make of it -----

  function Admitted(e: Event): seq<string> {
    if e.Arrive? && Dispatch(e.data) == Queued then [e.data] else []
  }

  /** The datagrams queued, in the order in which they arrived. */
  function Accepted(events: seq<Event>): seq<string> {
    if events == [] then [] else Admitted(events[0]) + Accepted(events[1..])
  }

  function SendResult(e: Event): seq<bool> {
    if e.Second? && e.act == Hand then [e.sends] else []
  }

  /** For each request the second stage handled, did `send` succeed. */
  function SendResults(events: seq<Event>): seq<bool> {
    if events == [] then [] else SendResult(events[0]) + SendResults(events[1..])
  }

  lemma StepLogs(s: System, e: Event)
    requires Can(s, e)
    ensures Next(s, e).accepted == s.accepted + Admitted(e)
    ensures Next(s, e).delivered == s.delivered + SendResult(e)
  {
  }

  lemma Associates<T>(a: seq<T>, b: seq<T>, c: seq<T>)
    ensures a + b + c == a + (b + c)
  {
  }

  /** The log of accepted requests holds exactly the queued datagrams, and the log of deliveries
      exactly the results of the sends. */
  lemma {:induction false} RunLogs(s: System, events: seq<Event>)
    requires CanRun(s, events)
    ensures Run(s, events).accepted == s.accepted + Accepted(events)
    ensures Run(s, events).delivered == s.delivered + SendResults(events)
    decreases |events|
  {
    if events != [] {
      var e, rest := events[0], events[1..];
      StepLogs(s, e);
      RunLogs(Next(s, e), rest);
      Associates(s.accepted, Admitted(e), Accepted(rest));
      Associates(s.delivered, SendResult(e), SendResults(rest));
    }
  }

  /** The actions of one consumer. */
  function ActsOf(events: seq<Event>, second: bool): seq<Act> {
    if events == [] then []
    else
      (match events[0]
       case Arrive(_) => []
       case First(act) => if second then [] else [act]
       case Second(act, _) => if second then [act] else []) + ActsOf(events[1..], second)
  }

  function BegunBy(since: Option<real>, act: Act): Option<real> {
    match act
    case Get(now) => if since.None? then Some(now) else since
    case Finish => None
    case _ => since
  }

  /** When the batch at hand was begun: the clock at the first `get` since the last batch ended. */
  function Begun(since: Option<real>, acts: seq<Act>): Option<real>
    decreases |acts|
  {
    if acts == [] then since else Begun(BegunBy(since, acts[0]), acts[1..])
  }

  ghost predicate Clocked(st: Stage, since: Option<real>) {
    && (st.batch == [] <==> since.None?) && (since.Some? ==> st.lastGet == since.value)
    && (st.pc.Deciding? ==> st.batch != [])
  }

  lemma ActClocked(fails: string -> bool, st: Stage, act: Act, since: Option<real>)
    requires Clocked(st, since) && CanAct(st, act)
    ensures Clocked(Do(fails, st, act), BegunBy(since, act))
  {
  }

  lemma BegunFirst(since: Option<real>, act: Act, rest: seq<Act>)
    ensures Begun(since, [act] + rest) == Begun(BegunBy(since, act), rest)
  {
    assert ([act] + rest)[1..] == rest;
  }

  lemma {:induction false} FirstClocked(s: System, events: seq<Event>, since: Option<real>)
    requires CanRun(s, events) && Clocked(s.first, since)
    ensures Clocked(Run(s, events).first, Begun(since, ActsOf(events, false)))
    decreases |events|
  {
    if events != [] {
      var e := events[0];
      if e.First? {
        ActClocked(Raises, s.first, e.act, since);
        BegunFirst(since, e.act, ActsOf(events[1..], false));
        FirstClocked(Next(s, e), events[1..], BegunBy(since, e.act));
      } else {
        FirstClocked(Next(s, e), events[1..], since);
        assert ActsOf(events, false) == ActsOf(events[1..], false);
      }
    }
  }

  lemma {:induction false} SecondClocked(s: System, events: seq<Event>, since: Option<real>)
    requires CanRun(s, events) && Clocked(s.second, since)
    ensures Clocked(Run(s, events).second, Begun(since, ActsOf(events, true)))
    decreases |events|
  {
    if events != [] {
      var e := events[0];
      if e.Second? {
        ActClocked(Never, s.second, e.act, since);
        BegunFirst(since, e.act, ActsOf(events[1..], true));
        SecondClocked(Next(s, e), events[1..], BegunBy(since, e.act));
      } else {
        SecondClocked(Next(s, e), events[1..], since);
        assert ActsOf(events, true) == ActsOf(events[1..], true);
      }
    }
  }

  /** Over all runs: a consumer waits for more only while others are queued and its batch is less
      than a second old; else it hands the batch on from its first request. */
  lemma {:induction false} AgeRule(events: seq<Event>, now: real, sends: bool)
    requires CanRun(START, events)
    ensures var s := Run(START, events); var since := Begun(None, ActsOf(events, false));
            s.first.pc.Deciding? ==>
              && since.Some?
              && Next(s, First(Decide(now))).first.pc
                 == if now - since.value < 1.0 && s.first.queue != [] then AtGet else Handing(0)
    ensures var s := Run(START, events); var since := Begun(None, ActsOf(events, true));
            s.second.pc.Deciding? ==>
              && since.Some?
              && Next(s, Second(Decide(now), sends)).second.pc
                 == if now - since.value < 1.0 && s.second.queue != [] then AtGet else Handing(0)
  {
    FirstClocked(START, events, None);
    SecondClocked(START, events, None);
  }

  /** A datagram can arrive at any time. */
  lemma {:induction false} AnyArrival(s: System, events: seq<Event>, data: string)
    requires CanRun(s, events)
    ensures CanRun(s, events + [Arrive(data)])
    ensures Run(s, events + [Arrive(data)]).accepted
         == Run(s, events).accepted + if Dispatch(data) == Queued then [data] else []
    decreases |events|
  {
    if events == [] {
      assert (events + [Arrive(data)])[1..] == [];
    } else {
      assert (events + [Arrive(data)])[1..] == events[1..] + [Arrive(data)];
      AnyArrival(Next(s, events[0]), events[1..], data);
    }
  }

  ghost predicate Inv(s: System) {
    && StageInv(Raises, s.first, s.accepted)
    && StageInv(Never, s.second, s.first.handled)
    && |s.delivered| == |s.second.handled| && s.sent == Kept(s.second.handled, s.delivered)
  }

  lemma {:induction false} StepKeepsInv(s: System, e: Event)
    requires Inv(s) && Can(s, e)
    ensures Inv(Next(s, e))
  {
    match e
    case Arrive(data) =>
      StagePut(Raises, s.first, s.accepted, data);
    case First(act) =>
      StageAct(Raises, s.first, s.accepted, act);
      if act == Hand {
        var data := s.first.batch[s.first.pc.i];
        JoinSplit(data, ' ');
        StagePut(Never, s.second, s.first.handled, data);
      }
    case Second(act, sends) =>
      StageAct(Never, s.second, s.first.handled, act);
      var h, h' := s.second.handled, Next(s, e).second.handled;
      if act == Hand {
        assert h'[..|h|] == h && (s.delivered + [sends])[..|h|] == s.delivered;
      }
  }

  lemma {:induction false} RunKeepsInv(s: System, events: seq<Event>)
    requires Inv(s) && CanRun(s, events)
    ensures Inv(Run(s, events))
    decreases |events|
  {
    if events != [] {
      StepKeepsInv(s, events[0]);
      RunKeepsInv(Next(s, events[0]), events[1..]);
    }
  }

  /** Positions in `xs`, in increasing order, at which the elements of `ys` stand. */
  ghost predicate Embeds(at: seq<nat>, ys: seq<string>, xs: seq<string>) {
    && |at| == |ys|
    && (forall i :: 0 <= i < |at| ==> at[i] < |xs| && xs[at[i]] == ys[i])
    && (forall i, j :: 0 <= i < j < |at| ==> at[i] < at[j])
  }

  lemma EmbedsMore(at: seq<nat>, ys: seq<string>, xs: seq<string>, x: string)
    requires Embeds(at, ys, xs)
    ensures Embeds(at, ys, xs + [x]) && Embeds(at + [|xs|], ys + [x], xs + [x])
  {
  }

  lemma EmbedsInLonger(at: seq<nat>, ys: seq<string>, xs: seq<string>, more: seq<string>)
    requires Embeds(at, ys, xs)
    ensures Embeds(at, ys, xs + more)
  {
  }

  lemma {:induction false} KeptEmbeds(xs: seq<string>, flags: seq<bool>) returns (at: seq<nat>)
    requires |flags| == |xs|
    ensures Embeds(at, Kept(xs, flags), xs)
  {
    at := [];
    if xs != [] {
      var n := |xs| - 1;
      at := KeptEmbeds(xs[..n], flags[..n]);
      EmbedsMore(at, Kept(xs[..n], flags[..n]), xs[..n], xs[n]);
      assert xs == xs[..n] + [xs[n]];
      if flags[n] {
        at := at + [n];
      }
    }
  }

  lemma {:induction false} KeptAll(xs: seq<string>, flags: seq<bool>)
    requires |flags| == |xs|
    ensures Kept(xs, flags) == xs <==> forall i :: 0 <= i < |flags| ==> flags[i]
    ensures |Kept(xs, flags)| <= |xs|
  {
    if xs != [] {
      var n := |xs| - 1;
      KeptAll(xs[..n], flags[..n]);
      assert xs == xs[..n] + [xs[n]];
    }
  }

  /** Accepted but not yet sent or dropped: second batch, second queue, first batch, first queue. */
  function Pending(s: System): seq<string> {
    s.second.Rest() + s.second.queue + s.first.Rest() + s.first.queue
  }

  lemma Regrouped(a: seq<string>, b: seq<string>, c: seq<string>, d: seq<string>, e: seq<string>)
    ensures a + b + c + d + e == a + (b + c + d + e)
  {
  }

  /** In every reachable state the accepted requests, which are the `S` and `D` datagrams that
      arrived, are in arrival order those sent or dropped,
      those in the second batch and queue, and those in the first batch and queue. What was sent
      is an order-preserving subsequence of them, each string unchanged, and lacks only requests
      for which `send` raised: no `D` overtakes an earlier `S`. */
  lemma {:induction false} TwoStageOrder(events: seq<Event>) returns (at: seq<nat>)
    requires CanRun(START, events)
    ensures var s := Run(START, events);
            && s.accepted == Accepted(events) && s.delivered == SendResults(events)
            && s.accepted == s.second.handled + Pending(s)
            && Embeds(at, s.sent, s.accepted)
            && |s.delivered| == |s.second.handled| && s.sent == Kept(s.second.handled, s.delivered)
            && (s.sent == s.second.handled <==> forall i :: 0 <= i < |s.delivered| ==> s.delivered[i])
  {
    RunKeepsInv(START, events);
    RunLogs(START, events);
    var s := Run(START, events);
    at := KeptEmbeds(s.second.handled, s.delivered);
    KeptAll(s.second.handled, s.delivered);
    Regrouped(s.second.handled, s.second.Rest(), s.second.queue, s.first.Rest(), s.first.queue);
    EmbedsInLonger(at, s.sent, s.second.handled, Pending(s));
  }

  /** No consumer waits on an empty queue with requests in its batch. */
  lemma {:induction false} NoStrandedBatch(events: seq<Event>)
    requires CanRun(START, events)
    ensures var s := Run(START, events);
            && (s.first.pc.AtGet? && s.first.queue == [] ==> s.first.batch == [])
            && (s.second.pc.AtGet? && s.second.queue == [] ==> s.second.batch == [])
  {
    RunKeepsInv(START, events);
  }

  // ----- draining -----

  /** The requests in front of the first one on which the handler raises. */
  function UntilFails(fails: string -> bool, xs: seq<string>): (r: seq<string>)
    ensures r <= xs
    ensures r == xs <==> forall i :: 0 <= i < |xs| ==> !fails(xs[i])
  {
    if xs == [] || fails(xs[0]) then []
    else
      var r := UntilFails(fails, xs[1..]);
      assert forall i :: 0 <= i < |xs[1..]| ==> xs[1..][i] == xs[i + 1];
      assert xs == [xs[0]] + xs[1..];
      [xs[0]] + r
  }

  lemma {:induction false} UntilFailsAt(fails: string -> bool, a: seq<string>, b: seq<string>)
    requires forall i :: 0 <= i < |a| ==> !fails(a[i])
    requires b != [] ==> fails(b[0])
    ensures UntilFails(fails, a + b) == a
  {
    if a == [] {
      assert a + b == b;
    } else {
      assert (a + b)[1..] == a[1..] + b;
      UntilFailsAt(fails, a[1..], b);
    }
  }

  function TotalWork(s: System): nat {
    5 * Work(s.first) + Work(s.second)
  }

  lemma ActWorks(fails: string -> bool, st: Stage, puts: seq<string>, act: Act)
    requires StageInv(fails, st, puts) && CanAct(st, act)
    ensures Work(Do(fails, st, act)) < Work(st)
  {
  }

  lemma StepWorks(s: System, e: Event)
    requires Inv(s) && Can(s, e) && !e.Arrive?
    ensures TotalWork(Next(s, e)) < TotalWork(s)
  {
    match e
    case First(act) =>
      ActWorks(Raises, s.first, s.accepted, act);
      if act == Hand && !Raises(s.first.batch[s.first.pc.i]) {
        HandWorks(Raises, s.first);
      }
    case Second(act, _) => ActWorks(Never, s.second, s.first.handled, act);
  }

  lemma HandWorks(fails: string -> bool, st: Stage)
    requires CanAct(st, Hand) && !fails(st.batch[st.pc.i])
    ensures Work(Do(fails, st, Hand)) == Work(st) - 1
  {
  }

  /** Every consumer action uses up work, so without arrivals at most `TotalWork` of them are
      possible. */
  lemma {:induction false} DrainEnds(s: System, events: seq<Event>)
    requires Inv(s) && CanRun(s, events)
    requires forall i :: 0 <= i < |events| ==> !events[i].Arrive?
    ensures TotalWork(Run(s, events)) + |events| <= TotalWork(s)
    decreases |events|
  {
    if events != [] {
      StepKeepsInv(s, events[0]);
      StepWorks(s, events[0]);
      DrainEnds(Next(s, events[0]), events[1..]);
    }
  }

  ghost predicate Drained(s: System) {
    forall e :: Can(s, e) ==> e.Arrive?
  }

  /** A stage can act unless it waits on an empty queue or has crashed. */
  lemma CanActIff(st: Stage)
    requires st.pc.Handing? ==> st.pc.i <= |st.batch|
    ensures (exists act :: CanAct(st, act)) <==> !st.pc.Crashed? && !(st.pc.AtGet? && st.queue == [])
  {
    match st.pc
    case AtGet => if st.queue != [] { assert CanAct(st, Get(0.0)); }
    case Deciding => assert CanAct(st, Decide(0.0));
    case Handing(i) => assert if i < |st.batch| then CanAct(st, Hand) else CanAct(st, Finish);
    case Crashed(_) =>
  }

  /** A stage that cannot act has handed on all its input in front of the first request on which
      its handler raises, and has nothing left if there is none. */
  lemma StageStuck(fails: string -> bool, st: Stage, puts: seq<string>)
    requires StageInv(fails, st, puts) && forall act :: !CanAct(st, act)
    ensures st.handled == UntilFails(fails, puts)
    ensures st.handled == puts <==> st.queue == [] && st.batch == []
  {
    CanActIff(st);
    var rest := st.Rest() + st.queue;
    assert st.handled + rest == puts;
    UntilFailsAt(fails, st.handled, rest);
  }

  lemma {:induction false} DrainedState(events: seq<Event>)
    requires CanRun(START, events) && Drained(Run(START, events))
    ensures var s := Run(START, events);
            && s.second.handled == UntilFails(Raises, s.accepted)
            && s.second.Backlog() == 0
            && ((forall i :: 0 <= i < |s.accepted| ==> |Fields(s.accepted[i])| != 11)
                <==> s.second.handled == s.accepted && s.first.Backlog() == 0)
  {
    RunKeepsInv(START, events);
    var s := Run(START, events);
    forall act ensures !CanAct(s.first, act) && !CanAct(s.second, act) {
      assert !Can(s, First(act)) && !Can(s, Second(act, true));
    }
    StageStuck(Raises, s.first, s.accepted);
    StageStuck(Never, s.second, s.first.handled);
    assert s.second.handled == s.first.handled;
    forall i | 0 <= i < |s.accepted| ensures Raises(s.accepted[i]) <==> |Fields(s.accepted[i])| == 11 {}
  }

  /** Once no consumer can act, both stages have handed the requests on in order, up to the first
      with exactly 11 fields, which ends the first consumer; all of them, with every queue and
      batch empty, if and only if no accepted request has exactly 11 fields. */
  lemma {:induction false} DrainsExactly(events: seq<Event>)
    requires CanRun(START, events) && Drained(Run(START, events))
    ensures var s := Run(START, events);
            && s.accepted == Accepted(events)
            && s.second.handled == UntilFails(Raises, s.accepted)
            && s.second.Backlog() == 0
            && ((forall i :: 0 <= i < |s.accepted| ==> |Fields(s.accepted[i])| != 11)
                <==> s.second.handled == s.accepted && s.first.Backlog() == 0)
  {
    RunLogs(START, events);
    DrainedState(events);
  }
}
