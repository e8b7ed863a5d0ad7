/** The user-space process: the read buffer that is zeroed only once, the ports learned from the
    two legs, and the child that reprints a line for the kernel. */
module UserSpace {
  import opened Words
  import opened Text
  import opened NatTable
  import opened Requests

  type Block = b: seq<char> | |b| == MAX_PAYLOAD witness seq(MAX_PAYLOAD, (i: nat) => NUL)

  function Zeroed(): Block {
    seq(MAX_PAYLOAD, i => NUL)
  }

  /** The C string at the start of a block. */
  function CStr(b: seq<char>): string {
    b[..Find(b, NUL)]
  }

  // ----- the reused read buffer -----

  function Overwrite(b: Block, msg: string): Block
    requires |msg| <= MAX_PAYLOAD
  {
    msg + b[|msg|..]
  }

  /** `read` into the buffer: bytes behind the message keep what earlier messages left there. */
  method ReadInto(buffer: array<char>, msg: string)
    requires buffer.Length == MAX_PAYLOAD && |msg| <= MAX_PAYLOAD
    modifies buffer
    ensures buffer[..] == Overwrite(old(buffer[..]), msg)
  {
    for i := 0 to |msg|
      invariant buffer[..i] == msg[..i]
      invariant buffer[i..] == old(buffer[..])[i..]
    {
      buffer[i] := msg[i];
    }
    assert buffer[..] == buffer[..|msg|] + buffer[|msg|..];
  }

  /** What `read` returned each time, without a NUL byte. */
  ghost predicate NulFree(msgs: seq<string>) {
    forall i :: 0 <= i < |msgs| ==> |msgs[i]| <= MAX_PAYLOAD && NUL !in msgs[i]
  }

  lemma NulFreeOneMore(msgs: seq<string>, msg: string)
    requires NulFree(msgs) && |msg| <= MAX_PAYLOAD && NUL !in msg
    ensures NulFree(msgs + [msg])
  {
  }

  /** The buffer after reading these messages one after the other. */
  function BufferAfter(msgs: seq<string>): Block
    requires forall i :: 0 <= i < |msgs| ==> |msgs[i]| <= MAX_PAYLOAD
  {
    if msgs == [] then Zeroed() else Overwrite(BufferAfter(msgs[..|msgs| - 1]), msgs[|msgs| - 1])
  }

  function Longest(msgs: seq<string>): nat {
    if msgs == [] then 0
    else
      var n := Longest(msgs[..|msgs| - 1]);
      if |msgs[|msgs| - 1]| > n then |msgs[|msgs| - 1]| else n
  }

  lemma {:induction false} BufferShape(msgs: seq<string>)
    requires NulFree(msgs)
    ensures Longest(msgs) <= MAX_PAYLOAD
    ensures forall k :: 0 <= k < MAX_PAYLOAD ==> (BufferAfter(msgs)[k] == NUL <==> k >= Longest(msgs))
  {
    if msgs != [] {
      var front, msg := msgs[..|msgs| - 1], msgs[|msgs| - 1];
      BufferShape(front);
      forall k | 0 <= k < MAX_PAYLOAD
        ensures BufferAfter(msgs)[k] == NUL <==> k >= Longest(msgs)
      {
        if k < |msg| {
          assert BufferAfter(msgs)[k] == msg[k] && msg[k] in msg;
        } else {
          assert BufferAfter(msgs)[k] == BufferAfter(front)[k];
        }
      }
    }
  }

  /** The message the front of the buffer holds: `read` returns 0 bytes once the peer has closed,
      and such a read changes nothing. */
  function Current(msgs: seq<string>): string {
    var ms := NonEmpty(msgs);
    if ms == [] then "" else ms[|ms| - 1]
  }

  lemma CurrentSnoc(msgs: seq<string>, msg: string)
    ensures Current(msgs + [msg]) == if msg == "" then Current(msgs) else msg
  {
    NonEmptyConcat(msgs, [msg]);
    assert [msg][1..] == [];
  }

  /** Empty reads leave the message in front of them current. */
  lemma {:induction false} CurrentRepeats(msgs: seq<string>, c: nat)
    requires c < |msgs| && msgs[c] != ""
    requires forall i :: c < i < |msgs| ==> msgs[i] == ""
    ensures Current(msgs) == msgs[c]
  {
    var front, msg := msgs[..|msgs| - 1], msgs[|msgs| - 1];
    assert msgs == front + [msg];
    CurrentSnoc(front, msg);
    if c < |msgs| - 1 {
      CurrentRepeats(front, c);
    }
  }

  lemma CStrOf(msgs: seq<string>)
    requires NulFree(msgs)
    ensures |CStr(BufferAfter(msgs))| == Longest(msgs) <= MAX_PAYLOAD && NUL !in CStr(BufferAfter(msgs))
  {
    BufferShape(msgs);
    var b, n := BufferAfter(msgs), Longest(msgs);
    forall k | 0 <= k < n ensures b[..n][k] != NUL {}
    FindFirst(b, NUL, n);
  }

  /** One more message: the text of the buffer is that message and what it leaves of the text
      before. */
  lemma TextAfter(msgs: seq<string>, msg: string)
    requires NulFree(msgs + [msg])
    ensures NulFree(msgs)
    ensures var before := CStr(BufferAfter(msgs));
            CStr(BufferAfter(msgs + [msg])) == msg + (if |msg| <= |before| then before[|msg|..] else "")
  {
    var all := msgs + [msg];
    assert all[..|msgs|] == msgs && all[|msgs|] == msg;
    assert NulFree(msgs) by {
      forall i | 0 <= i < |msgs| ensures |msgs[i]| <= MAX_PAYLOAD && NUL !in msgs[i] { assert all[i] == msgs[i]; }
    }
    CStrOf(msgs);
    CStrOf(all);
  }

  ghost predicate StartsWith(s: string, t: string) {
    |t| <= |s| && s == t + s[|t|..]
  }

  lemma StartsWithAfter(before: string, msg: string, current: string)
    requires StartsWith(before, current)
    ensures var text := msg + (if |msg| <= |before| then before[|msg|..] else "");
            StartsWith(text, if msg == "" then current else msg)
  {
    if msg == "" {
      assert "" + before[0..] == before;
    }
  }

  /** The text of the buffer is the last message read and, when an earlier one was longer, a tail
      left over from before; its length is that of the longest message so far. */
  lemma {:induction false} StaleTail(msgs: seq<string>)
    requires NulFree(msgs)
    ensures var s := CStr(BufferAfter(msgs));
            |s| == Longest(msgs) <= MAX_PAYLOAD && NUL !in s && StartsWith(s, Current(msgs))
  {
    CStrOf(msgs);
    if msgs != [] {
      var front, msg := msgs[..|msgs| - 1], msgs[|msgs| - 1];
      assert msgs == front + [msg];
      CurrentSnoc(front, msg);
      TextAfter(front, msg);
      StaleTail(front);
      StartsWithAfter(CStr(BufferAfter(front)), msg, Current(front));
    }
  }

  /** Whatever was read, the front of the buffer holds the current message, and so does its text
      unless that message contains a NUL. */
  lemma {:induction false} CurrentInFront(msgs: seq<string>)
    requires forall i :: 0 <= i < |msgs| ==> |msgs[i]| <= MAX_PAYLOAD
    ensures |Current(msgs)| <= MAX_PAYLOAD && BufferAfter(msgs)[..|Current(msgs)|] == Current(msgs)
    ensures NUL !in Current(msgs) ==> StartsWith(CStr(BufferAfter(msgs)), Current(msgs))
  {
    if msgs != [] {
      var front, msg := msgs[..|msgs| - 1], msgs[|msgs| - 1];
      assert msgs == front + [msg];
      CurrentSnoc(front, msg);
      CurrentInFront(front);
      assert msg == "" ==> BufferAfter(msgs) == BufferAfter(front);
    }
    TextInFront(BufferAfter(msgs), Current(msgs));
  }

  lemma TextInFront(b: Block, msg: string)
    requires |msg| <= MAX_PAYLOAD && b[..|msg|] == msg
    ensures NUL !in msg ==> StartsWith(CStr(b), msg)
  {
    if NUL !in msg {
      var n := Find(b, NUL);
      forall k | 0 <= k < |msg| ensures b[k] != NUL { assert b[k] == b[..|msg|][k]; }
      assert b[..n][..|msg|] == b[..|msg|];
    }
  }

  lemma {:induction false} NothingRead(msgs: seq<string>)
    requires forall i :: 0 <= i < |msgs| ==> |msgs[i]| <= MAX_PAYLOAD
    ensures NonEmpty(msgs) == [] ==> BufferAfter(msgs) == Zeroed()
  {
    if msgs != [] {
      var front, msg := msgs[..|msgs| - 1], msgs[|msgs| - 1];
      assert msgs == front + [msg];
      NonEmptyConcat(front, [msg]);
      assert [msg][1..] == [];
      NothingRead(front);
      assert msg == "" ==> BufferAfter(msgs) == BufferAfter(front);
    }
  }

  // ----- a message as long as the buffer -----

  /** Without NUL bytes read, the buffer ends in NUL exactly as long as no message filled it. */
  lemma {:induction false} TerminatedIff(msgs: seq<string>)
    requires NulFree(msgs)
    ensures NUL in BufferAfter(msgs) <==> Longest(msgs) < MAX_PAYLOAD
  {
    BufferShape(msgs);
    var b := BufferAfter(msgs);
    if Longest(msgs) < MAX_PAYLOAD {
      assert b[Longest(msgs)] == NUL;
    }
  }

  /** One message that fills the buffer takes the final NUL away, until a NUL is read. */
  lemma {:induction false} NoNulSince(msgs: seq<string>, c: nat)
    requires forall i :: 0 <= i < |msgs| ==> |msgs[i]| <= MAX_PAYLOAD
    requires c < |msgs| && |msgs[c]| == MAX_PAYLOAD
    requires forall i :: c <= i < |msgs| ==> NUL !in msgs[i]
    ensures NUL !in BufferAfter(msgs)
  {
    var front, msg := msgs[..|msgs| - 1], msgs[|msgs| - 1];
    assert NUL !in msg;
    if c < |msgs| - 1 {
      NoNulSince(front, c);
    }
  }

  // ----- ports learned from the legs -----

  /** What `sockbind` sees on one leg: the port could not be bound, nothing was received, or a
      packet came from this address and UDP port. After a time-out the code tests an unset length
      and, unless that is -1, looks at an address still zero: that is `Silence` or `Seen(0, 0)`. */
  datatype Observation = BindFailed | Silence | Seen(addr: U32, port: U16)

  predicate From(o: Observation, signalled: string) {
    o.Seen? && Dotted(o.addr) == signalled
  }

  /** The port kept for a leg: the observed one if the packet came from the signalled address. */
  function Learn(signalled: string, port: string, o: Observation): string {
    if From(o, signalled) then Decimal(o.port) else port
  }

  // ----- the child -----

  predicate IsSetup(tokens: seq<string>) {
    |tokens| >= 2 && tokens[1] != "" && tokens[1][0] == 'S'
  }

  /** Texts the child can take apart within its arrays: a command, at most 15 tokens, and for an
      `S` two ports that fit their 15-byte copies. */
  predicate Tokenisable(s: string) {
    var t := StrTok(s);
    && |s| < MAX_PAYLOAD && 2 <= |t| <= 15
    && (IsSetup(t) ==> |t| >= 10 && |t[6]| <= 14 && |t[9]| <= 14)
  }

  function Replaced(t: seq<string>, leg1: string, leg2: string): seq<string>
    requires |t| >= 10
  {
    t[6 := leg1][9 := leg2]
  }

  /** What the child sends to the kernel, if anything. */
  function ChildLine(s: string, o1: Observation, o2: Observation): Option<string>
    requires Tokenisable(s)
  {
    var t := StrTok(s);
    if !IsSetup(t) then Some(s)
    else if o1.BindFailed? || o2.BindFailed? then None
    else Some(Print(Replaced(t, Learn(t[2], t[6], o1), Learn(t[5], t[9], o2))))
  }

  /** The text is taken apart and what is sent fits its 1024 bytes, with the final NUL. */
  predicate Fitting(s: string, o1: Observation, o2: Observation) {
    Tokenisable(s) && (ChildLine(s, o1, o2).Some? ==> |ChildLine(s, o1, o2).value| < MAX_PAYLOAD)
  }

  /** The child sends a line. */
  predicate Delivers(s: string, o1: Observation, o2: Observation) {
    Fitting(s, o1, o2) && ChildLine(s, o1, o2).Some?
  }

  /** A block without a NUL is never sent: its text does not fit any buffer. */
  lemma UnterminatedNeverDelivers(b: Block, o1: Observation, o2: Observation)
    requires NUL !in b
    ensures !Delivers(CStr(b), o1, o2)
  {
    FindFirst(b, NUL, MAX_PAYLOAD);
  }

  /** For a signalled address in decimal octets, the textual comparison succeeds exactly when the
      packet came from that address and no octet was written with leading zeros. */
  lemma {:induction false} SignalledIff(t: string, o: Observation)
    requires IsAddress(t)
    ensures From(o, t) <==> o.Seen? && Swap32(o.addr) == AddressWord(t) && IsPlainAddress(t)
  {
    if o.Seen? {
      PrintsAsIff(t, o.addr);
    }
  }

  /** `sockbind`: `cc` comes in as the signalled port. For any signalled address in decimal octets,
      the leg ends up with the observed port exactly when the packet came from that address and
      the address was written without leading zeros. */
  method Sockbind(signalled: string, cc: string, o: Observation) returns (alive: bool, leg: string)
    ensures alive == !o.BindFailed?
    ensures alive ==> leg == Learn(signalled, cc, o)
    ensures alive ==> forall a: U32 :: signalled == Dotted(a) ==>
              if o.Seen? && o.addr == a then Digits(leg) && Value(leg) == o.port else leg == cc
    ensures alive && IsAddress(signalled) ==>
              if o.Seen? && Swap32(o.addr) == AddressWord(signalled) && IsPlainAddress(signalled)
              then Digits(leg) && Value(leg) == o.port
              else leg == cc
  {
    leg := cc;
    match o {
      case BindFailed => return false, leg;
      case Silence =>
      case Seen(addr, port) =>
        if Dotted(addr) == signalled {
          leg := Decimal(port);
        }
    }
    alive := true;
    forall a: U32 | signalled == Dotted(a) && o.Seen? ensures Dotted(o.addr) == signalled <==> o.addr == a {
      DottedInjective(o.addr, a);
    }
    if IsAddress(signalled) {
      SignalledIff(signalled, o);
    }
  }

  /** `strtok` called from position `i` of `s`. */
  function StrTokAt(s: string, i: nat): seq<string>
    requires i <= |s|
  {
    StrTok(s[i..])
  }

  lemma StrTokSkip(s: string, i: nat)
    requires i < |s| && s[i] == ' '
    ensures StrTokAt(s, i) == StrTokAt(s, i + 1)
  {
    assert s[i..][1..] == s[i + 1..];
  }

  lemma StrTokTake(s: string, i: nat)
    requires i < |s| && s[i] != ' '
    ensures var j := FindFrom(s, ' ', i);
            StrTokAt(s, i) == [s[i..j]] + StrTokAt(s, if j == |s| then j else j + 1)
  {
    var j := FindFrom(s, ' ', i);
    assert ' ' !in s[i..j];
    assert s[i..][..j - i] == s[i..j];
    FindFirst(s[i..], ' ', j - i);
    if j < |s| {
      assert s[i..][j - i + 1..] == s[j + 1..];
    } else {
      assert s[j..] == "";
    }
  }

  /** The tokens `t` were read and the loop stands at position `i`. */
  ghost predicate Scanned(s: string, i: nat, t: seq<string>) {
    i <= |s| && t + StrTokAt(s, i) == StrTok(s)
  }

  lemma ScanStart(s: string)
    ensures Scanned(s, 0, [])
  {
    assert s[0..] == s && [] + StrTok(s) == StrTok(s);
  }

  lemma ScanStep(s: string, i: nat, t: seq<string>)
    requires Scanned(s, i, t) && i < |s|
    ensures s[i] == ' ' ==> Scanned(s, i + 1, t)
    ensures s[i] != ' ' ==>
              var j := FindFrom(s, ' ', i);
              Scanned(s, if j == |s| then j else j + 1, t + [s[i..j]]) && |t| < |StrTok(s)|
  {
    if s[i] == ' ' {
      StrTokSkip(s, i);
    } else {
      StrTokTake(s, i);
      var j := FindFrom(s, ' ', i);
      var rest := StrTokAt(s, if j == |s| then j else j + 1);
      Regroup(t, [s[i..j]], rest);
    }
  }

  lemma ScanEnd(s: string, t: seq<string>)
    requires Scanned(s, |s|, t)
    ensures t == StrTok(s)
  {
    assert s[|s|..] == "" && t + [] == t;
  }

  /** The `strtok` loop: it stores the tokens in the array and returns their number. */
  method Tokenise(s: string, childbufarry: array<string>) returns (n: nat)
    requires |StrTok(s)| <= childbufarry.Length
    modifies childbufarry
    ensures n == |StrTok(s)| && childbufarry[..n] == StrTok(s)
  {
    n := 0;
    var i := 0;
    ScanStart(s);
    while i < |s|
      invariant i <= |s| && n <= childbufarry.Length
      invariant Scanned(s, i, childbufarry[..n])
    {
      ScanStep(s, i, childbufarry[..n]);
      if s[i] == ' ' {
        i := i + 1;
      } else {
        var j := FindFrom(s, ' ', i);
        ghost var t := childbufarry[..n] + [s[i..j]];
        childbufarry[n] := s[i..j];
        n := n + 1;
        i := if j == |s| then j else j + 1;
        assert childbufarry[..n] == t;
      }
    }
    ScanEnd(s, childbufarry[..n]);
  }

  /** The child, from the block it took out of the pipe to the line it sends. */
  method Child(childbuf: Block, o1: Observation, o2: Observation) returns (sent: Option<string>)
    requires Fitting(CStr(childbuf), o1, o2)
    ensures sent == ChildLine(CStr(childbuf), o1, o2)
  {
    var childbufarry := new string[15](_ => "");
    var n := Tokenise(CStr(childbuf), childbufarry);
    ghost var t := childbufarry[..n];
    if childbufarry[1][0] == 'S' {
      var alive, leg1 := Sockbind(childbufarry[2], childbufarry[6], o1);
      if !alive { return None; }
      var leg2;
      alive, leg2 := Sockbind(childbufarry[5], childbufarry[9], o2);
      if !alive { return None; }
      childbufarry[6] := leg1;
      childbufarry[9] := leg2;
      assert childbufarry[..n] == Replaced(t, leg1, leg2);
      var newchildbuf := "";
      for j := 0 to n
        invariant newchildbuf == Print(childbufarry[..j])
      {
        assert childbufarry[..j + 1][..j] == childbufarry[..j];
        newchildbuf := newchildbuf + childbufarry[j];
        newchildbuf := newchildbuf + " ";
      }
      sent := Some(newchildbuf);
    } else {
      sent := Some(CStr(childbuf));
    }
  }

  // ----- bytes: the reprint stays within its buffer -----

  function Size(ts: seq<string>): nat {
    if ts == [] then 0 else Size(ts[..|ts| - 1]) + |ts[|ts| - 1]| + 1
  }

  lemma {:induction false} PrintSize(ts: seq<string>)
    ensures |Print(ts)| == Size(ts)
  {
    if ts != [] {
      PrintSize(ts[..|ts| - 1]);
    }
  }

  lemma {:induction false} SizeConcat(a: seq<string>, b: seq<string>)
    ensures Size(a + b) == Size(a) + Size(b)
  {
    if b == [] {
      assert a + b == a;
    } else {
      assert (a + b)[..|a + b| - 1] == a + b[..|b| - 1];
      SizeConcat(a, b[..|b| - 1]);
    }
  }

  lemma SizeOne(t: string)
    ensures Size([t]) == |t| + 1
  {
    assert [t][..0] == [];
  }

  lemma SizeUpdate(ts: seq<string>, k: nat, x: string)
    requires k < |ts|
    ensures Size(ts[k := x]) == Size(ts) - |ts[k]| + |x|
  {
    assert ts == ts[..k] + ([ts[k]] + ts[k + 1..]);
    assert ts[k := x] == ts[..k] + ([x] + ts[k + 1..]);
    SizeConcat(ts[..k], [ts[k]] + ts[k + 1..]);
    SizeConcat([ts[k]], ts[k + 1..]);
    SizeConcat(ts[..k], [x] + ts[k + 1..]);
    SizeConcat([x], ts[k + 1..]);
    SizeOne(ts[k]);
    SizeOne(x);
  }

  lemma {:induction false} StrTokSize(s: string)
    ensures Size(StrTok(s)) <= |s| + 1
    decreases |s|
  {
    if s == "" {
    } else if s[0] == ' ' {
      StrTokSize(s[1..]);
    } else {
      var i := Find(s, ' ');
      var rest := if i == |s| then "" else s[i + 1..];
      if rest != "" {
        StrTokSize(rest);
      }
      SizeConcat([s[..i]], StrTok(rest));
      SizeOne(s[..i]);
    }
  }

  /** Longest text that two longer ports and a space cannot push out of the reprint's 1024 bytes. */
  const LINE_MAX: nat := 1014

  lemma {:induction false} ReprintSize(t: seq<string>, leg1: string, leg2: string)
    requires |t| >= 10
    ensures |Print(Replaced(t, leg1, leg2))| == Size(t) - |t[6]| - |t[9]| + |leg1| + |leg2|
  {
    SizeUpdate(t, 6, leg1);
    SizeUpdate(t[6 := leg1], 9, leg2);
    PrintSize(Replaced(t, leg1, leg2));
  }

  /** Up to 1014 bytes, `strcat` never leaves the reprint buffer, whatever ports are learned. */
  lemma {:induction false} ReprintFits(s: string, o1: Observation, o2: Observation)
    requires Tokenisable(s) && (IsSetup(StrTok(s)) ==> |s| <= LINE_MAX)
    ensures Fitting(s, o1, o2)
  {
    var t := StrTok(s);
    if IsSetup(t) {
      var leg1, leg2 := Learn(t[2], t[6], o1), Learn(t[5], t[9], o2);
      assert t[6] != "" && t[9] != "";
      assert |leg1| <= |t[6]| + 4 && |leg2| <= |t[9]| + 4;
      StrTokSize(s);
      ReprintSize(t, leg1, leg2);
    }
  }

  // ----- when a child can send anything -----

  /** Some packet's address prints as this text. */
  ghost predicate CanMatch(signalled: string) {
    exists a: U32 :: Dotted(a) == signalled
  }

  /** How many bytes a learned port can save: down to one digit, if any can be learned. */
  ghost function Saving(signalled: string, port: string): nat {
    if CanMatch(signalled) && port != "" then |port| - 1 else 0
  }

  /** Size of the shortest reprint. */
  ghost function Shortest(t: seq<string>): int
    requires |t| >= 10
  {
    Size(t) - Saving(t[2], t[6]) - Saving(t[5], t[9])
  }

  lemma LearnedSize(signalled: string, port: string, o: Observation)
    requires port != ""
    ensures |Learn(signalled, port, o)| >= |port| - Saving(signalled, port)
  {
    if From(o, signalled) {
      assert Dotted(o.addr) == signalled;
    }
  }

  lemma BestObservation(signalled: string, port: string) returns (o: Observation)
    requires port != ""
    ensures !o.BindFailed? && |Learn(signalled, port, o)| == |port| - Saving(signalled, port)
  {
    o := Silence;
    if CanMatch(signalled) {
      var a: U32 :| Dotted(a) == signalled;
      o := Seen(a, 0);
    }
  }

  lemma {:induction false} SendsOnlyIf(s: string, o1: Observation, o2: Observation)
    requires Delivers(s, o1, o2) && IsSetup(StrTok(s))
    ensures Shortest(StrTok(s)) < MAX_PAYLOAD
  {
    var t := StrTok(s);
    LearnedSize(t[2], t[6], o1);
    LearnedSize(t[5], t[9], o2);
    ReprintSize(t, Learn(t[2], t[6], o1), Learn(t[5], t[9], o2));
  }

  lemma {:induction false} SendsIf(s: string) returns (o1: Observation, o2: Observation)
    requires Tokenisable(s) && (IsSetup(StrTok(s)) ==> Shortest(StrTok(s)) < MAX_PAYLOAD)
    ensures Delivers(s, o1, o2)
  {
    var t := StrTok(s);
    o1, o2 := Silence, Silence;
    if IsSetup(t) {
      o1 := BestObservation(t[2], t[6]);
      o2 := BestObservation(t[5], t[9]);
      ReprintSize(t, Learn(t[2], t[6], o1), Learn(t[5], t[9], o2));
    }
  }

  /** Some behaviour of the legs makes the child send exactly when it can take the text apart and,
      for an `S`, the shortest reprint fits its buffer. */
  lemma {:induction false} SendsIff(s: string)
    ensures (exists o1, o2 :: Delivers(s, o1, o2))
       <==> Tokenisable(s) && (IsSetup(StrTok(s)) ==> Shortest(StrTok(s)) < MAX_PAYLOAD)
  {
    if Tokenisable(s) && (IsSetup(StrTok(s)) ==> Shortest(StrTok(s)) < MAX_PAYLOAD) {
      var o1, o2 := SendsIf(s);
    }
    forall o1, o2 | Delivers(s, o1, o2) && IsSetup(StrTok(s)) ensures Shortest(StrTok(s)) < MAX_PAYLOAD {
      SendsOnlyIf(s, o1, o2);
    }
  }
}
