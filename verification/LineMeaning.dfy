/** What a request line means to the kernel after the child has reprinted or forwarded it. */
module LineMeaning {
  import opened Words
  import opened Text
  import opened NatTable
  import opened Requests
  import opened UserSpace

  /** The port kept for a leg, as an entry stores it. */
  function LearnedWord(signalled: string, port: string, o: Observation): U16
    requires IsPort(port)
  {
    if From(o, signalled) then Swap16(o.port) else PortWord(port)
  }

  /** The entry of a call: the requested one but for the two learned ports. */
  function CallEntry(f: seq<string>, o1: Observation, o2: Observation): Entry
    requires Usable(f)
  {
    EntryOf(f).(srcPort := LearnedWord(f[2], f[6], o1), dnatPort := LearnedWord(f[5], f[9], o2))
  }

  /** It lies in memory in network order, high byte first. */
  lemma {:induction false} LearnedInMemory(signalled: string, port: string, o: Observation)
    requires IsPort(port)
    ensures PortBytes(LearnedWord(signalled, port, o), if From(o, signalled) then o.port else Value(port))
  {
    PortInMemory(port);
    if From(o, signalled) {
      SwappedBytes(o.port);
    }
  }

  /** For an address signalled in canonical form, the textual comparison of `sockbind` asks
      whether the packet came from that very address. */
  lemma {:induction false} SignalledAddress(a: U32, o: Observation)
    ensures IsAddress(Dotted(a)) && AddressWord(Dotted(a)) == Swap32(a)
    ensures From(o, Dotted(a)) <==> o.Seen? && o.addr == a
  {
    DottedRoundTrip(a, "");
    assert Dotted(a) + "" == Dotted(a);
    DottedPieces(a);
    if o.Seen? {
      DottedInjective(o.addr, a);
    }
  }

  /** What the kernel makes of a line; `unset` holds its variables before the parse. */
  function Meaning(line: string, unset: Regs): Request
    requires |Split(line, ' ')| >= 2
  {
    SessionIsSet(Split(line, ' '), unset);
    Decode(Parse(Split(line, ' '), unset))
  }

  lemma {:induction false} SessionIsSet(tokens: seq<string>, unset: Regs)
    requires |tokens| >= 2
    ensures Parse(tokens, unset).session == Some(tokens[1])
  {
    if |tokens| > 2 {
      SessionIsSet(tokens[..|tokens| - 1], unset);
    } else {
      assert tokens[..2] == tokens;
      ParseNext(tokens, 1, unset);
    }
  }

  /** Two tokens in the block are two pieces in the line the child sends. */
  lemma SentLineHasSession(s: string, o1: Observation, o2: Observation)
    requires Tokenisable(s) && ChildLine(s, o1, o2).Some?
    ensures |Split(ChildLine(s, o1, o2).value, ' ')| >= 2
  {
    var line := ChildLine(s, o1, o2).value;
    StrTokIsNonEmptySplit(line);
    NonEmptyAll(Split(line, ' '));
    if IsSetup(StrTok(s)) {
      ReprintedTokens(s, o1, o2);
    }
  }

  lemma LegIsFree(signalled: string, port: string, o: Observation)
    requires ' ' !in port
    ensures ' ' !in Learn(signalled, port, o)
  {
    if From(o, signalled) {
      DigitsFree(Decimal(o.port), ' ');
    }
  }

  lemma TokensAreFree(s: string)
    ensures Free(StrTok(s), ' ')
  {
    StrTokIsNonEmptySplit(s);
    SplitFree(s, ' ');
    NonEmptyAll(Split(s, ' '));
  }

  /** The kernel reads a reprinted line as the child's tokens with the two ports replaced, and
      one final empty token. */
  lemma {:induction false} ReprintedTokens(s: string, o1: Observation, o2: Observation)
    requires Tokenisable(s) && IsSetup(StrTok(s)) && ChildLine(s, o1, o2).Some?
    ensures var t := StrTok(s); var g := Replaced(t, Learn(t[2], t[6], o1), Learn(t[5], t[9], o2));
            Split(ChildLine(s, o1, o2).value, ' ') == g + [""]
  {
    var t := StrTok(s);
    TokensAreFree(s);
    LegIsFree(t[2], t[6], o1);
    LegIsFree(t[5], t[9], o2);
    SplitPrint(Replaced(t, Learn(t[2], t[6], o1), Learn(t[5], t[9], o2)));
  }

  /** Tokens that text behind a line adds after the line's last one. */
  function Added(tail: string): nat {
    |NonEmpty(Split(tail, ' ')[1..])|
  }

  lemma LineAndTail(f: seq<string>, tail: string)
    requires WellFormed(f)
    ensures Split(Line(f) + tail, ' ') == f[..11] + ([f[11] + Split(tail, ' ')[0]] + Split(tail, ' ')[1..])
  {
    FieldsAreFree(f);
    SplitTail(Line(f), tail, ' ');
    SplitFront(f[11], tail, ' ');
  }

  /** Whatever stale text follows a 12-field line, its first 11 tokens stay what they were, for
      `strtok` and for `strsep`. */
  lemma {:induction false} StaleTailIndependence(f: seq<string>, tail: string)
    requires WellFormed(f)
    ensures var s := Line(f) + tail;
            && |Split(s, ' ')| >= 12 && Split(s, ' ')[..11] == f[..11]
            && |StrTok(s)| == 12 + Added(tail) && StrTok(s)[..11] == f[..11]
  {
    var last, more := f[11] + Split(tail, ' ')[0], Split(tail, ' ')[1..];
    LineAndTail(f, tail);
    StrTokIsNonEmptySplit(Line(f) + tail);
    NonEmptyConcat(f[..11], [last] + more);
    NonEmptyConcat([last], more);
    NonEmptyAll(f[..11]);
    NonEmptyAll([last]);
    forall i | 0 <= i < 11 ensures f[..11][i] != "" { assert Clean(f[i]); }
    assert Clean(f[11]) && last != "";
  }

  /** A well-formed request with left-over text behind it stays within the child's arrays exactly
      when that text adds at most three tokens and both end before the buffer does. */
  lemma {:induction false} TokenisableIff(g: seq<string>, tail: string)
    requires WellFormed(g)
    ensures Tokenisable(Line(g) + tail) <==> |Line(g) + tail| < MAX_PAYLOAD && Added(tail) <= 3
  {
    StaleTailIndependence(g, tail);
    var t := StrTok(Line(g) + tail);
    forall i | 0 <= i < 11 ensures t[i] == g[i] { assert t[..11][i] == g[..11][i]; }
  }

  /** A well-formed request at least as long as everything read before it stands alone in the
      buffer, and the child can take it apart. */
  lemma {:induction false} LongestIsTokenisable(msgs: seq<string>, g: seq<string>)
    requires NulFree(msgs) && WellFormed(g) && Current(msgs) == Line(g) && Longest(msgs) == |Line(g)|
    ensures CStr(BufferAfter(msgs)) == Line(g) && Tokenisable(Line(g))
    ensures g[1] == "D" || |Line(g)| <= LINE_MAX ==> forall o1, o2 :: Fitting(Line(g), o1, o2)
  {
    StaleTail(msgs);
    assert Line(g) + "" == Line(g);
    TokenisableIff(g, "");
    StaleTailIndependence(g, "");
    assert StrTok(Line(g))[1] == StrTok(Line(g))[..11][1] == g[1];
    if g[1] == "D" || |Line(g)| <= LINE_MAX {
      forall o1, o2 ensures Fitting(Line(g), o1, o2) {
        ReprintFits(Line(g), o1, o2);
      }
    }
  }

  /** After a request whose id is as long as the whole next request, the next one leaves eleven
      tokens of the earlier one behind it: 23 in all, for an array of 15. */
  lemma {:induction false} LongIdBreaksNext(msgs: seq<string>, f: seq<string>, g: seq<string>)
    requires WellFormed(f) && WellFormed(g) && NulFree(msgs + [Line(f)] + [Line(g)])
    requires Longest(msgs) <= |Line(f)| && |Line(g)| <= |f[0]|
    ensures var s := CStr(BufferAfter(msgs + [Line(f)] + [Line(g)]));
            |StrTok(s)| == 23 && !Tokenisable(s)
  {
    TextAfter(msgs + [Line(f)], Line(g));
    TextAfter(msgs, Line(f));
    CStrOf(msgs);
    TailOfLine(f, |Line(g)|);
    StaleTailIndependence(g, Line(f)[|Line(g)|..]);
  }

  lemma TailOfLine(f: seq<string>, n: nat)
    requires WellFormed(f) && n <= |f[0]|
    ensures |f[0]| <= |Line(f)| && Added(Line(f)[n..]) == 11
  {
    FieldsAreFree(f);
    forall i | 0 <= i < 11 ensures f[1..][i] != "" && ' ' !in f[1..][i] { assert Clean(f[i + 1]); }
    assert Line(f)[n..] == f[0][n..] + [' '] + Join(f[1..], ' ');
    SplitConcat(f[0][n..], Join(f[1..], ' '), ' ');
    SplitOne(f[0][n..], ' ');
    SplitJoin(f[1..], ' ');
    assert Split(Line(f)[n..], ' ')[1..] == f[1..];
    NonEmptyAll(f[1..]);
  }

  lemma LongId(n: nat) returns (id: string)
    requires n > 0
    ensures |id| == n && Clean(id)
  {
    id := seq(n, _ => 'x');
    assert id[0] == 'x' && !IsSpace('x');
  }

  lemma OtherId(g: seq<string>, id: string)
    requires WellFormed(g) && Clean(id) && |Line(g)| - |g[0]| + |id| < MAX_PAYLOAD
    ensures WellFormed(g[0 := id])
  {
    var f := g[0 := id];
    assert f[1..] == g[1..];
    assert |Line(f)| == |Line(g)| - |g[0]| + |id|;
    forall i | 0 <= i < |f| ensures Clean(f[i]) {
      if i > 0 { assert f[i] == g[i] && Clean(g[i]); }
    }
    forall i | 1 <= i < 10 ensures f[i] == g[i] {}
  }

  lemma LineFits(f: seq<string>)
    requires WellFormed(f)
    ensures |Line(f)| < MAX_PAYLOAD && NUL !in Line(f)
  {
    LineIsNulFree(f);
  }

  lemma SameWithLongId(g: seq<string>) returns (f: seq<string>)
    requires WellFormed(g) && 2 * |Line(g)| < MAX_PAYLOAD
    ensures WellFormed(f) && |Line(g)| <= |f[0]| && |Line(g)| <= |Line(f)| && f[1..] == g[1..]
  {
    var id := LongId(|Line(g)|);
    OtherId(g, id);
    f := g[0 := id];
  }

  /** Such an earlier request exists for every request of up to 511 bytes, whatever shorter
      messages were read before. */
  lemma {:induction false} AnyShortRequestCanBreak(msgs: seq<string>, g: seq<string>) returns (f: seq<string>)
    requires NulFree(msgs) && WellFormed(g) && Longest(msgs) <= |Line(g)| && 2 * |Line(g)| < MAX_PAYLOAD
    ensures WellFormed(f) && f[1..] == g[1..] && NulFree(msgs + [Line(f)] + [Line(g)])
    ensures !Tokenisable(CStr(BufferAfter(msgs + [Line(f)] + [Line(g)])))
  {
    f := SameWithLongId(g);
    LineFits(f);
    LineFits(g);
    NulFreeOneMore(msgs, Line(f));
    NulFreeOneMore(msgs + [Line(f)], Line(g));
    LongIdBreaksNext(msgs, f, g);
  }

  lemma LearnedPort(signalled: string, port: string, o: Observation)
    requires IsPort(port)
    ensures IsPort(Learn(signalled, port, o))
    ensures PortWord(Learn(signalled, port, o)) == LearnedWord(signalled, port, o)
  {
  }

  lemma SameEntry(f: seq<string>, g: seq<string>, leg1: string, leg2: string)
    requires Usable(f) && |g| >= 10 && IsPort(leg1) && IsPort(leg2)
    requires g[2] == f[2] && g[3] == f[3] && g[4] == f[4] && g[5] == f[5]
    requires g[6] == leg1 && g[7] == f[7] && g[8] == f[8] && g[9] == leg2
    ensures Usable(g) && EntryOf(g) == EntryOf(f).(srcPort := PortWord(leg1), dnatPort := PortWord(leg2))
  {
  }

  lemma ReplacedAt(f: seq<string>, t: seq<string>, leg1: string, leg2: string)
    requires |t| >= 11 && |f| >= 11 && t[..11] == f[..11]
    ensures t[2] == f[2] && t[5] == f[5] && t[6] == f[6] && t[9] == f[9]
    ensures var g := Replaced(t, leg1, leg2) + [""];
            && |g| >= 10 && g[6] == leg1 && g[9] == leg2 && g[1] == f[1] && g[2] == f[2] && g[3] == f[3]
            && g[4] == f[4] && g[5] == f[5] && g[7] == f[7] && g[8] == f[8]
  {
    forall i | 0 <= i < 11 ensures t[i] == f[i] { assert t[..11][i] == f[..11][i]; }
  }

  lemma {:induction false} ReplacedEntry(f: seq<string>, t: seq<string>, o1: Observation, o2: Observation)
    requires Usable(f) && |t| >= 11 && |f| >= 11 && t[..11] == f[..11]
    ensures var g := Replaced(t, Learn(t[2], t[6], o1), Learn(t[5], t[9], o2)) + [""];
            Usable(g) && EntryOf(g) == CallEntry(f, o1, o2) && g[1] == f[1]
  {
    var leg1, leg2 := Learn(t[2], t[6], o1), Learn(t[5], t[9], o2);
    ReplacedAt(f, t, leg1, leg2);
    LearnedPort(f[2], f[6], o1);
    LearnedPort(f[5], f[9], o2);
    SameEntry(f, Replaced(t, leg1, leg2) + [""], leg1, leg2);
  }

  /** An `S` line reaches the kernel as its call's entry with the two learned ports, under the
      keys the request alone determines. */
  lemma {:induction false} SetupMeaning(f: seq<string>, tail: string, o1: Observation, o2: Observation, unset: Regs)
    requires WellFormed(f) && f[1] == "S" && Tokenisable(Line(f) + tail)
    ensures ChildLine(Line(f) + tail, o1, o2).None? <==> o1.BindFailed? || o2.BindFailed?
    ensures ChildLine(Line(f) + tail, o1, o2).Some? ==>
              var line := ChildLine(Line(f) + tail, o1, o2).value;
              && |Split(line, ' ')| >= 2
              && Meaning(line, unset) == Add(CallEntry(f, o1, o2), EntryOf(f).Key1(), EntryOf(f).Key2())
  {
    var s := Line(f) + tail;
    var t := StrTok(s);
    StaleTailIndependence(f, tail);
    assert t[1] == t[..11][1];
    if ChildLine(s, o1, o2).Some? {
      ReprintedTokens(s, o1, o2);
      ReplacedEntry(f, t, o1, o2);
      ParseUsable(Replaced(t, Learn(t[2], t[6], o1), Learn(t[5], t[9], o2)) + [""], unset);
    }
  }

  /** A `D` line, forwarded as it is, releases those same two keys. */
  lemma {:induction false} TeardownMeaning(f: seq<string>, tail: string, o1: Observation, o2: Observation, unset: Regs)
    requires WellFormed(f) && f[1] == "D" && Tokenisable(Line(f) + tail)
    ensures var line := ChildLine(Line(f) + tail, o1, o2);
            && line == Some(Line(f) + tail) && |Split(line.value, ' ')| >= 2
            && Meaning(line.value, unset) == Release(EntryOf(f).Key1(), EntryOf(f).Key2())
  {
    var s := Line(f) + tail;
    var g := Split(s, ' ');
    StaleTailIndependence(f, tail);
    forall i | 0 <= i < 11 ensures g[i] == f[i] && StrTok(s)[i] == f[i] {
      assert g[..11][i] == f[..11][i] && StrTok(s)[..11][i] == f[..11][i];
    }
    ParseUsable(g, unset);
  }

  /** What the kernel is to do for a well-formed request. */
  function RequestOf(f: seq<string>, o1: Observation, o2: Observation): Request
    requires |f| >= 2 && Usable(f)
  {
    if f[1] == "S" then Add(CallEntry(f, o1, o2), EntryOf(f).Key1(), EntryOf(f).Key2())
    else Release(EntryOf(f).Key1(), EntryOf(f).Key2())
  }

  lemma {:induction false} SentMeaning(f: seq<string>, text: string, o1: Observation, o2: Observation, unset: Regs)
    requires WellFormed(f) && StartsWith(text, Line(f))
    requires Tokenisable(text) && ChildLine(text, o1, o2).Some?
    ensures var line := ChildLine(text, o1, o2).value;
            |Split(line, ' ')| >= 2 && Meaning(line, unset) == RequestOf(f, o1, o2)
  {
    var tail := text[|Line(f)|..];
    if f[1] == "S" {
      SetupMeaning(f, tail, o1, o2, unset);
    } else {
      TeardownMeaning(f, tail, o1, o2, unset);
    }
  }

  /** When the child can send anything for a well-formed request and the text behind it: exactly
      when the two end before the buffer does, that text adds at most three tokens and, for an `S`,
      the shortest reprint fits; the last holds of every text of less than 1023 bytes. */
  lemma {:induction false} DeliversIff(f: seq<string>, text: string)
    requires WellFormed(f) && StartsWith(text, Line(f))
    ensures |StrTok(text)| >= 10
    ensures (exists o1, o2 :: Delivers(text, o1, o2))
       <==> && |text| < MAX_PAYLOAD && Added(text[|Line(f)|..]) <= 3
            && (f[1] == "S" ==> Shortest(StrTok(text)) < MAX_PAYLOAD)
    ensures |text| < MAX_PAYLOAD - 1 ==> Shortest(StrTok(text)) < MAX_PAYLOAD
    ensures f[1] == "D" ==>
              forall o1, o2 :: Delivers(text, o1, o2) <==> |text| < MAX_PAYLOAD && Added(text[|Line(f)|..]) <= 3
  {
    TokenisableIff(f, text[|Line(f)|..]);
    StaleTailIndependence(f, text[|Line(f)|..]);
    assert StrTok(text)[1] == StrTok(text)[..11][1] == f[1];
    SendsIff(text);
    StrTokSize(text);
  }
}
