/** The text layer every stage of the relay shares: the C functions `strsep`, `strtok`, `strcat`,
    Python's `split` and `join`, decimal numbers and dotted addresses. */
module Text {
  import opened Words

  datatype Option<+T> = None | Some(value: T)

  function FindFrom(s: string, c: char, i: nat): (r: nat)
    requires i <= |s|
    ensures i <= r <= |s| && (r < |s| ==> s[r] == c)
    ensures forall k :: i <= k < r ==> s[k] != c
    decreases |s| - i
  {
    if i == |s| || s[i] == c then i else FindFrom(s, c, i + 1)
  }

  /** Position of the first `c`, or the length. */
  function Find(s: string, c: char): (i: nat)
    ensures i <= |s| && c !in s[..i]
    ensures i < |s| ==> s[i] == c
  {
    FindFrom(s, c, 0)
  }

  /** The pieces between separators: repeated `strsep`, and Python's `split` with an argument. */
  function Split(s: string, c: char): (r: seq<string>)
    ensures |r| >= 1
    decreases |s|
  {
    var i := Find(s, c);
    if i == |s| then [s] else [s[..i]] + Split(s[i + 1..], c)
  }

  /** The pieces glued with a separator: Python's `c.join(ts)`. */
  function Join(ts: seq<string>, c: char): string
    requires |ts| >= 1
  {
    if |ts| == 1 then ts[0] else ts[0] + [c] + Join(ts[1..], c)
  }

  /** Repeated `strtok`: separators are skipped in front of each token. */
  function StrTok(s: string): (r: seq<string>)
    ensures forall k :: 0 <= k < |r| ==> r[k] != ""
    decreases |s|
  {
    if s == "" then []
    else if s[0] == ' ' then StrTok(s[1..])
    else
      var i := Find(s, ' ');
      [s[..i]] + StrTok(if i == |s| then "" else s[i + 1..])
  }

  /** The reprint loop: `strcat` of each token and one space. */
  function Print(ts: seq<string>): string {
    if ts == [] then "" else Print(ts[..|ts| - 1]) + ts[|ts| - 1] + " "
  }

  function NonEmpty(ts: seq<string>): seq<string> {
    if ts == [] then [] else (if ts[0] == "" then [] else [ts[0]]) + NonEmpty(ts[1..])
  }

  ghost predicate Free(ts: seq<string>, c: char) {
    forall i :: 0 <= i < |ts| ==> c !in ts[i]
  }

  lemma FindFirst(s: string, c: char, i: nat)
    requires i <= |s| && c !in s[..i] && (i < |s| ==> s[i] == c)
    ensures Find(s, c) == i
  {
    var j := Find(s, c);
    forall k | 0 <= k < i ensures s[k] != c { assert s[k] in s[..i]; }
    forall k | 0 <= k < j ensures s[k] != c { assert s[k] in s[..j]; }
  }

  lemma SplitAt(s: string, c: char, i: nat)
    requires i < |s| && c !in s[..i] && s[i] == c
    ensures Split(s, c) == [s[..i]] + Split(s[i + 1..], c)
  {
    FindFirst(s, c, i);
  }

  lemma SplitOne(s: string, c: char)
    requires c !in s
    ensures Split(s, c) == [s]
  {
    FindFirst(s, c, |s|);
  }

  lemma {:induction false} SplitFree(s: string, c: char)
    ensures Free(Split(s, c), c)
    decreases |s|
  {
    var i := Find(s, c);
    if i < |s| {
      SplitFree(s[i + 1..], c);
    }
  }

  lemma SplitPrefix(s: string, i: nat, k: nat, c: char)
    requires i < k <= |s| && c !in s[..i] && s[i] == c
    ensures Split(s[..k], c) == [s[..i]] + Split(s[i + 1..][..k - i - 1], c)
  {
    assert s[..k][..i] == s[..i] && s[..k][i + 1..] == s[i + 1..][..k - i - 1];
    SplitAt(s[..k], c, i);
  }

  lemma Regroup(h: seq<string>, a: seq<string>, b: seq<string>)
    ensures h + (a + b) == h + a + b
  {
  }

  /** A separator anywhere in a text separates the pieces on its two sides. */
  lemma {:induction false} SplitMid(s: string, k: nat, c: char)
    requires k < |s| && s[k] == c
    ensures Split(s, c) == Split(s[..k], c) + Split(s[k + 1..], c)
    decreases |s|
  {
    var i := Find(s, c);
    SplitAt(s, c, i);
    if i < k {
      var rest, j := s[i + 1..], k - i - 1;
      SplitMid(rest, j, c);
      assert rest[j + 1..] == s[k + 1..];
      SplitPrefix(s, i, k, c);
      Regroup([s[..i]], Split(rest[..j], c), Split(rest[j + 1..], c));
    } else {
      SplitOne(s[..k], c);
    }
  }

  lemma SplitConcat(a: string, b: string, c: char)
    ensures Split(a + [c] + b, c) == Split(a, c) + Split(b, c)
  {
    var s := a + [c] + b;
    assert s[..|a|] == a && s[|a| + 1..] == b;
    SplitMid(s, |a|, c);
  }

  /** Splitting and joining undo each other: `" ".join(data.split(" "))` is `data`, and
      joining separator-free pieces loses none of them. */
  lemma {:induction false} JoinSplit(s: string, c: char)
    ensures Join(Split(s, c), c) == s
    decreases |s|
  {
    var i := Find(s, c);
    if i < |s| {
      JoinSplit(s[i + 1..], c);
      assert Split(s, c)[1..] == Split(s[i + 1..], c);
    }
  }

  lemma {:induction false} SplitJoin(ts: seq<string>, c: char)
    requires |ts| >= 1 && Free(ts, c)
    ensures Split(Join(ts, c), c) == ts
    decreases |ts|
  {
    SplitOne(ts[0], c);
    if |ts| > 1 {
      SplitJoin(ts[1..], c);
      SplitConcat(ts[0], Join(ts[1..], c), c);
    }
  }

  lemma FrontFirst(x: string, us: seq<string>, w: seq<string>)
    requires |us| >= 1
    ensures var ts := [x] + us;
            ts[|ts| - 1] == us[|us| - 1] && ts[..|ts| - 1] + w == [x] + (us[..|us| - 1] + w)
  {
    assert ([x] + us)[..|us|] == [x] + us[..|us| - 1];
  }

  /** Text appended behind a line can only lengthen its last piece and add pieces after it. */
  lemma {:induction false} SplitTail(s: string, tail: string, c: char)
    ensures var ts := Split(s, c);
            Split(s + tail, c) == ts[..|ts| - 1] + Split(ts[|ts| - 1] + tail, c)
    decreases |s|
  {
    var i := Find(s, c);
    if i == |s| {
      assert s[..i] == s && Split(s, c)[..0] == [];
    } else {
      var rest := s[i + 1..];
      assert (s + tail)[..i] == s[..i] && (s + tail)[i + 1..] == rest + tail;
      SplitAt(s, c, i);
      SplitAt(s + tail, c, i);
      SplitTail(rest, tail, c);
      var us := Split(rest, c);
      FrontFirst(s[..i], us, Split(us[|us| - 1] + tail, c));
    }
  }

  /** Text in front of the first separator belongs to the first piece. */
  lemma SplitFront(a: string, tail: string, c: char)
    requires c !in a
    ensures Split(a + tail, c) == [a + Split(tail, c)[0]] + Split(tail, c)[1..]
  {
    var i := Find(tail, c);
    if i == |tail| {
      SplitOne(a + tail, c);
    } else {
      assert (a + tail)[..|a| + i] == a + tail[..i] && (a + tail)[|a| + i + 1..] == tail[i + 1..];
      SplitAt(a + tail, c, |a| + i);
    }
  }

  lemma {:induction false} NonEmptyConcat(a: seq<string>, b: seq<string>)
    ensures NonEmpty(a + b) == NonEmpty(a) + NonEmpty(b)
  {
    if a == [] {
      assert a + b == b;
    } else {
      assert (a + b)[1..] == a[1..] + b;
      NonEmptyConcat(a[1..], b);
    }
  }

  lemma {:induction false} NonEmptyAll(ts: seq<string>)
    ensures NonEmpty(ts) == ts <==> "" !in ts
    ensures "" !in NonEmpty(ts) && |NonEmpty(ts)| <= |ts|
    ensures forall c :: Free(ts, c) ==> Free(NonEmpty(ts), c)
  {
    if ts != [] {
      NonEmptyAll(ts[1..]);
      assert ts == [ts[0]] + ts[1..];
      forall c | Free(ts, c) ensures Free(NonEmpty(ts), c) {
        assert Free(ts[1..], c) by {
          forall i | 0 <= i < |ts[1..]| ensures c !in ts[1..][i] { assert ts[1..][i] == ts[i + 1]; }
        }
      }
    }
  }

  /** `strtok` yields exactly the non-empty `strsep` pieces, in order. */
  lemma {:induction false} StrTokIsNonEmptySplit(s: string)
    ensures StrTok(s) == NonEmpty(Split(s, ' '))
    decreases |s|
  {
    var i := Find(s, ' ');
    if s == "" {
    } else if s[0] == ' ' {
      StrTokIsNonEmptySplit(s[1..]);
      assert Split(s, ' ')[1..] == Split(s[1..], ' ');
    } else if i < |s| {
      StrTokIsNonEmptySplit(s[i + 1..]);
      assert Split(s, ' ')[1..] == Split(s[i + 1..], ' ');
    } else {
      assert s[..i] == s && NonEmpty([s]) == [s];
    }
  }

  /** One space between tokens and none at either end. */
  ghost predicate SingleSpaced(s: string) {
    s != "" && s[0] != ' ' && s[|s| - 1] != ' '
    && forall i :: 0 <= i < |s| - 1 ==> s[i] != ' ' || s[i + 1] != ' '
  }

  lemma SingleSpacedOne(s: string)
    requires ' ' !in s
    ensures SingleSpaced(s) <==> s != ""
  {
  }

  lemma SingleSpacedRest(s: string, i: nat)
    requires i < |s| && s[i] == ' ' && SingleSpaced(s)
    ensures 0 < i && SingleSpaced(s[i + 1..])
  {
    var rest := s[i + 1..];
    forall k | 0 <= k < |rest| - 1 ensures rest[k] != ' ' || rest[k + 1] != ' ' {
      assert rest[k] == s[i + 1 + k] && rest[k + 1] == s[i + 1 + k + 1];
    }
    assert i < |s| - 1;
    assert rest[0] == s[i + 1] && rest[|rest| - 1] == s[|s| - 1];
  }

  lemma SingleSpacedGlue(s: string, i: nat)
    requires 0 < i < |s| && ' ' !in s[..i] && SingleSpaced(s[i + 1..])
    ensures SingleSpaced(s)
  {
    var rest := s[i + 1..];
    forall k | 0 <= k < |s| - 1 ensures s[k] != ' ' || s[k + 1] != ' ' {
      if k < i {
        assert s[k] == s[..i][k];
      } else if k == i {
        assert s[k + 1] == rest[0];
      } else {
        assert s[k] == rest[k - i - 1] && s[k + 1] == rest[k - i - 1 + 1];
      }
    }
    assert s[0] == s[..i][0] && s[|s| - 1] == rest[|rest| - 1];
  }

  lemma {:induction false} NoEmptyPieceIff(s: string)
    ensures "" !in Split(s, ' ') <==> SingleSpaced(s)
    decreases |s|
  {
    var i := Find(s, ' ');
    if i == |s| {
      assert s[..i] == s;
      SingleSpacedOne(s);
    } else {
      NoEmptyPieceIff(s[i + 1..]);
      if SingleSpaced(s) {
        SingleSpacedRest(s, i);
      } else if 0 < i && SingleSpaced(s[i + 1..]) {
        SingleSpacedGlue(s, i);
      }
    }
  }

  /** Reading a raw line with `strsep`, as the kernel does, agrees with the reprinter's `strtok`
      exactly on lines with single spaces and none at either end. */
  lemma RawLineReadsAlikeIff(s: string)
    ensures Split(s, ' ') == StrTok(s) <==> SingleSpaced(s)
  {
    StrTokIsNonEmptySplit(s);
    NonEmptyAll(Split(s, ' '));
    NoEmptyPieceIff(s);
  }

  lemma {:induction false} SplitPrint(ts: seq<string>)
    requires Free(ts, ' ')
    ensures Split(Print(ts), ' ') == ts + [""]
  {
    if ts != [] {
      var front, last := ts[..|ts| - 1], ts[|ts| - 1];
      SplitPrint(front);
      SplitTail(Print(front), last + " ", ' ');
      assert Print(ts) == Print(front) + (last + " ");
      assert "" + (last + " ") == last + [' '] + "";
      SplitConcat(last, "", ' ');
      SplitOne(last, ' ');
      SplitOne("", ' ');
      assert ts == front + [last];
    }
  }

  /** What the reprinter prints, the kernel reads back: the tokens and one final empty one. */
  lemma ReprintRoundTrip(s: string)
    ensures Split(Print(StrTok(s)), ' ') == StrTok(s) + [""]
    ensures StrTok(Print(StrTok(s))) == StrTok(s)
  {
    var ts := StrTok(s);
    StrTokIsNonEmptySplit(s);
    SplitFree(s, ' ');
    NonEmptyAll(Split(s, ' '));
    SplitPrint(ts);
    StrTokIsNonEmptySplit(Print(ts));
    NonEmptyConcat(ts, [""]);
    NonEmptyAll(ts);
    assert NonEmpty([""]) == [];
  }

  // ----- decimal numbers -----

  predicate IsDigit(c: char) { '0' <= c <= '9' }

  predicate Digits(s: string) {
    s != "" && forall i :: 0 <= i < |s| ==> IsDigit(s[i])
  }

  function Value(s: string): nat
    requires forall i :: 0 <= i < |s| ==> IsDigit(s[i])
  {
    if s == "" then 0
    else
      assert IsDigit(s[|s| - 1]);
      10 * Value(s[..|s| - 1]) + (s[|s| - 1] as int - '0' as int)
  }

  /** `sprintf("%d")` of a port or an octet. */
  function Decimal(n: nat): (s: string)
    ensures Digits(s) && Value(s) == n
    ensures n < 0x1_0000 ==> |s| <= 5
    ensures n < 0x100 ==> |s| <= 3
  {
    DecimalSize(n);
    DecimalText(n)
  }

  function DecimalText(n: nat): (s: string)
    ensures Digits(s) && Value(s) == n
  {
    var last := (n % 10 + '0' as int) as char;
    if n < 10 then [last]
    else
      var front := DecimalText(n / 10);
      var s := front + [last];
      assert s[..|s| - 1] == front;
      s
  }

  lemma DecimalSize(n: nat)
    ensures n < 0x1_0000 ==> |DecimalText(n)| <= 5
    ensures n < 0x100 ==> |DecimalText(n)| <= 3
  {
    if n < 0x1_0000 {
      assert n / 10 / 10 / 10 / 10 < 10;
      var a, b, c, d := n / 10, n / 10 / 10, n / 10 / 10 / 10, n / 10 / 10 / 10 / 10;
      assert n >= 10 ==> |DecimalText(n)| == |DecimalText(a)| + 1;
      assert a >= 10 ==> |DecimalText(a)| == |DecimalText(b)| + 1;
      assert b >= 10 ==> |DecimalText(b)| == |DecimalText(c)| + 1;
      assert c >= 10 ==> |DecimalText(c)| == |DecimalText(d)| + 1;
    }
  }

  /** Written without leading zeros. */
  predicate Plain(s: string) {
    |s| == 1 || (s != "" && s[0] != '0')
  }

  lemma {:induction false} DecimalIsPlain(n: nat)
    ensures Plain(DecimalText(n)) && (n > 0 ==> DecimalText(n)[0] != '0')
  {
    if n >= 10 {
      DecimalIsPlain(n / 10);
      assert DecimalText(n)[0] == DecimalText(n / 10)[0];
    }
  }

  lemma FrontDigits(s: string)
    requires Digits(s) && |s| > 1
    ensures Digits(s[..|s| - 1]) && IsDigit(s[|s| - 1])
    ensures Value(s) == 10 * Value(s[..|s| - 1]) + (s[|s| - 1] as int - '0' as int)
  {
  }

  lemma {:induction false} TextOfValue(s: string)
    requires Digits(s) && Plain(s)
    ensures DecimalText(Value(s)) == s && (s[0] != '0' ==> Value(s) > 0)
  {
    if |s| == 1 {
      assert s[..0] == "" && IsDigit(s[0]);
    } else {
      var front := s[..|s| - 1];
      FrontDigits(s);
      TextOfValue(front);
      assert s == front + [s[|s| - 1]];
    }
  }

  /** Printing the value of some digits gives them back exactly when there are no leading zeros. */
  lemma {:induction false} DecimalOfValue(s: string)
    requires Digits(s)
    ensures Decimal(Value(s)) == s <==> Plain(s)
  {
    DecimalIsPlain(Value(s));
    if Plain(s) {
      TextOfValue(s);
    }
  }

  /** The kernel's `kstrtoint` in base 10: a sign, digits, perhaps one final newline. */
  function Kstrtoint(s: string): Option<int> {
    var negative := s != "" && s[0] == '-';
    var unsigned := if s != "" && s[0] in "+-" then s[1..] else s;
    var digits := if unsigned != "" && unsigned[|unsigned| - 1] == '\n'
                  then unsigned[..|unsigned| - 1] else unsigned;
    if !Digits(digits) then None
    else
      var v: int := Value(digits);
      var val := if negative then -v else v;
      if -0x8000_0000 <= val < 0x8000_0000 then Some(val) else None
  }

  lemma KstrtointOfDigits(s: string)
    requires Digits(s) && Value(s) < 0x8000_0000
    ensures Kstrtoint(s) == Some(Value(s))
  {
    assert IsDigit(s[0]) && IsDigit(s[|s| - 1]);
  }

  /** A sign and one final newline are understood, and what does not fit an `int` is refused. */
  lemma {:induction false} KstrtointSigned(s: string)
    requires Digits(s)
    ensures Value(s) < 0x8000_0000 ==>
              && Kstrtoint("-" + s).Some? && Kstrtoint("-" + s).value + Value(s) == 0
              && Kstrtoint("+" + s) == Some(Value(s)) && Kstrtoint(s + "\n") == Some(Value(s))
    ensures Value(s) >= 0x8000_0000 ==> Kstrtoint(s).None? && Kstrtoint("+" + s).None?
    ensures Value(s) > 0x8000_0000 ==> Kstrtoint("-" + s).None?
  {
    assert IsDigit(s[0]) && IsDigit(s[|s| - 1]);
    assert ("-" + s)[1..] == s && ("+" + s)[1..] == s && (s + "\n")[..|s|] == s;
  }

  // ----- dotted addresses -----

  /** The white space the kernel's `sscanf` skips in front of a number. */
  predicate IsBlank(c: char) {
    c in " \t\n\U{0B}\U{0C}\r\U{A0}"
  }

  function SkipBlanks(s: string): string {
    if s != "" && IsBlank(s[0]) then SkipBlanks(s[1..]) else s
  }

  /** Length of the longest run of digits at the front. */
  function DigitRun(s: string): (n: nat)
    ensures n <= |s| && (n < |s| ==> !IsDigit(s[n]))
    ensures forall k :: 0 <= k < n ==> IsDigit(s[k])
  {
    if s != "" && IsDigit(s[0]) then 1 + DigitRun(s[1..]) else 0
  }

  /** `sscanf` with `n` times `%u`, separated by dots; what follows the last number is ignored. */
  function Scan(s: string, n: nat): (r: Option<seq<nat>>)
    ensures r.Some? ==> |r.value| == n
    decreases n
  {
    if n == 0 then Some([])
    else
      var t := SkipBlanks(s);
      var k := DigitRun(t);
      if k == 0 then None
      else if n == 1 then Some([Value(t[..k])])
      else if k == |t| || t[k] != '.' then None
      else
        var more := Scan(t[k + 1..], n - 1);
        if more.None? then None else Some([Value(t[..k])] + more.value)
  }

  /** `ip_asc_to_int`: four numbers, combined in 32-bit arithmetic. `None` stands for a text on
      which `sscanf` does not fill all four, so that the result is whatever the last one held. */
  function IpAscToInt(s: string): Option<U32> {
    var o := Scan(s, 4);
    if o.Some? then Some(Combine(o.value[0], o.value[1], o.value[2], o.value[3])) else None
  }

  function Combine(a: nat, b: nat, c: nat, d: nat): U32 {
    (a * 0x100_0000 + b * 0x1_0000 + c * 0x100 + d) % TWO32
  }

  /** `inet_ntoa`, given the address in host order. */
  function Dotted(a: U32): string {
    Join(Octets(a), '.')
  }

  function Octets(a: U32): seq<string> {
    [Decimal(a / 0x100_0000), Decimal(a / 0x1_0000 % 0x100), Decimal(a / 0x100 % 0x100), Decimal(a % 0x100)]
  }

  lemma DigitsFree(s: string, c: char)
    requires Digits(s) && !IsDigit(c)
    ensures c !in s
  {
  }

  lemma OctetsRecombine(a: U32)
    ensures Combine(a / 0x100_0000, a / 0x1_0000 % 0x100, a / 0x100 % 0x100, a % 0x100) == a
  {
    var b := a / 0x100;
    var c := b / 0x100;
    assert a / 0x1_0000 == c && a / 0x100_0000 == c / 0x100;
  }

  lemma DivBy256(q: nat, r: nat)
    requires r < 0x100
    ensures (q * 0x100 + r) / 0x100 == q && (q * 0x100 + r) % 0x100 == r
  {
  }

  lemma OctetsOfCombine(a: nat, b: nat, c: nat, d: nat)
    requires a < 0x100 && b < 0x100 && c < 0x100 && d < 0x100
    ensures var n := Combine(a, b, c, d);
            && n / 0x100_0000 == a && n / 0x1_0000 % 0x100 == b && n / 0x100 % 0x100 == c && n % 0x100 == d
  {
    var n := Combine(a, b, c, d);
    var n1 := (a * 0x100 + b) * 0x100 + c;
    assert n == n1 * 0x100 + d;
    DivBy256(n1, d);
    DivBy256(a * 0x100 + b, c);
    DivBy256(a, b);
    assert n / 0x1_0000 == n1 / 0x100 && n / 0x100_0000 == n1 / 0x100 / 0x100;
  }

  lemma DottedPieces(a: U32)
    ensures Split(Dotted(a), '.') == Octets(a)
  {
    var o := Octets(a);
    assert Free(o, '.') by {
      forall i | 0 <= i < 4 ensures '.' !in o[i] { DigitsFree(o[i], '.'); }
    }
    SplitJoin(o, '.');
  }

  lemma {:induction false} DigitRunOf(s: string, tail: string)
    requires Digits(s) && (tail != "" ==> !IsDigit(tail[0]))
    ensures DigitRun(s + tail) == |s| && SkipBlanks(s + tail) == s + tail
    decreases |s|
  {
    assert IsDigit(s[0]);
    assert (s + tail)[1..] == s[1..] + tail;
    if |s| > 1 {
      assert Digits(s[1..]) by {
        forall i | 0 <= i < |s[1..]| ensures IsDigit(s[1..][i]) { assert IsDigit(s[i + 1]); }
      }
      DigitRunOf(s[1..], tail);
    } else {
      assert s[1..] + tail == tail;
    }
  }

  lemma ScanHead(o: string, rest: string, n: nat)
    requires Digits(o) && n > 1
    ensures var more := Scan(rest, n - 1);
            Scan(o + ("." + rest), n) == if more.None? then None else Some([Value(o)] + more.value)
  {
    var s := o + ("." + rest);
    DigitRunOf(o, "." + rest);
    assert s[..|o|] == o && s[|o| + 1..] == rest;
  }

  lemma ScanLast(o: string, tail: string)
    requires Digits(o) && (tail != "" ==> !IsDigit(tail[0]))
    ensures Scan(o + tail, 1) == Some([Value(o)])
  {
    DigitRunOf(o, tail);
    assert (o + tail)[..|o|] == o;
  }

  lemma JoinStep(o: seq<string>, tail: string)
    requires |o| > 1
    ensures Join(o, '.') + tail == o[0] + ("." + (Join(o[1..], '.') + tail))
  {
  }

  lemma ScanPiece(o: seq<string>, tail: string)
    requires |o| > 1 && Digits(o[0])
    ensures var more := Scan(Join(o[1..], '.') + tail, |o| - 1);
            Scan(Join(o, '.') + tail, |o|) == if more.None? then None else Some([Value(o[0])] + more.value)
  {
    JoinStep(o, tail);
    ScanHead(o[0], Join(o[1..], '.') + tail, |o|);
  }

  lemma ScanTwo(o: seq<string>, tail: string)
    requires |o| == 2 && Digits(o[0]) && Digits(o[1]) && (tail != "" ==> !IsDigit(tail[0]))
    ensures Scan(Join(o, '.') + tail, 2) == Some([Value(o[0])] + [Value(o[1])])
  {
    var last := o[1..];
    assert last[0] == o[1] && Join(last, '.') == o[1];
    ScanPiece(o, tail);
    ScanLast(o[1], tail);
  }

  lemma ScanThree(o: seq<string>, tail: string)
    requires |o| == 3 && Digits(o[0]) && Digits(o[1]) && Digits(o[2]) && (tail != "" ==> !IsDigit(tail[0]))
    ensures Scan(Join(o, '.') + tail, 3) == Some([Value(o[0])] + ([Value(o[1])] + [Value(o[2])]))
  {
    var rest := o[1..];
    assert rest[0] == o[1] && rest[1] == o[2];
    ScanPiece(o, tail);
    ScanTwo(rest, tail);
  }

  lemma ScanFour(o: seq<string>, tail: string)
    requires |o| == 4 && Digits(o[0]) && Digits(o[1]) && Digits(o[2]) && Digits(o[3])
    requires tail != "" ==> !IsDigit(tail[0])
    ensures Scan(Join(o, '.') + tail, 4)
         == Some([Value(o[0])] + ([Value(o[1])] + ([Value(o[2])] + [Value(o[3])])))
  {
    var rest := o[1..];
    assert rest[0] == o[1] && rest[1] == o[2] && rest[2] == o[3];
    ScanPiece(o, tail);
    ScanThree(rest, tail);
  }

  /** The value of four dotted octets, whatever text follows them. */
  lemma IpOfPieces(s: string, tail: string)
    requires var o := Split(s, '.');
             |o| == 4 && Digits(o[0]) && Digits(o[1]) && Digits(o[2]) && Digits(o[3])
    requires tail != "" ==> !IsDigit(tail[0])
    ensures var o := Split(s, '.');
            IpAscToInt(s + tail) == Some(Combine(Value(o[0]), Value(o[1]), Value(o[2]), Value(o[3])))
  {
    JoinSplit(s, '.');
    ScanFour(Split(s, '.'), tail);
  }

  lemma CombineModulo(a: nat, b: nat, c: nat, d: nat)
    ensures (a * 0x100_0000 + b * 0x1_0000 + c * 0x100 + d - Combine(a, b, c, d)) % TWO32 == 0
  {
    var n := a * 0x100_0000 + b * 0x1_0000 + c * 0x100 + d;
    assert n - n % TWO32 == TWO32 * (n / TWO32);
  }

  /** Octets of any size count by their places, in 32-bit arithmetic. */
  lemma {:induction false} IpModulo(s: string, tail: string, a: nat, b: nat, c: nat, d: nat)
    requires var o := Split(s, '.');
             && |o| == 4 && Digits(o[0]) && Digits(o[1]) && Digits(o[2]) && Digits(o[3])
             && a == Value(o[0]) && b == Value(o[1]) && c == Value(o[2]) && d == Value(o[3])
    requires tail != "" ==> !IsDigit(tail[0])
    ensures IpAscToInt(s + tail).Some?
    ensures (a * 0x100_0000 + b * 0x1_0000 + c * 0x100 + d - IpAscToInt(s + tail).value) % TWO32 == 0
  {
    assert IpAscToInt(s + tail) == Some(Combine(a, b, c, d)) by {
      IpOfPieces(s, tail);
    }
    CombineModulo(a, b, c, d);
  }

  lemma {:induction false} BlanksInFront(s: string) returns (k: nat)
    ensures k <= |s| && SkipBlanks(s) == s[k..]
  {
    k := 0;
    if s != "" && IsBlank(s[0]) {
      var j := BlanksInFront(s[1..]);
      k := j + 1;
      assert s[1..][j..] == s[k..];
    }
  }

  /** A number may have white space in front of it. */
  lemma BlankIsSkipped(s: string, b: char, n: nat)
    requires IsBlank(b)
    ensures Scan([b] + s, n) == Scan(s, n)
  {
    assert ([b] + s)[1..] == s;
  }

  /** What `Scan` finds behind the first of several numbers. */
  lemma ScanSeparated(s: string, n: nat) returns (k: nat)
    requires n > 1 && Scan(s, n).Some?
    ensures k < |s| && s[k] == '.' && Scan(s[k + 1..], n - 1).Some?
  {
    var j := BlanksInFront(s);
    var t := SkipBlanks(s);
    k := j + DigitRun(t);
    assert t[DigitRun(t) + 1..] == s[k + 1..];
  }

  /** Only dots separate the numbers. */
  lemma {:induction false} ScanNeedsDots(s: string, n: nat)
    requires n >= 1 && Scan(s, n).Some?
    ensures |Split(s, '.')| >= n
    decreases n
  {
    if n > 1 {
      var k := ScanSeparated(s, n);
      ScanNeedsDots(s[k + 1..], n - 1);
      SplitMid(s, k, '.');
    }
  }

  /** Printing an address and parsing it again gives the address, whatever text follows. */
  lemma DottedRoundTrip(a: U32, tail: string)
    requires tail != "" ==> !IsDigit(tail[0])
    ensures IpAscToInt(Dotted(a) + tail) == Some(a)
  {
    DottedPieces(a);
    OctetsRecombine(a);
    IpOfPieces(Dotted(a), tail);
  }

  /** Printing the address of four octets gives their text back exactly when none has leading
      zeros. */
  lemma {:induction false} DottedOfPieces(t: string)
    requires var o := Split(t, '.');
             |o| == 4 && forall i :: 0 <= i < 4 ==> Digits(o[i]) && Value(o[i]) < 0x100
    ensures var o := Split(t, '.');
            && IpAscToInt(t).Some?
            && (Dotted(IpAscToInt(t).value) == t <==> Plain(o[0]) && Plain(o[1]) && Plain(o[2]) && Plain(o[3]))
  {
    var o := Split(t, '.');
    IpOfPieces(t, "");
    assert t + "" == t;
    OctetsOfCombine(Value(o[0]), Value(o[1]), Value(o[2]), Value(o[3]));
    DottedPieces(IpAscToInt(t).value);
    JoinSplit(t, '.');
    DecimalOfValue(o[0]);
    DecimalOfValue(o[1]);
    DecimalOfValue(o[2]);
    DecimalOfValue(o[3]);
    assert Octets(IpAscToInt(t).value) == o <==> Dotted(IpAscToInt(t).value) == t;
  }

  /** Two printed addresses are the same text only when they are the same address, so the
      `strcmp` on dotted texts compares addresses. */
  lemma DottedInjective(a: U32, b: U32)
    ensures Dotted(a) == Dotted(b) <==> a == b
  {
    DottedRoundTrip(a, "");
    DottedRoundTrip(b, "");
    assert Dotted(a) + "" == Dotted(a) && Dotted(b) + "" == Dotted(b);
  }
}
