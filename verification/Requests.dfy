/** A well-formed request, and the NAT entry it stands for. */
module Requests {
  import opened Words
  import opened Text
  import opened NatTable

  const NUL: char := '\0'

  /** What Python's `strip()` removes. */
  predicate IsSpace(c: char) {
    || c in "\t\n\r\U{0B}\U{0C}\U{1C}\U{1D}\U{1E}\U{1F} \U{85}\U{A0}\U{1680}\U{2028}\U{2029}\U{202F}\U{205F}\U{3000}"
    || '\U{2000}' <= c <= '\U{200A}'
  }

  /** Non-empty, ASCII, without spaces and NULs. */
  ghost predicate Clean(t: string) {
    t != "" && NUL !in t && forall i :: 0 <= i < |t| ==> !IsSpace(t[i]) && t[i] < '\U{80}'
  }

  ghost predicate AllClean(f: seq<string>) {
    forall i :: 0 <= i < |f| ==> Clean(f[i])
  }

  predicate IsOctet(t: string) {
    Digits(t) && Value(t) < 0x100
  }

  /** Four decimal octets. */
  predicate IsAddress(t: string) {
    var o := Split(t, '.');
    |o| == 4 && IsOctet(o[0]) && IsOctet(o[1]) && IsOctet(o[2]) && IsOctet(o[3])
  }

  /** A decimal port; the reprinter copies it into 15 bytes. */
  predicate IsPort(t: string) {
    Digits(t) && Value(t) < 0x1_0000 && |t| <= 14
  }

  function AddressWord(t: string): U32
    requires IsAddress(t)
  {
    AddressIsRead(t);
    Swap32(IpAscToInt(t).value)
  }

  /** No octet has leading zeros: the form in which `inet_ntoa` prints. */
  predicate IsPlainAddress(t: string) {
    var o := Split(t, '.');
    IsAddress(t) && Plain(o[0]) && Plain(o[1]) && Plain(o[2]) && Plain(o[3])
  }

  /** Some packet's address prints as `t` exactly when it is the address `t` and `t` is plain. */
  lemma {:induction false} PrintsAsIff(t: string, a: U32)
    requires IsAddress(t)
    ensures Dotted(a) == t <==> Swap32(a) == AddressWord(t) && IsPlainAddress(t)
  {
    DottedOfPieces(t);
    var v := IpAscToInt(t).value;
    SwapsAreInvolutions(a, 0);
    SwapsAreInvolutions(v, 0);
    if Dotted(a) == t {
      DottedRoundTrip(a, "");
      assert Dotted(a) + "" == t;
    }
  }

  lemma AddressIsRead(t: string)
    requires IsAddress(t)
    ensures IpAscToInt(t).Some?
  {
    IpOfPieces(t, "");
    assert t + "" == t;
  }

  function PortWord(t: string): U16
    requires IsPort(t)
  {
    Swap16(Value(t))
  }

  /** In memory, byte by byte from the lowest address, this word holds the port: high byte first. */
  predicate PortBytes(w: U16, port: nat) {
    w % 0x100 == port / 0x100 && w / 0x100 == port % 0x100
  }

  /** In memory this word holds the octets of the address in the order written. */
  predicate AddressBytes(w: U32, t: string)
    requires IsAddress(t)
  {
    var o := Split(t, '.');
    && w % 0x100 == Value(o[0]) && w / 0x100 % 0x100 == Value(o[1])
    && w / 0x1_0000 % 0x100 == Value(o[2]) && w / 0x100_0000 == Value(o[3])
  }

  /** A port's word is its two bytes in network order. */
  lemma {:induction false} PortInMemory(t: string)
    requires IsPort(t)
    ensures PortBytes(PortWord(t), Value(t))
  {
    SwappedBytes(Value(t));
  }

  lemma SwappedBytes(port: U16)
    ensures PortBytes(Swap16(port), port)
  {
    var hi, lo := port / 0x100, port % 0x100;
    assert port == hi * 0x100 + lo;
    Swap16Bytes(hi, lo);
    TwoBytes(lo, hi);
  }

  lemma OctetsOfWord(a: U8, b: U8, c: U8, d: U8)
    ensures var w := d * 0x100_0000 + c * 0x1_0000 + b * 0x100 + a;
            w % 0x100 == a && w / 0x100 % 0x100 == b && w / 0x1_0000 % 0x100 == c && w / 0x100_0000 == d
  {
    OctetsOfCombine(d, c, b, a);
    assert Combine(d, c, b, a) == d * 0x100_0000 + c * 0x1_0000 + b * 0x100 + a;
  }

  /** An address word is its four octets, in the order they are written. */
  lemma {:induction false} AddressInMemory(t: string)
    requires IsAddress(t)
    ensures AddressBytes(AddressWord(t), t)
  {
    var o := Split(t, '.');
    AddressOfOctets(t);
    SwappedOctets(Value(o[0]), Value(o[1]), Value(o[2]), Value(o[3]));
  }

  lemma AddressOfOctets(t: string)
    requires IsAddress(t)
    ensures var o := Split(t, '.');
            AddressWord(t) == Swap32(Combine(Value(o[0]), Value(o[1]), Value(o[2]), Value(o[3])))
  {
    IpOfPieces(t, "");
    assert t + "" == t;
  }

  lemma SwappedOctets(a: U8, b: U8, c: U8, d: U8)
    ensures var w := Swap32(Combine(a, b, c, d));
            w % 0x100 == a && w / 0x100 % 0x100 == b && w / 0x1_0000 % 0x100 == c && w / 0x100_0000 == d
  {
    assert Combine(a, b, c, d) == a * 0x100_0000 + b * 0x1_0000 + c * 0x100 + d;
    Swap32Bytes(a, b, c, d);
    OctetsOfWord(a, b, c, d);
  }

  /** Four octets make one word. */
  lemma {:induction false} BytesDecide(t: string, w: U32)
    requires IsAddress(t) && AddressBytes(w, t)
    ensures w == AddressWord(t)
  {
    AddressInMemory(t);
    WordOfOctets(w);
    WordOfOctets(AddressWord(t));
  }

  lemma WordOfOctets(w: U32)
    ensures w == w / 0x100_0000 * 0x100_0000 + w / 0x1_0000 % 0x100 * 0x1_0000 + w / 0x100 % 0x100 * 0x100 + w % 0x100
  {
    var b := w / 0x100;
    var c := b / 0x100;
    var d := c / 0x100;
    assert w == b * 0x100 + w % 0x100 && b == c * 0x100 + b % 0x100 && c == d * 0x100 + c % 0x100;
    assert w / 0x1_0000 == c && w / 0x100_0000 == d;
  }

  /** request_id, command, src_ip, dst_ip, s_nat_ip, d_nat_ip, src_port, dst_port, s_nat_port,
      d_nat_port: the part of a request the kernel uses. */
  predicate Usable(f: seq<string>) {
    && |f| >= 10
    && IsAddress(f[2]) && IsAddress(f[3]) && IsAddress(f[4]) && IsAddress(f[5])
    && IsPort(f[6]) && IsPort(f[7]) && IsPort(f[8]) && IsPort(f[9])
  }

  /** The entry these fields describe. */
  function EntryOf(f: seq<string>): Entry
    requires Usable(f)
  {
    Entry(AddressWord(f[2]), AddressWord(f[3]), AddressWord(f[4]), AddressWord(f[5]),
          PortWord(f[6]), PortWord(f[7]), PortWord(f[8]), PortWord(f[9]))
  }

  /** Size of every buffer on the way to the kernel. */
  const MAX_PAYLOAD: nat := 1024

  function Line(f: seq<string>): string
    requires |f| >= 1
  {
    Join(f, ' ')
  }

  /** A request as the documentation lays it out: 12 fields, single spaces, short enough for the
      buffers. */
  ghost predicate WellFormed(f: seq<string>) {
    && |f| == 12 && (f[1] == "S" || f[1] == "D") && Usable(f) && AllClean(f)
    && |Line(f)| < MAX_PAYLOAD
  }

  lemma FieldsAreFree(f: seq<string>)
    requires |f| >= 1 && AllClean(f)
    ensures Free(f, ' ') && Split(Line(f), ' ') == f
  {
    forall i | 0 <= i < |f| ensures ' ' !in f[i] {
      assert Clean(f[i]) && IsSpace(' ');
    }
    SplitJoin(f, ' ');
  }

  lemma {:induction false} JoinWithout(ts: seq<string>, c: char, d: char)
    requires |ts| >= 1 && c != d && Free(ts, d)
    ensures d !in Join(ts, c)
    decreases |ts|
  {
    if |ts| > 1 {
      JoinWithout(ts[1..], c, d);
    }
  }

  lemma LineIsNulFree(f: seq<string>)
    requires WellFormed(f)
    ensures NUL !in Line(f)
  {
    forall i | 0 <= i < |f| ensures NUL !in f[i] { assert Clean(f[i]); }
    JoinWithout(f, ' ', NUL);
  }

  // ----- what the kernel's parser makes of the fields -----

  lemma ParsePort(t: string, r: Regs)
    requires IsPort(t)
    ensures Htons(r.Num(t)) == PortWord(t)
  {
    KstrtointOfDigits(t);
    assert r.Num(t) == Value(t) && Value(t) % 0x1_0000 == Value(t);
  }

  /** Tokens behind the tenth never matter: the time-out and the call id are only stored. */
  lemma ParsePrefix(f: seq<string>, unset: Regs)
    requires |f| >= 10
    ensures Parse(f, unset) == Parse(f[..10], unset)
  {
    ParseTail(f[..10], f[10..], unset);
    assert f[..10] + f[10..] == f;
  }

  lemma ParseNext(f: seq<string>, k: nat, unset: Regs)
    requires k < |f|
    ensures Parse(f[..k + 1], unset) == Parse(f[..k], unset).Assign(k, f[k])
  {
    assert f[..k + 1] == f[..k] + [f[k]];
    ParseSnoc(f[..k], f[k], unset);
  }

  lemma {:induction false} ParseAddresses(f: seq<string>, unset: Regs)
    requires Usable(f)
    ensures var r := Parse(f[..6], unset);
            && r.session == Some(f[1])
            && Swap32(r.src) == AddressWord(f[2]) && Swap32(r.dst) == AddressWord(f[3])
            && Swap32(r.snat) == AddressWord(f[4]) && Swap32(r.dnat) == AddressWord(f[5])
            && r.key2 == AddressWord(f[2]) && r.key1 == AddressWord(f[5])
  {
    ParseNext(f, 0, unset);
    ParseNext(f, 1, unset);
    ParseNext(f, 2, unset);
    ParseNext(f, 3, unset);
    ParseNext(f, 4, unset);
    ParseNext(f, 5, unset);
    AddressIsRead(f[2]);
    AddressIsRead(f[3]);
    AddressIsRead(f[4]);
    AddressIsRead(f[5]);
  }

  /** The parser fills in exactly the entry of the fields and its two keys. */
  lemma {:induction false} ParseUsable(f: seq<string>, unset: Regs)
    requires Usable(f)
    ensures var r := Parse(f, unset); var e := EntryOf(f);
            r.session == Some(f[1]) && r.NearEntry() == e && r.key1 == e.Key1() && r.key2 == e.Key2()
  {
    ParsePrefix(f, unset);
    ParseAddresses(f, unset);
    var r6 := Parse(f[..6], unset);
    ParseNext(f, 6, unset);
    ParsePort(f[6], r6);
    var r7 := Parse(f[..7], unset);
    ParseNext(f, 7, unset);
    ParsePort(f[7], r7);
    var r8 := Parse(f[..8], unset);
    ParseNext(f, 8, unset);
    ParsePort(f[8], r8);
    var r9 := Parse(f[..9], unset);
    ParseNext(f, 9, unset);
    ParsePort(f[9], r9);
  }

  /** What lies in the entry's memory: the octets and ports of the eight fields, in network order. */
  ghost predicate InMemory(e: Entry, f: seq<string>)
    requires Usable(f)
  {
    && AddressBytes(e.srcIp, f[2]) && AddressBytes(e.dstIp, f[3])
    && AddressBytes(e.snatIp, f[4]) && AddressBytes(e.dnatIp, f[5])
    && PortBytes(e.srcPort, Value(f[6])) && PortBytes(e.dstPort, Value(f[7]))
    && PortBytes(e.snatPort, Value(f[8])) && PortBytes(e.dnatPort, Value(f[9]))
  }

  /** So what the parser stores is, byte by byte, what the request says. */
  lemma {:induction false} ParsedInMemory(f: seq<string>, unset: Regs)
    requires Usable(f)
    ensures InMemory(Parse(f, unset).NearEntry(), f)
  {
    ParseUsable(f, unset);
    EntryInMemory(f);
  }

  lemma EntryInMemory(f: seq<string>)
    requires Usable(f)
    ensures InMemory(EntryOf(f), f)
  {
    AddressInMemory(f[2]);
    AddressInMemory(f[3]);
    AddressInMemory(f[4]);
    AddressInMemory(f[5]);
    PortInMemory(f[6]);
    PortInMemory(f[7]);
    PortInMemory(f[8]);
    PortInMemory(f[9]);
  }

  /** A port the kernel cannot read takes the value of the port before it. */
  lemma {:induction false} BadPortRepeats(f: seq<string>, unset: Regs)
    requires |f| >= 10
    ensures var r := Parse(f, unset);
            && (Kstrtoint(f[7]).None? ==> r.dstPort == r.srcPort)
            && (Kstrtoint(f[8]).None? ==> r.snatPort == r.dstPort)
            && (Kstrtoint(f[9]).None? ==> r.dnatPort == r.snatPort)
  {
    ParsePrefix(f, unset);
    ParseNext(f, 6, unset);
    ParseNext(f, 7, unset);
    ParseNext(f, 8, unset);
    ParseNext(f, 9, unset);
  }
}
