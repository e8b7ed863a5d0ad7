/** The netfilter hooks: a UDP packet's headers are overwritten in place from the entries of one
    bucket, and its checksums recomputed. */
module Hooks {
  import opened Words
  import opened Checksum
  import opened Chains
  import opened NatTable

  /** The addresses and ports of a UDP packet, as network-order words. */
  datatype Header = Header(saddr: U32, daddr: U32, source: U16, dest: U16)

  /** What the loop body writes; nothing of the old header survives. */
  function Rewrite(e: Entry): Header {
    Header(FlipLow(e.snatIp), e.srcIp, e.snatPort, e.srcPort)
  }

  /** The bucket a packet is looked up in. */
  function LookupKey(h: Header): U32 {
    Key(h.saddr, h.dest)
  }

  /** PREROUTING as one rewrite: the oldest entry of the bucket decides. */
  function Pre(hash: Hash, t: Table<Entry>, h: Header): Header {
    var chain := t[hash(LookupKey(h))];
    if chain == [] then h else Rewrite(chain[|chain| - 1])
  }

  /** POSTROUTING: no lookup, the source address is always changed. */
  function Post(h: Header): Header {
    h.(saddr := FlipLow(h.saddr))
  }

  /** Through both hooks; routing in between leaves the header alone. */
  function Through(hash: Hash, t: Table<Entry>, h: Header): Header {
    Post(Pre(hash, t, h))
  }

  const UDP: U8 := 17

  /** An IPv4 packet as 16-bit words in the order they lie in memory; `front` holds the header
      words before time-to-live and protocol. */
  class Packet {
    const front: seq<U16>
    const ttl: U8
    const protocol: U8
    const options: seq<U16>
    const length: U16      // the UDP length field, in network order
    const data: seq<U16>   // the UDP payload, an odd last byte padded with zero
    var check: U16
    var udpCheck: U16
    var h: Header

    constructor (front: seq<U16>, ttl: U8, protocol: U8, options: seq<U16>, length: U16, data: seq<U16>,
                 check: U16, udpCheck: U16, h: Header)
      ensures this.front == front && this.ttl == ttl && this.protocol == protocol && this.options == options
      ensures this.length == length && this.data == data
      ensures this.check == check && this.udpCheck == udpCheck && this.h == h
    {
      this.front, this.ttl, this.protocol, this.options := front, ttl, protocol, options;
      this.length, this.data, this.check, this.udpCheck, this.h := length, data, check, udpCheck, h;
    }

    /** The IPv4 header with `check` in its checksum field (section 3.1 of RFC 791). */
    function IpWords(check: U16): seq<U16>
      reads this
    {
      front + [ttl + protocol * 0x100] + [check] + Addresses() + options
    }

    function Addresses(): seq<U16>
      reads this
    {
      [h.saddr % 0x1_0000, h.saddr / 0x1_0000, h.daddr % 0x1_0000, h.daddr / 0x1_0000]
    }

    /** Pseudo-header of a datagram of `length` and the datagram itself, with `check` in the UDP
        checksum field (RFC 768). */
    function UdpWords(length: U16, check: U16): seq<U16>
      reads this
    {
      Addresses() + [Swap16(UDP), length] + [h.source, h.dest, this.length] + [check] + data
    }

    predicate IpVerifies()
      reads this
    {
      Verifies(IpWords(check))
    }

    /** A receiver takes the pseudo-header length from the UDP length field. */
    predicate UdpVerifies()
      reads this
    {
      Verifies(UdpWords(length, udpCheck))
    }

    /** `update_udp_ip_checksum`; `len` is `skb->len - 4*iph->ihl` in network order. Both checksums
        verify afterwards, the UDP one provided the length field agrees with the IP payload. A
        UDP checksum that comes out as zero is stored as zero, which receivers take as absent. */
    method UpdateChecksums(len: U16)
      modifies this`check, this`udpCheck
      ensures IpVerifies()
      ensures Verifies(UdpWords(len, udpCheck))
      ensures len == length ==> UdpVerifies()
      ensures udpCheck == 0 <==> Verifies(UdpWords(len, 0))
      ensures (Sum(front) + ttl + 0x100 * protocol + check + h.saddr + h.daddr + Sum(options)) % 0xFFFF == 0
      ensures (h.saddr + h.daddr + 0x1100 + len + h.source + h.dest + length + udpCheck + Sum(data)) % 0xFFFF == 0
    {
      check := 0;
      check := Complement(IpWords(check));
      udpCheck := 0;
      udpCheck := Complement(UdpWords(len, udpCheck));
      StoredComplementVerifies(front + [ttl + protocol * 0x100], check, Addresses() + options);
      forall c: U16
        ensures IpWords(c) == front + [ttl + protocol * 0x100] + [c] + (Addresses() + options)
      {}
      StoredComplementVerifies(Addresses() + [Swap16(UDP), len] + [h.source, h.dest, length], udpCheck, data);
      IpVerifiesIff(this);
      UdpSumVerifiesIff(this, len);
    }
  }

  lemma SumFour(a: U16, b: U16, c: U16, d: U16)
    ensures Sum([a, b]) == a + b && Sum([a, b, c]) == a + b + c && Sum([a, b, c, d]) == a + b + c + d
  {
    SumAround([], a, [b]);
    SumAround([], b, []);
    SumAround([a, b], c, [d]);
    SumAround([a, b], c, []);
    SumAround([], d, []);
    assert [] + [a] + [b] == [a, b] && [] + [b] + [] == [b] && [] + [d] + [] == [d];
    assert [a, b] + [c] + [] == [a, b, c] && [a, b] + [c] + [d] == [a, b, c, d];
  }

  lemma AddressesSum(p: Packet)
    ensures (p.h.saddr + p.h.daddr - Sum(p.Addresses())) % 0xFFFF == 0
    ensures Sum(p.Addresses()) == 0 <==> p.h.saddr + p.h.daddr == 0
  {
    SumFour(p.h.saddr % 0x1_0000, p.h.saddr / 0x1_0000, p.h.daddr % 0x1_0000, p.h.daddr / 0x1_0000);
    HalvesSum(p.h.saddr);
    HalvesSum(p.h.daddr);
    assert p.h.saddr + p.h.daddr - Sum(p.Addresses()) == 0xFFFF * (p.h.saddr / 0x1_0000 + p.h.daddr / 0x1_0000);
  }

  lemma IpSum(p: Packet)
    ensures Sum(p.IpWords(p.check))
         == Sum(p.front) + p.ttl + 0x100 * p.protocol + p.check + Sum(p.Addresses()) + Sum(p.options)
  {
    var first: seq<U16> := p.front + [p.ttl + p.protocol * 0x100];
    SumConcat(first + [p.check] + p.Addresses(), p.options);
    SumConcat(first + [p.check], p.Addresses());
    SumAround(first, p.check, []);
    SumAround(p.front, p.ttl + p.protocol * 0x100, []);
    assert first + [p.check] + [] == first + [p.check] && p.front + [p.ttl + p.protocol * 0x100] + [] == first;
  }

  lemma SameRemainder(n: nat, m: nat)
    requires (n - m) % 0xFFFF == 0 && (n == 0 <==> m == 0)
    ensures n > 0 && n % 0xFFFF == 0 <==> m > 0 && m % 0xFFFF == 0
  {
    var k := (n - m) / 0xFFFF;
    assert n == m + 0xFFFF * k;
  }

  /** What a receiver of the IPv4 header tests, field by field: with the time-to-live in the low and
      the protocol in the high byte of their word, and the checksum and both addresses as they lie
      in memory, everything adds up to a positive multiple of 65535. */
  lemma {:induction false} IpVerifiesIff(p: Packet)
    ensures var n := Sum(p.front) + p.ttl + 0x100 * p.protocol + p.check + p.h.saddr + p.h.daddr + Sum(p.options);
            p.IpVerifies() <==> n > 0 && n % 0xFFFF == 0
  {
    IpSum(p);
    AddressesSum(p);
    VerifiesIff(p.IpWords(p.check));
    SameRemainder(Sum(p.front) + p.ttl + 0x100 * p.protocol + p.check + p.h.saddr + p.h.daddr + Sum(p.options),
                  Sum(p.IpWords(p.check)));
  }

  lemma UdpSum(p: Packet, len: U16)
    ensures Sum(p.UdpWords(len, p.udpCheck))
         == Sum(p.Addresses()) + 0x1100 + len + p.h.source + p.h.dest + p.length + p.udpCheck + Sum(p.data)
  {
    var front, mid := p.Addresses() + [Swap16(UDP), len], [p.h.source, p.h.dest, p.length];
    SumAround(front + mid, p.udpCheck, p.data);
    SumConcat(front, mid);
    SumConcat(p.Addresses(), [Swap16(UDP), len]);
    SumFour(p.h.source, p.h.dest, p.length, 0);
    SumFour(Swap16(UDP), len, 0, 0);
    Swap16Bytes(0, UDP);
  }

  lemma {:induction false} UdpSumVerifiesIff(p: Packet, len: U16)
    ensures var n := p.h.saddr + p.h.daddr + 0x1100 + len + p.h.source + p.h.dest + p.length + p.udpCheck + Sum(p.data);
            Verifies(p.UdpWords(len, p.udpCheck)) <==> n % 0xFFFF == 0
  {
    UdpSum(p, len);
    AddressesSum(p);
    VerifiesIff(p.UdpWords(len, p.udpCheck));
    SameRemainder(p.h.saddr + p.h.daddr + 0x1100 + len + p.h.source + p.h.dest + p.length + p.udpCheck + Sum(p.data),
                  Sum(p.UdpWords(len, p.udpCheck)));
  }

  /** What a receiver of the datagram tests: addresses, protocol number 17 in the high byte of its
      word, the length twice, both ports, the checksum and the payload add up to a multiple of
      65535. */
  lemma {:induction false} UdpVerifiesIff(p: Packet)
    ensures var n := p.h.saddr + p.h.daddr + 0x1100 + 2 * p.length + p.h.source + p.h.dest + p.udpCheck + Sum(p.data);
            p.UdpVerifies() <==> n % 0xFFFF == 0
  {
    UdpSumVerifiesIff(p, p.length);
  }

  // ----- one field decides -----

  datatype Field =
    | Ttl | Protocol | Check | FrontWord(i: nat) | OptionWord(i: nat)
    | SourceLow | SourceHigh | TargetLow | TargetHigh
    | SourcePort | TargetPort | Length | UdpCheck | DataWord(i: nat)

  ghost predicate WordsEqualBut(v: seq<U16>, w: seq<U16>, here: bool, i: nat) {
    v == w || (here && i < |v| == |w| && w == v[i := w[i]])
  }

  ghost predicate AddressEqualBut(a: U32, b: U32, low: bool, high: bool) {
    a == b || (low && a / 0x1_0000 == b / 0x1_0000) || (high && a % 0x1_0000 == b % 0x1_0000)
  }

  ghost predicate AddressesEqualBut(p: Packet, q: Packet, f: Field)
    reads p, q
  {
    && AddressEqualBut(p.h.saddr, q.h.saddr, f.SourceLow?, f.SourceHigh?)
    && AddressEqualBut(p.h.daddr, q.h.daddr, f.TargetLow?, f.TargetHigh?)
  }

  /** Two IPv4 headers that agree in everything but one field. */
  ghost predicate IpEqualBut(p: Packet, q: Packet, f: Field)
    reads p, q
  {
    && (f.Ttl? || p.ttl == q.ttl) && (f.Protocol? || p.protocol == q.protocol) && (f.Check? || p.check == q.check)
    && WordsEqualBut(p.front, q.front, f.FrontWord?, if f.FrontWord? then f.i else 0)
    && WordsEqualBut(p.options, q.options, f.OptionWord?, if f.OptionWord? then f.i else 0)
    && AddressesEqualBut(p, q, f)
  }

  /** Two datagrams that agree in everything but one field. */
  ghost predicate UdpEqualBut(p: Packet, q: Packet, f: Field)
    reads p, q
  {
    && (f.SourcePort? || p.h.source == q.h.source) && (f.TargetPort? || p.h.dest == q.h.dest)
    && (f.Length? || p.length == q.length) && (f.UdpCheck? || p.udpCheck == q.udpCheck)
    && WordsEqualBut(p.data, q.data, f.DataWord?, if f.DataWord? then f.i else 0)
    && AddressesEqualBut(p, q, f)
  }

  ghost predicate WordsSame(v: seq<U16>, w: seq<U16>) {
    |v| == |w| && forall i :: 0 <= i < |v| ==> SameWord(v[i], w[i])
  }

  ghost predicate AddressSame(a: U32, b: U32) {
    SameWord(a % 0x1_0000, b % 0x1_0000) && SameWord(a / 0x1_0000, b / 0x1_0000)
  }

  lemma WordsDecide(v: seq<U16>, w: seq<U16>, here: bool, i: nat)
    requires WordsEqualBut(v, w, here, i) && (Sum(v) - Sum(w)) % 0xFFFF == 0
    ensures WordsSame(v, w)
  {
    if v != w {
      SumUpdate(v, i, w[i]);
      assert (v[i] as int - w[i] as int) == Sum(v) - Sum(w);
      SameModulo(v[i], w[i]);
      forall k | 0 <= k < |v| ensures SameWord(v[k], w[k]) {
        if k != i { assert w[k] == v[i := w[i]][k]; }
      }
    }
  }

  lemma AddressDecides(a: U32, b: U32, low: bool, high: bool)
    requires AddressEqualBut(a, b, low, high) && (a - b) % 0xFFFF == 0
    ensures AddressSame(a, b)
  {
    HalvesSum(a);
    HalvesSum(b);
    var la, ha, lb, hb := a % 0x1_0000, a / 0x1_0000, b % 0x1_0000, b / 0x1_0000;
    var k := (a - b) / 0xFFFF;
    assert a - b == 0xFFFF * k;
    assert la + ha - (lb + hb) == 0xFFFF * (k - ha + hb);
    if ha == hb {
      SameModulo(la, lb);
    } else {
      SameModulo(ha, hb);
    }
  }

  lemma Multiples(n: nat, m: nat)
    requires n % 0xFFFF == 0 && m % 0xFFFF == 0
    ensures (n - m) % 0xFFFF == 0
  {
    var j, k := n / 0xFFFF, m / 0xFFFF;
    assert n - m == 0xFFFF * (j - k);
  }

  /** At most one value of each field of the IPv4 header verifies with the rest as it is; a full
      word has two forms of zero. */
  lemma {:induction false} IpFieldDecides(p: Packet, q: Packet, f: Field)
    requires IpEqualBut(p, q, f) && p.IpVerifies() && q.IpVerifies()
    ensures p.ttl == q.ttl && p.protocol == q.protocol && SameWord(p.check, q.check)
    ensures WordsSame(p.front, q.front) && WordsSame(p.options, q.options)
    ensures AddressSame(p.h.saddr, q.h.saddr) && AddressSame(p.h.daddr, q.h.daddr)
  {
    IpVerifiesIff(p);
    IpVerifiesIff(q);
    var n := Sum(p.front) + p.ttl + 0x100 * p.protocol + p.check + p.h.saddr + p.h.daddr + Sum(p.options);
    var m := Sum(q.front) + q.ttl + 0x100 * q.protocol + q.check + q.h.saddr + q.h.daddr + Sum(q.options);
    Multiples(n, m);
    match f {
      case Check => SameModulo(p.check, q.check);
      case FrontWord(i) => WordsDecide(p.front, q.front, true, i);
      case OptionWord(i) => WordsDecide(p.options, q.options, true, i);
      case SourceLow => AddressDecides(p.h.saddr, q.h.saddr, true, false);
      case SourceHigh => AddressDecides(p.h.saddr, q.h.saddr, false, true);
      case TargetLow => AddressDecides(p.h.daddr, q.h.daddr, true, false);
      case TargetHigh => AddressDecides(p.h.daddr, q.h.daddr, false, true);
      case _ =>
    }
  }

  lemma DoubledWord(v: U16, w: U16)
    requires (2 * v - 2 * w) % 0xFFFF == 0
    ensures SameWord(v, w)
  {
    var k := (2 * v - 2 * w) / 0xFFFF;
    assert 2 * v - 2 * w == 0xFFFF * k;
  }

  /** The same for the datagram, with the length counted twice. */
  lemma {:induction false} UdpFieldDecides(p: Packet, q: Packet, f: Field)
    requires UdpEqualBut(p, q, f) && p.UdpVerifies() && q.UdpVerifies()
    ensures SameWord(p.h.source, q.h.source) && SameWord(p.h.dest, q.h.dest)
    ensures SameWord(p.length, q.length) && SameWord(p.udpCheck, q.udpCheck) && WordsSame(p.data, q.data)
    ensures AddressSame(p.h.saddr, q.h.saddr) && AddressSame(p.h.daddr, q.h.daddr)
  {
    UdpVerifiesIff(p);
    UdpVerifiesIff(q);
    var n := p.h.saddr + p.h.daddr + 0x1100 + 2 * p.length + p.h.source + p.h.dest + p.udpCheck + Sum(p.data);
    var m := q.h.saddr + q.h.daddr + 0x1100 + 2 * q.length + q.h.source + q.h.dest + q.udpCheck + Sum(q.data);
    Multiples(n, m);
    match f {
      case SourcePort => SameModulo(p.h.source, q.h.source);
      case TargetPort => SameModulo(p.h.dest, q.h.dest);
      case Length => DoubledWord(p.length, q.length);
      case UdpCheck => SameModulo(p.udpCheck, q.udpCheck);
      case DataWord(i) => WordsDecide(p.data, q.data, true, i);
      case SourceLow => AddressDecides(p.h.saddr, q.h.saddr, true, false);
      case SourceHigh => AddressDecides(p.h.saddr, q.h.saddr, false, true);
      case TargetLow => AddressDecides(p.h.daddr, q.h.daddr, true, false);
      case TargetHigh => AddressDecides(p.h.daddr, q.h.daddr, false, true);
      case _ =>
    }
  }

  /** Whatever the header and the payload but for its last word, some last word makes the UDP
      checksum come out, and be stored, as zero: `q` is `p` with that word. */
  lemma {:induction false} SomeChecksumIsZero(p: Packet, q: Packet, len: U16)
    requires p.data != [] && p.h == q.h && p.length == q.length
    requires q.data == p.data[..|p.data| - 1]
                       + [Complement(p.Addresses() + [Swap16(UDP), len] + [p.h.source, p.h.dest, p.length] + [0]
                                     + p.data[..|p.data| - 1])]
    ensures Verifies(q.UdpWords(len, 0))
  {
    var front := p.data[..|p.data| - 1];
    var words := p.Addresses() + [Swap16(UDP), len] + [p.h.source, p.h.dest, p.length] + [0] + front;
    ZeroComplement(words);
    assert q.UdpWords(len, 0) == words + [Complement(words)];
  }

  /** The two addresses differ in the lowest bit of the word and nowhere else: in network order
      that is the lowest bit of the first octet. */
  predicate OneBitApart(a: U32, b: U32) {
    a / 2 == b / 2 && a != b
  }

  lemma OneBitApartIff(a: U32, b: U32)
    ensures OneBitApart(a, b) <==> a == FlipLow(b)
  {
    FlipLowBit(b);
  }

  /** Nothing but that bit of the source address has changed. */
  predicate SourceDisguised(h: Header, h': Header) {
    OneBitApart(h'.saddr, h.saddr) && h'.daddr == h.daddr && h'.source == h.source && h'.dest == h.dest
  }

  /** `main_hook_pre`: one overwrite and one checksum update for every entry of the bucket. */
  method MainHookPre(hash: Hash, table: array<seq<Node>>, p: Packet, len: U16)
    requires table.Length == BUCKETS
    modifies p
    ensures p.protocol != UDP ==> unchanged(p)
    ensures p.protocol == UDP ==> p.h == Pre(hash, Entries(table[..]), old(p.h))
    ensures p.protocol == UDP ==> var chain := table[hash(LookupKey(old(p.h)))];
              && (chain == [] ==> unchanged(p))
              && (chain != [] ==> p.IpVerifies() && (len == p.length ==> p.UdpVerifies()))
              && (chain != [] ==>
                    var e := chain[|chain| - 1].entry;
                    && p.h.daddr == e.srcIp && p.h.dest == e.srcPort && p.h.source == e.snatPort
                    && OneBitApart(p.h.saddr, e.snatIp))
  {
    if p.protocol == UDP {
      var key := LookupKey(p.h);
      var chain := table[hash(key)];
      for i := 0 to |chain|
        invariant i == 0 ==> unchanged(p)
        invariant i > 0 ==> p.h == Rewrite(chain[i - 1].entry)
        invariant i > 0 ==> OneBitApart(p.h.saddr, chain[i - 1].entry.snatIp)
        invariant i > 0 ==> p.IpVerifies() && (len == p.length ==> p.UdpVerifies())
      {
        var e := chain[i].entry;
        p.h := p.h.(daddr := e.srcIp);
        p.h := p.h.(dest := e.srcPort);
        p.h := p.h.(source := e.snatPort);
        p.h := p.h.(saddr := FlipLow(e.snatIp));
        FlipLowBit(e.snatIp);
        p.UpdateChecksums(len);
      }
    }
  }

  /** `main_hook_post`. */
  method MainHookPost(p: Packet, len: U16)
    modifies p
    ensures p.protocol != UDP ==> unchanged(p)
    ensures p.protocol == UDP ==> p.h == Post(old(p.h))
    ensures p.protocol == UDP ==> SourceDisguised(old(p.h), p.h)
    ensures p.protocol == UDP ==> p.IpVerifies() && (len == p.length ==> p.UdpVerifies())
  {
    if p.protocol == UDP {
      FlipLowBit(p.h.saddr);
      p.h := p.h.(saddr := FlipLow(p.h.saddr));
      p.UpdateChecksums(len);
    }
  }

  // ----- what the hooks do to a call -----

  /** The near end's packet before the hooks, and the far end's reply before the hooks. */
  function FromNear(e: Entry): Header {
    Header(e.srcIp, e.snatIp, e.srcPort, e.snatPort)
  }

  function FromFar(e: Entry): Header {
    Header(e.dnatIp, e.dstIp, e.dnatPort, e.dstPort)
  }

  function Reversed(h: Header): Header {
    Header(h.daddr, h.saddr, h.dest, h.source)
  }

  function SetupOf(e: Entry): Op<Entry> {
    Setup(e.Key1(), e.Key2(), e, e.Mirror())
  }

  /** The two directions of the call `e` are relayed by `t`: each end's packet arrives at the
      other end, coming from the address and port that end sends to itself. */
  ghost predicate Relays(hash: Hash, t: Table<Entry>, e: Entry) {
    && Through(hash, t, FromNear(e)) == Reversed(FromFar(e))
    && Through(hash, t, FromFar(e)) == Reversed(FromNear(e))
  }

  /** The entry that decides for bucket `b` once the call `e` is set up over `t`: the oldest one
      already there, else the first one the set-up links. */
  function Deciding(hash: Hash, t: Table<Entry>, e: Entry, b: Bucket): Entry {
    if t[b] != [] then t[b][|t[b]| - 1]
    else if b == hash(e.Key1()) then e
    else e.Mirror()
  }

  /** The mirrored entry is that of the same call seen from the other end. */
  lemma {:induction false} MirrorSwapsEnds(e: Entry)
    ensures FromNear(e.Mirror()) == FromFar(e) && FromFar(e.Mirror()) == FromNear(e)
    ensures e.Mirror().Mirror() == e && e.Mirror().Key1() == e.Key2() && e.Mirror().Key2() == e.Key1()
  {
  }

  predicate SameTarget(a: Entry, b: Entry) {
    a.srcIp == b.srcIp && a.srcPort == b.srcPort && a.snatIp == b.snatIp && a.snatPort == b.snatPort
  }

  /** A matched packet leaves with exactly the endpoints of the deciding entry. */
  lemma ThroughMatched(hash: Hash, t: Table<Entry>, h: Header)
    requires t[hash(LookupKey(h))] != []
    ensures var chain := t[hash(LookupKey(h))]; var e := chain[|chain| - 1];
            Through(hash, t, h) == Header(e.snatIp, e.srcIp, e.snatPort, e.srcPort)
  {
    var chain := t[hash(LookupKey(h))];
    FlipLowBit(chain[|chain| - 1].snatIp);
  }

  /** A later message on an occupied bucket changes no forwarding: packets of that bucket go on to
      where its oldest entry sends them, until a `D` clears it. */
  lemma {:induction false} LaterCallsChangeNothing(hash: Hash, t: Table<Entry>, later: seq<Op<Entry>>, h: Header)
    requires t[hash(LookupKey(h))] != []
    requires forall i :: 0 <= i < |later| ==> !Clears(hash, later[i], hash(LookupKey(h)))
    ensures Through(hash, Run(hash, t, later), h) == Through(hash, t, h)
  {
    var b, t' := hash(LookupKey(h)), Run(hash, t, later);
    OldestSurvives(hash, t, later, b);
    assert Pre(hash, t', h) == Rewrite(t[b][|t[b]| - 1]) == Pre(hash, t, h);
  }

  lemma RightAfterSetup(hash: Hash, t: Table<Entry>, e: Entry)
    ensures Relays(hash, Apply(hash, t, SetupOf(e)), e)
       <==> && SameTarget(Deciding(hash, t, e, hash(e.Key1())), e)
            && SameTarget(Deciding(hash, t, e, hash(e.Key2())), e.Mirror())
  {
    var t', b1, b2 := Apply(hash, t, SetupOf(e)), hash(e.Key1()), hash(e.Key2());
    assert t'[b1][|t'[b1]| - 1] == Deciding(hash, t, e, b1);
    assert t'[b2][|t'[b2]| - 1] == Deciding(hash, t, e, b2);
    ThroughMatched(hash, t', FromFar(e));
    ThroughMatched(hash, t', FromNear(e));
  }

  ghost predicate NoneClears(hash: Hash, ops: seq<Op<Entry>>, e: Entry) {
    forall i :: 0 <= i < |ops| ==> !Clears(hash, ops[i], hash(e.Key1())) && !Clears(hash, ops[i], hash(e.Key2()))
  }

  /** Whatever the table held before and whatever messages follow, until a `D` clears one of its
      two buckets a call is relayed in both directions exactly when, at its set-up, the entry
      deciding for each bucket sent where the call's own entry would. */
  lemma {:induction false} SetupRelaysIff(hash: Hash, t: Table<Entry>, e: Entry, later: seq<Op<Entry>>)
    requires NoneClears(hash, later, e)
    ensures Relays(hash, Run(hash, Apply(hash, t, SetupOf(e)), later), e)
       <==> && SameTarget(Deciding(hash, t, e, hash(e.Key1())), e)
            && SameTarget(Deciding(hash, t, e, hash(e.Key2())), e.Mirror())
  {
    RightAfterSetup(hash, t, e);
    LaterCallsChangeNothing(hash, Apply(hash, t, SetupOf(e)), later, FromFar(e));
    LaterCallsChangeNothing(hash, Apply(hash, t, SetupOf(e)), later, FromNear(e));
  }

  /** A call whose two keys fall into one bucket: even over an empty table both ends' packets
      follow the first entry linked, so it is relayed only if both directions have the same target.
      Equal keys do that under every hash function: here two parties behind one address whose relay
      ports are the same. */
  lemma {:induction false} SharedBucketMisroutes(hash: Hash, e: Entry)
    requires hash(e.Key1()) == hash(e.Key2())
    ensures Relays(hash, Apply(hash, Empty(), SetupOf(e)), e) <==> SameTarget(e, e.Mirror())
    ensures var call := Entry(1, 2, 3, 1, 5, 7, 7, 8);
            call.Key1() == call.Key2() && forall h: Hash :: !Relays(h, Apply(h, Empty(), SetupOf(call)), call)
  {
    var call := Entry(1, 2, 3, 1, 5, 7, 7, 8);
    RightAfterSetup(hash, Empty(), e);
    forall h: Hash ensures !Relays(h, Apply(h, Empty(), SetupOf(call)), call) {
      RightAfterSetup(h, Empty(), call);
    }
  }

  /** Relay round trip over whole runs: a call set up in two distinct empty buckets is relayed in
      both directions through any later messages, until a `D` clears one of the two buckets. */
  lemma {:induction false} RelayRoundTrip(hash: Hash, t: Table<Entry>, e: Entry, later: seq<Op<Entry>>)
    requires hash(e.Key1()) != hash(e.Key2())
    requires t[hash(e.Key1())] == [] && t[hash(e.Key2())] == []
    requires NoneClears(hash, later, e)
    ensures Relays(hash, Run(hash, Apply(hash, t, SetupOf(e)), later), e)
  {
    SetupRelaysIff(hash, t, e, later);
  }

  /** After the `D` of a call, and while no later message uses its two buckets, none of its packets
      match: they leave with their source address changed and nothing else, as any UDP packet
      without an entry does. */
  lemma {:induction false} TeardownStopsRelay(hash: Hash, t: Table<Entry>, e: Entry, later: seq<Op<Entry>>)
    requires forall i :: 0 <= i < |later| ==>
               !Touches(hash, later[i], hash(e.Key1())) && !Touches(hash, later[i], hash(e.Key2()))
    ensures var t' := Run(hash, Apply(hash, t, Op<Entry>.Teardown(e.Key1(), e.Key2())), later);
            forall h :: h == FromNear(e) || h == FromFar(e) ==>
              SourceDisguised(h, Through(hash, t', h))
  {
    var t1 := Apply(hash, t, Op<Entry>.Teardown(e.Key1(), e.Key2()));
    Untouched(hash, t1, later, hash(e.Key1()));
    Untouched(hash, t1, later, hash(e.Key2()));
    FlipLowBit(e.srcIp);
    FlipLowBit(e.dnatIp);
  }

  /** No packet is left alone by the two hooks, but one that the oldest entry of its bucket maps to
      itself. */
  lemma {:induction false} UnchangedIff(hash: Hash, t: Table<Entry>, h: Header)
    ensures var chain := t[hash(LookupKey(h))];
            Through(hash, t, h) == h
            <==> chain != [] && var e := chain[|chain| - 1]; h == Header(e.snatIp, e.srcIp, e.snatPort, e.srcPort)
  {
    FlipLowBit(h.saddr);
    if t[hash(LookupKey(h))] != [] {
      ThroughMatched(hash, t, h);
    }
  }

  /** After a `D` that clears the bucket a packet is looked up in, of whatever call, the packet
      leaves with nothing changed but its source address. */
  lemma {:induction false} ClearedDirection(hash: Hash, t: Table<Entry>, h: Header, down: Op<Entry>,
                                            later: seq<Op<Entry>>)
    requires Clears(hash, down, hash(LookupKey(h)))
    requires forall i :: 0 <= i < |later| ==> !Touches(hash, later[i], hash(LookupKey(h)))
    ensures Through(hash, Run(hash, Apply(hash, t, down), later), h) == Post(h)
    ensures SourceDisguised(h, Post(h))
  {
    FlipLowBit(h.saddr);
    Untouched(hash, Apply(hash, t, down), later, hash(LookupKey(h)));
  }

  /** A `D` of another call that shares a bucket stops the direction looked up there: that works
      afterwards exactly when the packet, with nothing but its source address changed, is already
      what the other end should get. */
  lemma {:induction false} OtherTeardownStops(hash: Hash, t: Table<Entry>, e: Entry, down: Op<Entry>,
                                              later: seq<Op<Entry>>)
    requires forall i :: 0 <= i < |later| ==>
               !Touches(hash, later[i], hash(e.Key1())) && !Touches(hash, later[i], hash(e.Key2()))
    ensures var t' := Run(hash, Apply(hash, t, down), later);
            && (Clears(hash, down, hash(e.Key1())) ==>
                  (Through(hash, t', FromFar(e)) == Reversed(FromNear(e))
                   <==> e.srcIp == e.dstIp && OneBitApart(e.snatIp, e.dnatIp)
                        && e.srcPort == e.dstPort && e.snatPort == e.dnatPort))
            && (Clears(hash, down, hash(e.Key2())) ==>
                  (Through(hash, t', FromNear(e)) == Reversed(FromFar(e))
                   <==> OneBitApart(e.dstIp, e.srcIp) && e.snatIp == e.dnatIp
                        && e.srcPort == e.dstPort && e.snatPort == e.dnatPort))
  {
    OneBitApartIff(e.snatIp, e.dnatIp);
    OneBitApartIff(e.dstIp, e.srcIp);
    if Clears(hash, down, hash(e.Key1())) {
      ClearedDirection(hash, t, FromFar(e), down, later);
    }
    if Clears(hash, down, hash(e.Key2())) {
      ClearedDirection(hash, t, FromNear(e), down, later);
    }
  }
}
