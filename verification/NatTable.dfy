/** The NAT table of the kernel module: parsing a netlink line, linking and unlinking entries,
    and the life of the blocks they occupy. */
module NatTable {
  import opened Words
  import opened Text
  import opened Chains

  /** One NAT entry; addresses and ports are network-order words. */
  datatype Entry = Entry(srcIp: U32, dstIp: U32, snatIp: U32, dnatIp: U32,
                         srcPort: U16, dstPort: U16, snatPort: U16, dnatPort: U16)
  {
    /** The entry of the opposite direction, as the module fills it in. */
    function Mirror(): Entry {
      Entry(dnatIp, snatIp, dstIp, srcIp, dnatPort, snatPort, dstPort, srcPort)
    }

    /** Key of the packets coming from the far end. */
    function Key1(): U32 { Key(dnatIp, dstPort) }

    /** Key of the packets coming from the near end. */
    function Key2(): U32 { Key(srcIp, snatPort) }
  }

  // ----- parsing -----

  /** The local variables of `lrkp_nl_recv_msg`: addresses in host order, ports in network
      order, `val` the last number read. Each address is assigned once in a parse, so where
      `sscanf` leaves an octet unset, the arbitrary value it held before stands for the result. */
  datatype Regs = Regs(session: Option<string>, src: U32, dst: U32, snat: U32, dnat: U32,
                       srcPort: U16, dstPort: U16, snatPort: U16, dnatPort: U16,
                       key1: U32, key2: U32, val: int)
  {
    function Addr(token: string, unset: U32): U32 {
      var a := IpAscToInt(token);
      if a.Some? then a.value else unset
    }

    /** `kstrtoint` leaves `val` alone when it fails. */
    function Num(token: string): int {
      var n := Kstrtoint(token);
      if n.Some? then n.value else val
    }

    /** The body of the parsing loop: token number `cnt`. */
    function Assign(cnt: nat, token: string): Regs {
      match cnt
      case 1 => this.(session := Some(token))
      case 2 => var a := Addr(token, src); this.(src := a, key2 := Swap32(a))
      case 3 => this.(dst := Addr(token, dst))
      case 4 => this.(snat := Addr(token, snat))
      case 5 => var a := Addr(token, dnat); this.(dnat := a, key1 := Swap32(a))
      case 6 => var v := Num(token); this.(val := v, srcPort := Htons(v))
      case 7 => var v := Num(token); this.(val := v, dstPort := Htons(v), key1 := Key(key1, Htons(v)))
      case 8 => var v := Num(token); this.(val := v, snatPort := Htons(v), key2 := Key(key2, Htons(v)))
      case 9 => var v := Num(token); this.(val := v, dnatPort := Htons(v))
      case _ => this
    }

    /** The entry filled in for the near end. */
    function NearEntry(): Entry {
      Entry(Swap32(src), Swap32(dst), Swap32(snat), Swap32(dnat), srcPort, dstPort, snatPort, dnatPort)
    }
  }

  /** The variables after `tokens`; `unset` is what they hold before the first assignment. */
  function Parse(tokens: seq<string>, unset: Regs): Regs {
    if tokens == [] then unset
    else Parse(tokens[..|tokens| - 1], unset).Assign(|tokens| - 1, tokens[|tokens| - 1])
  }

  /** What one `strsep` call leaves behind it, and the tokens still to come. */
  function Behind(cur: string): Option<string> {
    var i := Find(cur, ' ');
    if i == |cur| then None else Some(cur[i + 1..])
  }

  function Remaining(cur: Option<string>): seq<string> {
    if cur.None? then [] else Split(cur.value, ' ')
  }

  lemma StrSepStep(cur: string)
    ensures Remaining(Some(cur)) == [cur[..Find(cur, ' ')]] + Remaining(Behind(cur))
    ensures Behind(cur).Some? ==> |Behind(cur).value| < |cur|
  {
    assert cur[..|cur|] == cur;
  }

  /** The loop has read the tokens `seen` of `line`, is left with `cur`, and stored `r`. */
  ghost predicate Reading(line: string, unset: Regs, seen: seq<string>, cur: Option<string>, r: Regs) {
    Split(line, ' ') == seen + Remaining(cur) && r == Parse(seen, unset)
  }

  lemma {:induction false} SplitRead(line: string, seen: seq<string>, cur: string)
    requires Split(line, ' ') == seen + Remaining(Some(cur))
    ensures Split(line, ' ') == seen + [cur[..Find(cur, ' ')]] + Remaining(Behind(cur))
  {
    StrSepStep(cur);
    assert seen + ([cur[..Find(cur, ' ')]] + Remaining(Behind(cur)))
        == seen + [cur[..Find(cur, ' ')]] + Remaining(Behind(cur));
  }

  lemma ParseSnoc(tokens: seq<string>, token: string, unset: Regs)
    ensures Parse(tokens + [token], unset) == Parse(tokens, unset).Assign(|tokens|, token)
  {
    assert (tokens + [token])[..|tokens|] == tokens;
  }

  lemma ReadToken(line: string, unset: Regs, seen: seq<string>, cur: string, r: Regs)
    requires Reading(line, unset, seen, Some(cur), r)
    ensures var token := cur[..Find(cur, ' ')];
            Reading(line, unset, seen + [token], Behind(cur), r.Assign(|seen|, token))
    ensures Behind(cur).Some? ==> |Behind(cur).value| < |cur|
  {
    SplitRead(line, seen, cur);
    ParseSnoc(seen, cur[..Find(cur, ' ')], unset);
  }

  lemma ReadStart(line: string, unset: Regs)
    ensures Reading(line, unset, [], Some(line), unset)
  {
    assert [] + Split(line, ' ') == Split(line, ' ');
  }

  lemma ReadEnd(line: string, unset: Regs, seen: seq<string>, r: Regs)
    requires Reading(line, unset, seen, None, r)
    ensures r == Parse(Split(line, ' '), unset)
  {
    assert seen + [] == seen;
  }

  /** The `strsep` loop. */
  method ParseLine(line: string, unset: Regs) returns (r: Regs)
    ensures r == Parse(Split(line, ' '), unset)
  {
    r := unset;
    var cur, cnt := Some(line), 0;
    ghost var seen: seq<string> := [];
    ReadStart(line, unset);
    while cur.Some?
      invariant Reading(line, unset, seen, cur, r) && cnt == |seen|
      decreases cur.Some?, if cur.Some? then |cur.value| else 0
    {
      ReadToken(line, unset, seen, cur.value, r);
      var token := cur.value[..Find(cur.value, ' ')];
      cur := Behind(cur.value);
      r := r.Assign(cnt, token);
      cnt, seen := cnt + 1, seen + [token];
    }
    ReadEnd(line, unset, seen, r);
  }

  lemma {:induction false} ParseTail(tokens: seq<string>, more: seq<string>, unset: Regs)
    requires |tokens| >= 10
    ensures Parse(tokens + more, unset) == Parse(tokens, unset)
  {
    if more == [] {
      assert tokens + more == tokens;
    } else {
      assert (tokens + more)[..|tokens + more| - 1] == tokens + more[..|more| - 1];
      ParseTail(tokens, more[..|more| - 1], unset);
    }
  }

  // ----- messages and blocks -----

  datatype Request = Add(entry: Entry, k1: U32, k2: U32) | Release(k1: U32, k2: U32)

  /** Only a session token starting with `D` releases; everything else adds. */
  function Decode(r: Regs): Request
    requires r.session.Some?
  {
    if r.session.value != "" && r.session.value[0] == 'D' then Release(r.key1, r.key2)
    else Add(r.NearEntry(), r.key1, r.key2)
  }

  /** An entry in the block allocated for it. */
  datatype Node = Node(addr: nat, entry: Entry)

  /** The table, the blocks not yet freed, and those among them nothing refers to any more. */
  datatype Heap = Heap(chains: Table<Node>, live: set<nat>, leaked: set<nat>)

  /** The two results of `kmalloc` for an `Add`. */
  datatype Alloc = Alloc(first: Option<nat>, second: Option<nat>)
  {
    /** The allocator hands out no block that is in use. */
    predicate Fresh(live: set<nat>) {
      && (first.Some? ==> first.value !in live)
      && (second.Some? ==> second.value !in live && (first.Some? ==> first.value != second.value))
    }

    predicate Both() { first.Some? && second.Some? }
  }

  function NodeOp(req: Request, a: Alloc): Op<Node> {
    match req
    case Release(k1, k2) => Teardown(k1, k2)
    case Add(e, k1, k2) =>
      if a.Both() then Setup(k1, k2, Node(a.first.value, e), Node(a.second.value, e.Mirror())) else NoRoom
  }

  /** The same message seen without its blocks. */
  function EntryOp(req: Request, a: Alloc): Op<Entry> {
    match req
    case Release(k1, k2) => Teardown(k1, k2)
    case Add(e, k1, k2) => if a.Both() then Setup(k1, k2, e, e.Mirror()) else NoRoom
  }

  function Addrs(chain: seq<Node>): set<nat> {
    set i | 0 <= i < |chain| :: chain[i].addr
  }

  function Receive(hash: Hash, h: Heap, req: Request, a: Alloc): Heap {
    var chains := Apply(hash, h.chains, NodeOp(req, a));
    match req
    case Release(k1, k2) =>
      Heap(chains, h.live - Addrs(h.chains[hash(k1)]) - Addrs(h.chains[hash(k2)]), h.leaked)
    case Add(_, _, _) =>
      if a.first.None? then h
      else if a.second.None? then h.(live := h.live + {a.first.value}, leaked := h.leaked + {a.first.value})
      else Heap(chains, h.live + {a.first.value, a.second.value}, h.leaked)
  }

  ghost predicate InTable(t: Table<Node>, addr: nat) {
    exists b: Bucket, i :: 0 <= i < |t[b]| && t[b][i].addr == addr
  }

  /** No block is linked twice, and the live blocks are the linked ones and the leaked ones. */
  ghost predicate Conserved(h: Heap) {
    && (forall b: Bucket, c: Bucket, i, j ::
          (0 <= i < |h.chains[b]| && 0 <= j < |h.chains[c]| && h.chains[b][i].addr == h.chains[c][j].addr)
          ==> b == c && i == j)
    && (forall a :: a in h.live <==> a in h.leaked || InTable(h.chains, a))
    && (forall a :: a in h.leaked ==> !InTable(h.chains, a))
  }

  lemma PushConserves(h: Heap, b: Bucket, n: Node)
    requires Conserved(h) && n.addr !in h.live
    ensures Conserved(Heap(Push(h.chains, b, n), h.live + {n.addr}, h.leaked))
  {
    var t, t' := h.chains, Push(h.chains, b, n);
    forall a ensures InTable(t', a) <==> InTable(t, a) || a == n.addr {
      if c: Bucket, i :| 0 <= i < |t[c]| && t[c][i].addr == a {
        assert t'[c][if c == b then i + 1 else i].addr == a;
      }
      assert t'[b][0].addr == n.addr;
      if c: Bucket, i :| 0 <= i < |t'[c]| && t'[c][i].addr == a {
        assert c == b && i > 0 ==> t[b][i - 1] == t'[b][i];
      }
    }
    assert !InTable(t, n.addr);
    forall c: Bucket, d: Bucket, i, j
      | 0 <= i < |t'[c]| && 0 <= j < |t'[d]| && t'[c][i].addr == t'[d][j].addr
      ensures c == d && i == j
    {
      var i', j' := if c == b then i - 1 else i, if d == b then j - 1 else j;
      assert i' >= 0 ==> t'[c][i] == t[c][i'];
      assert j' >= 0 ==> t'[d][j] == t[d][j'];
    }
  }

  function ClearBucket(h: Heap, b: Bucket): Heap {
    Heap(Clear(h.chains, b), h.live - Addrs(h.chains[b]), h.leaked)
  }

  lemma ClearConserves(h: Heap, b: Bucket)
    requires Conserved(h)
    ensures Conserved(ClearBucket(h, b))
  {
    var t, t' := h.chains, Clear(h.chains, b);
    forall a ensures InTable(t', a) <==> InTable(t, a) && a !in Addrs(t[b]) {
      if InTable(t, a) && a !in Addrs(t[b]) {
        var c: Bucket, i :| 0 <= i < |t[c]| && t[c][i].addr == a;
        assert c != b && t'[c][i].addr == a;
      }
    }
    forall a | a in Addrs(t[b]) ensures InTable(t, a) {
      var i :| 0 <= i < |t[b]| && t[b][i].addr == a;
    }
  }

  lemma ReleaseIsTwoClears(hash: Hash, h: Heap, k1: U32, k2: U32, a: Alloc)
    ensures Receive(hash, h, Release(k1, k2), a) == ClearBucket(ClearBucket(h, hash(k1)), hash(k2))
  {
  }

  lemma ReceiveConserves(hash: Hash, h: Heap, req: Request, a: Alloc)
    requires Conserved(h) && a.Fresh(h.live)
    ensures Conserved(Receive(hash, h, req, a))
  {
    match req
    case Release(k1, k2) =>
      var h1 := ClearBucket(h, hash(k1));
      ClearConserves(h, hash(k1));
      ClearConserves(h1, hash(k2));
      ReleaseIsTwoClears(hash, h, k1, k2, a);
    case Add(e, k1, k2) =>
      if a.Both() {
        var n1, n2 := Node(a.first.value, e), Node(a.second.value, e.Mirror());
        var h1 := Heap(Push(h.chains, hash(k1), n1), h.live + {n1.addr}, h.leaked);
        PushConserves(h, hash(k1), n1);
        PushConserves(h1, hash(k2), n2);
        assert h.live + {n1.addr} + {n2.addr} == h.live + {n1.addr, n2.addr};
      }
  }

  // ----- whole runs -----

  datatype Delivery = Delivery(req: Request, alloc: Alloc)

  const EMPTY_HEAP: Heap := Heap(Empty(), {}, {})

  function HeapAfter(hash: Hash, ds: seq<Delivery>): Heap {
    if ds == [] then EMPTY_HEAP
    else var d := ds[|ds| - 1]; Receive(hash, HeapAfter(hash, ds[..|ds| - 1]), d.req, d.alloc)
  }

  /** Every allocation of the run hands out a block not in use at that time. */
  ghost predicate Legal(hash: Hash, ds: seq<Delivery>) {
    ds == [] || (var front := ds[..|ds| - 1];
                 Legal(hash, front) && ds[|ds| - 1].alloc.Fresh(HeapAfter(hash, front).live))
  }

  function SecondFailures(ds: seq<Delivery>): nat {
    if ds == [] then 0
    else
      var d := ds[|ds| - 1];
      SecondFailures(ds[..|ds| - 1]) + (if d.req.Add? && d.alloc.first.Some? && d.alloc.second.None? then 1 else 0)
  }

  /** In every run the live blocks are the linked ones, none linked twice, and one more for each
      `S` whose second allocation failed. */
  lemma {:induction false} BlockConservation(hash: Hash, ds: seq<Delivery>)
    requires Legal(hash, ds)
    ensures Conserved(HeapAfter(hash, ds))
    ensures |HeapAfter(hash, ds).leaked| == SecondFailures(ds)
  {
    if ds == [] {
      forall a ensures !InTable(EMPTY_HEAP.chains, a) {}
    } else {
      var d, h := ds[|ds| - 1], HeapAfter(hash, ds[..|ds| - 1]);
      BlockConservation(hash, ds[..|ds| - 1]);
      ReceiveConserves(hash, h, d.req, d.alloc);
      if d.alloc.first.Some? {
        assert d.alloc.first.value !in h.leaked;
      }
    }
  }

  function Entries(t: Table<Node>): Table<Entry> {
    seq(BUCKETS, b requires 0 <= b < BUCKETS => EntriesOf(t[b]))
  }

  function EntriesOf(chain: seq<Node>): seq<Entry> {
    seq(|chain|, i requires 0 <= i < |chain| => chain[i].entry)
  }

  function EntryOps(ds: seq<Delivery>): seq<Op<Entry>> {
    seq(|ds|, i requires 0 <= i < |ds| => EntryOp(ds[i].req, ds[i].alloc))
  }

  lemma EntriesPush(t: Table<Node>, b: Bucket, n: Node)
    ensures Entries(Push(t, b, n)) == Push(Entries(t), b, n.entry)
  {
    assert EntriesOf([n] + t[b]) == [n.entry] + EntriesOf(t[b]);
  }

  lemma EntriesClear(t: Table<Node>, b: Bucket)
    ensures Entries(Clear(t, b)) == Clear(Entries(t), b)
  {
    assert EntriesOf([]) == [];
  }

  /** Which blocks the allocator hands out never matters to the table. */
  lemma {:induction false} EntriesRun(hash: Hash, ds: seq<Delivery>)
    ensures Entries(HeapAfter(hash, ds).chains) == Run(hash, Empty(), EntryOps(ds))
  {
    if ds == [] {
      assert EntriesOf([]) == [];
      assert Entries(Empty()) == Empty();
    } else {
      var front, d := ds[..|ds| - 1], ds[|ds| - 1];
      var t := HeapAfter(hash, front).chains;
      EntriesRun(hash, front);
      assert EntryOps(ds)[..|ds| - 1] == EntryOps(front);
      match NodeOp(d.req, d.alloc) {
        case Setup(k1, k2, x1, x2) =>
          EntriesPush(t, hash(k1), x1);
          EntriesPush(Push(t, hash(k1), x1), hash(k2), x2);
        case Teardown(k1, k2) =>
          EntriesClear(t, hash(k1));
          EntriesClear(Clear(t, hash(k1)), hash(k2));
        case NoRoom =>
      }
    }
  }

  // ----- the module's state -----

  class Kernel {
    const hash: Hash
    const chains: array<seq<Node>>
    ghost var live: set<nat>
    ghost var leaked: set<nat>

    ghost predicate Valid()
      reads this, chains
    {
      chains.Length == BUCKETS && Conserved(State())
    }

    ghost function State(): Heap
      requires chains.Length == BUCKETS
      reads this, chains
    {
      Heap(chains[..], live, leaked)
    }

    /** `hash_init`. */
    constructor (hash: Hash)
      ensures Valid() && State() == EMPTY_HEAP && this.hash == hash
    {
      this.hash := hash;
      chains := new seq<Node>[BUCKETS](_ => []);
      live, leaked := {}, {};
      new;
      assert chains[..] == Empty<Node>();
      BlockConservation(hash, []);
    }

    /** `kfree`: the block must be live, so freeing one twice is ruled out at every call. */
    ghost method Free(addr: nat)
      requires addr in live
      modifies this`live
      ensures live == old(live) - {addr}
    {
      live := live - {addr};
    }

    /** The `hash_del_rcu`/`free` loop over one bucket. */
    method DeleteBucket(b: Bucket)
      requires Valid()
      modifies this`live, chains
      ensures Valid() && State() == ClearBucket(old(State()), b)
    {
      ghost var h := State();
      ghost var k := 0;
      while chains[b] != []
        invariant chains.Length == BUCKETS && 0 <= k <= |h.chains[b]|
        invariant chains[..] == h.chains[b := h.chains[b][k..]]
        invariant live == h.live - Addrs(h.chains[b][..k])
        decreases |h.chains[b]| - k
      {
        var node := chains[b][0];
        chains[b] := chains[b][1..];
        NextIsLive(h, b, k);
        Free(node.addr);
        k := k + 1;
      }
      assert h.chains[b][..k] == h.chains[b];
      ClearConserves(h, b);
    }

    /** `hash_add_rcu`. */
    method HashAdd(b: Bucket, node: Node)
      requires chains.Length == BUCKETS
      modifies chains
      ensures chains[..] == Push(old(chains[..]), b, node)
    {
      chains[b] := [node] + chains[b];
    }

    /** One netlink message: `line` is the C string received, `unset` the variables before the
        parse, `a` what the allocator would answer. A line of a single token would leave
        `session` null, and the module dereferences it. */
    method RecvMsg(line: string, unset: Regs, a: Alloc)
      requires Valid() && a.Fresh(live)
      requires line != "" ==> Parse(Split(line, ' '), unset).session.Some?
      modifies this, chains
      ensures Valid()
      ensures State() == if line == "" then old(State())
                         else Receive(hash, old(State()), Decode(Parse(Split(line, ' '), unset)), a)
    {
      if line == "" { return; }
      var r := ParseLine(line, unset);
      ghost var h, req := State(), Decode(r);
      ReceiveConserves(hash, h, req, a);
      if r.session.value != "" && r.session.value[0] == 'D' {
        DeleteBucket(hash(r.key1));
        DeleteBucket(hash(r.key2));
        ReleaseIsTwoClears(hash, h, r.key1, r.key2, a);
      } else {
        if a.first.None? { return; }
        live := live + {a.first.value};
        if a.second.None? {
          leaked := leaked + {a.first.value};
          return;
        }
        live := live + {a.second.value};
        var e := r.NearEntry();
        HashAdd(hash(r.key1), Node(a.first.value, e));
        HashAdd(hash(r.key2), Node(a.second.value, e.Mirror()));
        assert live == h.live + {a.first.value, a.second.value};
      }
    }

    /** The sweep of `lrkp_exit`: afterwards only the leaked blocks are live. */
    method Exit()
      requires Valid()
      modifies this`live, chains
      ensures Valid() && State() == Heap(Empty(), leaked, leaked)
    {
      for bkt := 0 to BUCKETS
        invariant Valid()
        invariant forall b :: 0 <= b < bkt ==> chains[b] == []
      {
        DeleteBucket(bkt);
      }
      assert chains[..] == Empty<Node>();
      forall addr ensures addr in live <==> addr in leaked {
        assert !InTable(chains[..], addr);
      }
    }
  }

  lemma NextIsLive(h: Heap, b: Bucket, k: nat)
    requires Conserved(h) && k < |h.chains[b]|
    ensures h.chains[b][k].addr in h.live - Addrs(h.chains[b][..k])
    ensures h.live - Addrs(h.chains[b][..k]) - {h.chains[b][k].addr} == h.live - Addrs(h.chains[b][..k + 1])
  {
    var c := h.chains[b];
    assert InTable(h.chains, c[k].addr);
    assert c[..k + 1] == c[..k] + [c[k]];
    assert Addrs(c[..k + 1]) == Addrs(c[..k]) + {c[k].addr} by {
      forall x | x in Addrs(c[..k]) + {c[k].addr} ensures x in Addrs(c[..k + 1]) {
        if x != c[k].addr {
          var i :| 0 <= i < k && c[..k][i].addr == x;
          assert c[..k + 1][i].addr == x;
        } else {
          assert c[..k + 1][k].addr == x;
        }
      }
    }
    forall i | 0 <= i < k ensures c[..k][i].addr != c[k].addr {
      assert c[..k][i] == c[i];
    }
  }
}
