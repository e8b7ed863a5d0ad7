/** Machine words of the kernel module: 16- and 32-bit network-order words, the byte swaps
    behind `htons` and `htonl` on a little-endian machine, and the 32-bit hash key. */
module Words {
  const TWO32 := 0x1_0000_0000

  type U8 = x: int | 0 <= x < 0x100
  type U16 = x: int | 0 <= x < 0x1_0000
  type U32 = x: int | 0 <= x < 0x1_0000_0000

  /** `htons` of an `int`: the argument is truncated to 16 bits, then its bytes are swapped. */
  function Htons(val: int): U16 {
    Swap16(val % 0x1_0000)
  }

  function Swap16(x: U16): U16 {
    x % 0x100 * 0x100 + x / 0x100
  }

  /** `htonl`. */
  function Swap32(x: U32): U32 {
    Swap16(x % 0x1_0000) * 0x1_0000 + Swap16(x / 0x1_0000)
  }

  /** `word ^ 0x00000001`, with which both hooks disguise and restore a source address. */
  function FlipLow(x: U32): U32 {
    if x % 2 == 0 then x + 1 else x - 1
  }

  /** The sum both the parser and the hook use as hash key: 32-bit addition, wrapping. */
  function Key(addr: U32, port: U16): U32 {
    (addr + port) % TWO32
  }

  lemma TwoBytes(hi: U8, lo: U8)
    ensures (hi * 0x100 + lo) / 0x100 == hi && (hi * 0x100 + lo) % 0x100 == lo
  {
  }

  /** `htons` exchanges the two bytes. */
  lemma {:induction false} Swap16Bytes(hi: U8, lo: U8)
    ensures Swap16(hi * 0x100 + lo) == lo * 0x100 + hi
  {
    TwoBytes(hi, lo);
  }

  /** `htonl` reverses the four bytes. */
  lemma {:induction false} Swap32Bytes(b3: U8, b2: U8, b1: U8, b0: U8)
    ensures Swap32(b3 * 0x100_0000 + b2 * 0x1_0000 + b1 * 0x100 + b0)
         == b0 * 0x100_0000 + b1 * 0x1_0000 + b2 * 0x100 + b3
  {
    var hi, lo := b3 * 0x100 + b2, b1 * 0x100 + b0;
    TwoHalves(hi, lo);
    Swap16Bytes(b3, b2);
    Swap16Bytes(b1, b0);
    assert b3 * 0x100_0000 + b2 * 0x1_0000 + b1 * 0x100 + b0 == hi * 0x1_0000 + lo;
  }

  lemma RemainderOfSum(n: int, k: int)
    ensures (n + 0x1_0000 * k) % 0x1_0000 == n % 0x1_0000
  {
    var q, r := n / 0x1_0000, n % 0x1_0000;
    assert n + 0x1_0000 * k == 0x1_0000 * (q + k) + r;
  }

  /** `htons` of any `int` looks at its low 16 bits only. */
  lemma {:induction false} HtonsTruncates(val: int, k: int)
    ensures Htons(val + 0x1_0000 * k) == Htons(val)
    ensures 0 <= val < 0x1_0000 ==> Htons(val) == val % 0x100 * 0x100 + val / 0x100
  {
    RemainderOfSum(val, k);
    if 0 <= val < 0x1_0000 {
      assert val == val / 0x100 * 0x100 + val % 0x100;
      Swap16Bytes(val / 0x100, val % 0x100);
    }
  }

  lemma TwoHalves(hi: U16, lo: U16)
    ensures (hi * 0x1_0000 + lo) / 0x1_0000 == hi && (hi * 0x1_0000 + lo) % 0x1_0000 == lo
  {
  }

  /** `^ 1` changes the lowest bit and no other. */
  lemma {:induction false} FlipLowBit(x: U32)
    ensures FlipLow(x) / 2 == x / 2 && FlipLow(x) % 2 == 1 - x % 2
    ensures FlipLow(x) != x && FlipLow(FlipLow(x)) == x
  {
  }

  lemma Swap16Twice(x: U16)
    ensures Swap16(Swap16(x)) == x
  {
    var hi, lo := x / 0x100, x % 0x100;
    assert x == hi * 0x100 + lo;
    Swap16Bytes(hi, lo);
    Swap16Bytes(lo, hi);
  }

  /** Swapping loses nothing, so distinct addresses and ports stay distinct in an entry. */
  lemma {:induction false} SwapsAreInvolutions(a: U32, p: U16)
    ensures Swap16(Swap16(p)) == p
    ensures Swap32(Swap32(a)) == a
  {
    var lo, hi := a % 0x1_0000, a / 0x1_0000;
    var s := Swap32(a);
    assert s % 0x1_0000 == Swap16(hi) && s / 0x1_0000 == Swap16(lo);
    Swap16Twice(lo);
    Swap16Twice(hi);
  }

  /** How far `a` lies above `b`, counted around 2^32. */
  function Above(a: U32, b: U32): U32 {
    if b <= a then a - b else TWO32 + a - b
  }

  lemma KeyByCases(a: U32, p: U16)
    ensures Key(a, p) == if a + p < TWO32 then a + p else a + p - TWO32
  {
  }

  lemma KeyTellsApart(a: U32, b: U32, p: U16, q: U16)
    ensures Key(a, p) == Key(a, q) ==> p == q
    ensures Key(a, p) == Key(b, p) ==> a == b
  {
    KeyByCases(a, p);
    KeyByCases(a, q);
    KeyByCases(b, p);
  }

  lemma CollidingAreNear(a: U32, b: U32, p: U16, q: U16)
    requires Key(a, p) == Key(b, q)
    ensures Above(a, b) <= 0xFFFF || Above(b, a) <= 0xFFFF
  {
    KeyByCases(a, p);
    KeyByCases(b, q);
  }

  lemma NearCollide(a: U32, b: U32)
    requires Above(a, b) <= 0xFFFF
    ensures Key(a, 0) == Key(b, Above(a, b))
  {
    KeyByCases(a, 0);
    KeyByCases(b, Above(a, b));
  }

  /** For one address the key tells ports apart, for one port it tells addresses apart, and some
      ports make two addresses collide exactly when their network-order words lie within 65535
      of each other, counted around 2^32. */
  lemma KeysCollideIff(a: U32, b: U32)
    ensures forall p: U16, q: U16 :: Key(a, p) == Key(a, q) ==> p == q
    ensures forall p: U16 :: Key(a, p) == Key(b, p) ==> a == b
    ensures (exists p: U16, q: U16 :: Key(a, p) == Key(b, q))
       <==> Above(a, b) <= 0xFFFF || Above(b, a) <= 0xFFFF
  {
    forall p: U16, q: U16 ensures Key(a, p) == Key(a, q) ==> p == q { KeyTellsApart(a, b, p, q); }
    forall p: U16 ensures Key(a, p) == Key(b, p) ==> a == b { KeyTellsApart(a, b, p, p); }
    if p: U16, q: U16 :| Key(a, p) == Key(b, q) {
      CollidingAreNear(a, b, p, q);
    }
    if Above(a, b) <= 0xFFFF {
      NearCollide(a, b);
    } else if Above(b, a) <= 0xFFFF {
      NearCollide(b, a);
    }
  }
}
