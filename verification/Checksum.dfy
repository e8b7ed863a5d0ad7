/** The internet checksum (section 1 of RFC 1071) that `ip_fast_csum`, `csum_partial` and
    `udp_v4_check` compute: a sum of 16-bit words, its carries folded back in, complemented. */
module Checksum {
  import opened Words

  function Sum(words: seq<U16>): nat {
    if words == [] then 0 else Sum(words[..|words| - 1]) + words[|words| - 1]
  }

  /** Add the carries back into the low 16 bits until none are left. */
  function Fold(n: nat): (r: U16)
    ensures r == 0 <==> n == 0
    ensures (n - r) % 0xFFFF == 0
  {
    if n < 0x1_0000 then n else
      FoldOnce(n);
      Fold(n % 0x1_0000 + n / 0x1_0000)
  }

  lemma FoldOnce(n: nat)
    ensures (n - (n % 0x1_0000 + n / 0x1_0000)) % 0xFFFF == 0
    ensures n >= 0x1_0000 ==> 0 < n % 0x1_0000 + n / 0x1_0000 < n
  {
    assert n - (n % 0x1_0000 + n / 0x1_0000) == 0xFFFF * (n / 0x1_0000);
  }

  /** The checksum to store over words in which the checksum field itself counts as zero. */
  function Complement(words: seq<U16>): U16 {
    0xFFFF - Fold(Sum(words))
  }

  /** What a receiver tests: all words, the checksum included, sum to all ones. */
  predicate Verifies(words: seq<U16>) {
    Fold(Sum(words)) == 0xFFFF
  }

  lemma {:induction false} SumConcat(a: seq<U16>, b: seq<U16>)
    ensures Sum(a + b) == Sum(a) + Sum(b)
  {
    if b == [] {
      assert a + b == a;
    } else {
      assert (a + b)[..|a + b| - 1] == a + b[..|b| - 1];
      SumConcat(a, b[..|b| - 1]);
    }
  }

  lemma SumAround(a: seq<U16>, w: U16, b: seq<U16>)
    ensures Sum(a + [w] + b) == Sum(a) + w + Sum(b)
  {
    SumConcat(a + [w], b);
    SumConcat(a, [w]);
    assert [w][..0] == [];
  }

  /** A word storing the complement, wherever it stands, makes the whole sum verify; the only
      other value that does is the complement's other form of zero. */
  lemma StoredComplementVerifies(a: seq<U16>, w: U16, b: seq<U16>)
    ensures w == Complement(a + [0] + b) ==> Verifies(a + [w] + b)
    ensures Verifies(a + [w] + b) ==> (w - Complement(a + [0] + b)) % 0xFFFF == 0
  {
    SumAround(a, w, b);
    SumAround(a, 0, b);
    var s := Sum(a) + Sum(b);
    var f := Fold(s);
    var g := Fold(s + w);
    assert (s - f) % 0xFFFF == 0 && (s + w - g) % 0xFFFF == 0;
    FoldCongruence(s, f, w, g);
  }

  /** Whatever comes before it, some last word makes the complement zero: the complement of the
      rest. */
  lemma {:induction false} ZeroComplement(words: seq<U16>)
    ensures Complement(words + [Complement(words)]) == 0
  {
    var w := Complement(words);
    SumConcat(words, [0]);
    assert [0][..0] == [];
    assert words + [0] + [] == words + [0] && words + [w] + [] == words + [w];
    StoredComplementVerifies(words, w, []);
  }

  /** Words verify exactly when their sum is a positive multiple of 65535. */
  lemma {:induction false} VerifiesIff(words: seq<U16>)
    ensures Verifies(words) <==> Sum(words) > 0 && Sum(words) % 0xFFFF == 0
  {
    var n, f := Sum(words), Fold(Sum(words));
    assert (n - f) % 0xFFFF == 0;
    FoldedMultiple(n, f);
  }

  lemma FoldedMultiple(n: nat, f: U16)
    requires (n - f) % 0xFFFF == 0 && (f == 0 <==> n == 0)
    ensures f == 0xFFFF <==> n > 0 && n % 0xFFFF == 0
  {
    var k := (n - f) / 0xFFFF;
    assert n == 0xFFFF * k + f;
  }

  /** The sum of the two halves of a 32-bit word is the word itself, modulo 65535. */
  lemma HalvesSum(x: U32)
    ensures x - (x % 0x1_0000 + x / 0x1_0000) == 0xFFFF * (x / 0x1_0000)
    ensures x % 0x1_0000 + x / 0x1_0000 == 0 <==> x == 0
  {
  }

  /** The same word, but for the two forms of zero in ones' complement. */
  predicate SameWord(v: U16, w: U16) {
    v == w || (v == 0 && w == 0xFFFF) || (v == 0xFFFF && w == 0)
  }

  lemma SameModulo(v: U16, w: U16)
    requires (v - w) % 0xFFFF == 0
    ensures SameWord(v, w)
  {
    var k := (v - w) / 0xFFFF;
    assert v - w == 0xFFFF * k;
  }

  lemma {:induction false} SumUpdate(words: seq<U16>, i: nat, w: U16)
    requires i < |words|
    ensures Sum(words[i := w]) == Sum(words) - words[i] + w
  {
    assert words == words[..i] + [words[i]] + words[i + 1..];
    assert words[i := w] == words[..i] + [w] + words[i + 1..];
    SumAround(words[..i], words[i], words[i + 1..]);
    SumAround(words[..i], w, words[i + 1..]);
  }

  lemma FoldCongruence(s: nat, f: U16, w: U16, g: U16)
    requires (s - f) % 0xFFFF == 0 && (s + w - g) % 0xFFFF == 0
    requires g == 0 <==> s + w == 0
    requires f == 0 <==> s == 0
    ensures w == 0xFFFF - f ==> g == 0xFFFF
    ensures g == 0xFFFF ==> (w - (0xFFFF - f)) % 0xFFFF == 0
  {
    var i, j := (s - f) / 0xFFFF, (s + w - g) / 0xFFFF;
    assert s - f == 0xFFFF * i && s + w - g == 0xFFFF * j;
    assert w - g + f == 0xFFFF * (j - i);
    if g == 0xFFFF {
      assert w - (0xFFFF - f) == 0xFFFF * (j - i);
    }
  }
}
