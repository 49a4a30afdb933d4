/** The checksum loops of `bpf_l2_udp_packet.cpp` and `l2_eth_udp_pkt.cpp` against the one's complement
    sum of section 1 of RFC 1071. */
module Checksum {

  type Byte = x: nat | x < 0x100
  type Word = x: nat | x < 0x1_0000
  type Uint32 = x: nat | x < 0x1_0000_0000

  // ----- bytes and words in network order

  function Get16(b: seq<Byte>, at: nat): Word
    requires at + 2 <= |b|
  {
    b[at] as nat * 0x100 + b[at + 1]
  }

  function Put16(b: seq<Byte>, at: nat, v: Word): (r: seq<Byte>)
    requires at + 2 <= |b|
    ensures |r| == |b| && Get16(r, at) == v
  {
    b[at := v / 0x100][at + 1 := v % 0x100]
  }

  /** The first n words from byte `at`. */
  function WordsAt(b: seq<Byte>, at: nat, n: nat): (w: seq<Word>)
    requires at + 2 * n <= |b|
    ensures |w| == n && forall k: nat :: k < n ==> w[k] == Get16(b, at + 2 * k)
  {
    seq(n, k requires 0 <= k < n => Get16(b, at + 2 * k))
  }

  /** The words of data that is padded with a zero byte when its length is odd. */
  function PaddedWords(b: seq<Byte>): (w: seq<Word>)
  {
    if |b| % 2 == 0 then WordsAt(b, 0, |b| / 2)
    else WordsAt(b, 0, |b| / 2) + [b[|b| - 1] as nat * 0x100]
  }

  lemma SameWords(a: seq<Byte>, b: seq<Byte>)
    requires |a| == |b| && |a| % 2 == 0
    requires WordsAt(a, 0, |a| / 2) == WordsAt(b, 0, |b| / 2)
    ensures a == b
  {
    forall k: nat | k < |a| ensures a[k] == b[k] {
      var h := k / 2;
      assert WordsAt(a, 0, |a| / 2)[h] == WordsAt(b, 0, |b| / 2)[h];
      assert Get16(a, 2 * h) == Get16(b, 2 * h);
      assert k == 2 * h || k == 2 * h + 1;
    }
  }

  // ----- the one's complement sum

  /** One's complement addition: a carry out of the top bit comes back in at the bottom. */
  function Plus(a: Word, b: Word): Word
  {
    if a + b < 0x1_0000 then a + b else a + b - 0xFFFF
  }

  function OnesSum(w: seq<Word>): Word
  {
    if w == [] then 0 else Plus(OnesSum(w[..|w| - 1]), w[|w| - 1])
  }

  function Total(w: seq<Word>): (t: nat)
    ensures t <= |w| * 0xFFFF
  {
    if w == [] then 0 else Total(w[..|w| - 1]) + w[|w| - 1]
  }

  /** The 16-bit number that stands for n: congruent modulo 65535, and 0 only for 0. */
  function Folded(n: nat): (f: Word)
    ensures f == 0 <==> n == 0
    ensures n <= 0xFFFF ==> f == n
    ensures exists k: nat :: n == f + Times(k)
  {
    if n == 0 then assert n == 0 + Times(0); 0 else
      assert n == (n - 1) % 0xFFFF + 1 + Times((n - 1) / 0xFFFF);
      (n - 1) % 0xFFFF + 1
  }

  function Times(k: nat): nat { 0xFFFF * k }

  lemma FoldedStep(n: nat, k: nat)
    requires 0 < n
    ensures Folded(n + 0xFFFF * k) == Folded(n)
  {
    assert n + 0xFFFF * k - 1 == (n - 1) + 0xFFFF * k;
    ModPlus(n - 1, k);
  }

  lemma {:induction false} ModPlus(m: nat, k: nat)
    ensures (m + 0xFFFF * k) % 0xFFFF == m % 0xFFFF
  {
    if k > 0 {
      ModPlus(m, k - 1);
      assert m + 0xFFFF * k == (m + 0xFFFF * (k - 1)) + 0xFFFF;
    }
  }

  /** Folding can be done along the way. */
  lemma FoldedPlus(n: nat, v: nat)
    ensures Folded(Folded(n) + v) == Folded(n + v)
  {
    var k: nat :| n == Folded(n) + Times(k);
    if Folded(n) + v > 0 {
      FoldedStep(Folded(n) + v, k);
    }
  }

  /** The sum with end-around carries is the whole sum, folded. */
  lemma {:induction false} OnesSumIsFolded(w: seq<Word>)
    ensures OnesSum(w) == Folded(Total(w))
  {
    if w != [] {
      var n, v := Total(w[..|w| - 1]), w[|w| - 1];
      OnesSumIsFolded(w[..|w| - 1]);
      FoldedPlus(n, v);
      if Folded(n) + v >= 0x1_0000 {
        FoldedStep(Folded(n) + v - 0xFFFF, 1);
      }
    }
  }

  lemma {:induction false} TotalOfParts(a: seq<Word>, b: seq<Word>)
    ensures Total(a + b) == Total(a) + Total(b)
  {
    if b == [] {
      assert a + b == a;
    } else {
      assert (a + b)[..|a + b| - 1] == a + b[..|b| - 1];
      TotalOfParts(a, b[..|b| - 1]);
    }
  }

  lemma TotalOfSingle(v: Word)
    ensures Total([v]) == v
  {
    assert [v][..0] == [];
  }

  lemma TotalOfUpdate(w: seq<Word>, k: nat, v: Word)
    requires k < |w|
    ensures Total(w[k := v]) == Total(w) - w[k] + v
  {
    assert w == w[..k] + [w[k]] + w[k + 1..];
    assert w[k := v] == w[..k] + [v] + w[k + 1..];
    TotalOfParts(w[..k] + [w[k]], w[k + 1..]);
    TotalOfParts(w[..k] + [v], w[k + 1..]);
    TotalOfParts(w[..k], [w[k]]);
    TotalOfParts(w[..k], [v]);
    TotalOfSingle(w[k]);
    TotalOfSingle(v);
  }

  lemma FoldedToAllOnes(n: nat, c: Word)
    requires c == 0xFFFF - Folded(n) || Folded(n) == 0xFFFF == c
    ensures Folded(n + c) == 0xFFFF
  {
    FoldedPlus(n, c);
    assert Folded(0xFFFF + 0xFFFF * 1) == Folded(0xFFFF) by { FoldedStep(0xFFFF, 1); }
  }

  /** A receiver's sum over words whose checksum was 0 when `c` was computed from them is all ones. */
  lemma ChecksumVerifies(w: seq<Word>, k: nat, c: Word)
    requires k < |w| && w[k] == 0
    requires c == 0xFFFF - OnesSum(w) || OnesSum(w) == 0xFFFF == c
    ensures OnesSum(w[k := c]) == 0xFFFF
  {
    OnesSumIsFolded(w);
    OnesSumIsFolded(w[k := c]);
    TotalOfUpdate(w, k, c);
    FoldedToAllOnes(Total(w), c);
  }

  /** What the check catches: of all values of one word only two can pass, and they are the two zeros of
      one's complement. */
  lemma OneWordIsCaught(w: seq<Word>, k: nat, v: Word)
    requires k < |w| && v != w[k]
    requires OnesSum(w) == 0xFFFF && OnesSum(w[k := v]) == 0xFFFF
    ensures {v, w[k]} == {0, 0xFFFF}
  {
    OnesSumIsFolded(w);
    OnesSumIsFolded(w[k := v]);
    TotalOfUpdate(w, k, v);
    SameFold(Total(w), Total(w[k := v]));
  }

  lemma SameFold(m: nat, n: nat)
    requires Folded(m) == Folded(n) && m != n && -0xFFFF <= m - n <= 0xFFFF
    ensures m - n == 0xFFFF || n - m == 0xFFFF
  {
    var i: nat :| m == Folded(m) + Times(i);
    var j: nat :| n == Folded(n) + Times(j);
    assert m - n == 0xFFFF * (i - j);
  }

  // ----- the loops

  /** `while (cs > 0xFFFF)`: the carries are added until none is left. */
  method FoldCarries(sum: Uint32) returns (cs: Word)
    ensures cs == Folded(sum)
  {
    var c: Uint32 := sum;
    while c > 0xFFFF
      invariant Folded(c) == Folded(sum)
    {
      FoldedStep(c % 0x1_0000 + c / 0x1_0000, c / 0x1_0000);
      c := c % 0x1_0000 + c / 0x1_0000;
    }
    cs := c;
  }

  /** The loops `cs += read_uint16_t_be(...)`; `before` is what the accumulator held. */
  method AddWords(before: Uint32, b: seq<Byte>, at: nat, n: nat) returns (cs: Uint32)
    requires at + 2 * n <= |b|
    requires before + n * 0xFFFF < 0x1_0000_0000
    ensures cs == before + Total(WordsAt(b, at, n))
  {
    cs := before;
    var w := 0;
    while w < n
      invariant 0 <= w <= n
      invariant cs == before + Total(WordsAt(b, at, w))
      invariant before + w * 0xFFFF <= before + n * 0xFFFF
    {
      assert WordsAt(b, at, w + 1)[..w] == WordsAt(b, at, w);
      assert cs <= before + w * 0xFFFF;
      assert (w + 1) * 0xFFFF <= n * 0xFFFF;
      cs := cs + Get16(b, at + 2 * w);
      w := w + 1;
    }
  }
}
