/** The string interner of `str_intern.cpp`: a hash set of chained buckets that is rehashed as it grows,
    against the linear list of `intern_forward_list.cpp`.

    A reference to an interned string is modelled by the string's position in the order of interning:
    the strings are nodes of a list that are never moved or removed. */
module StrIntern {
  import opened Bits
  import opened InternSizes
  import opened Wrappers

  // ----- the simple form

  function IndexOf(strings: seq<string>, str: string): (i: nat)
    ensures i <= |strings|
    ensures i < |strings| ==> strings[i] == str
    ensures forall j :: 0 <= j < i ==> strings[j] != str
  {
    if strings == [] || strings[0] == str then 0 else 1 + IndexOf(strings[1..], str)
  }

  /** The interned strings after `intern(str)`; the reference returned is `IndexOf` before the call. */
  function Interned(strings: seq<string>, str: string): seq<string>
  {
    if IndexOf(strings, str) < |strings| then strings else strings + [str]
  }

  ghost predicate Distinct(strings: seq<string>)
  {
    forall i, j :: 0 <= i < j < |strings| ==> strings[i] != strings[j]
  }

  lemma InternedIsDistinct(strings: seq<string>, str: string)
    requires Distinct(strings)
    ensures Distinct(Interned(strings, str))
  {
  }

  lemma IndexOfIs(strings: seq<string>, str: string, i: nat)
    requires Distinct(strings) && i < |strings| && strings[i] == str
    ensures IndexOf(strings, str) == i
  {
  }

  /** The strings and the references after a sequence of `intern` calls. */
  function StringsAfter(words: seq<string>): seq<string>
  {
    if words == [] then []
    else Interned(StringsAfter(words[..|words| - 1]), words[|words| - 1])
  }

  function Reference(words: seq<string>, k: nat): nat
    requires k < |words|
  {
    IndexOf(StringsAfter(words[..k]), words[k])
  }

  lemma {:induction false} StringsAfterAre(words: seq<string>)
    ensures Distinct(StringsAfter(words))
    ensures forall s :: s in StringsAfter(words) <==> s in words
  {
    if words != [] {
      var init, last := words[..|words| - 1], words[|words| - 1];
      StringsAfterAre(init);
      InternedIsDistinct(StringsAfter(init), last);
      assert words == init + [last];
    }
  }

  lemma {:induction false} StringsGrow(words: seq<string>, k: nat)
    requires k <= |words|
    ensures StringsAfter(words[..k]) <= StringsAfter(words)
    decreases |words| - k
  {
    if k < |words| {
      StringsGrow(words, k + 1);
      assert words[..k + 1][..k] == words[..k];
    } else {
      assert words[..k] == words;
    }
  }

  lemma ReferenceIsLasting(words: seq<string>, k: nat)
    requires k < |words|
    ensures Reference(words, k) < |StringsAfter(words)| && StringsAfter(words)[Reference(words, k)] == words[k]
  {
    StringsGrow(words, k + 1);
    assert words[..k + 1][..k] == words[..k];
  }

  /** Over any sequence of calls: equal strings get the same reference, distinct strings get distinct
      ones, and the number of strings kept is the number of distinct strings. */
  lemma InternIdentifiesStrings(words: seq<string>, j: nat, k: nat)
    requires j < |words| && k < |words|
    ensures Reference(words, j) == Reference(words, k) <==> words[j] == words[k]
    ensures |StringsAfter(words)| == |set s | s in words|
  {
    StringsAfterAre(words);
    ReferenceIsLasting(words, j);
    ReferenceIsLasting(words, k);
    DistinctCount(StringsAfter(words));
    assert (set s | s in StringsAfter(words)) == (set s | s in words);
  }

  lemma {:induction false} DistinctCount(strings: seq<string>)
    requires Distinct(strings)
    ensures |set s | s in strings| == |strings|
  {
    if strings != [] {
      var init, last := strings[..|strings| - 1], strings[|strings| - 1];
      DistinctCount(init);
      assert (set s | s in strings) == (set s | s in init) + {last};
    }
  }

  /** `intern_forward_list` */
  class ForwardList {
    var strings: seq<string>   // front first
    var interned: nat

    ghost predicate Valid()
      reads this
    {
      interned == |strings|
    }

    /** The strings in the order of interning. */
    ghost function Contents(): seq<string>
      reads this
    {
      Reversed(strings)
    }

    constructor ()
      ensures Valid() && Contents() == []
    {
      strings := [];
      interned := 0;
    }

    method Intern(str: string) returns (ref: nat)
      requires Valid() && Distinct(Contents())
      modifies this
      ensures Valid() && Distinct(Contents())
      ensures Contents() == Interned(old(Contents()), str)
      ensures ref == IndexOf(old(Contents()), str)
    {
      ReversedAt(strings);
      ghost var contents := Contents();
      InternedIsDistinct(contents, str);
      var i := 0;
      while i < |strings|
        invariant i <= |strings| && strings == old(strings) && interned == old(interned)
        invariant forall j :: 0 <= j < i ==> strings[j] != str
      {
        if strings[i] == str {
          ref := |strings| - 1 - i;
          IndexOfIs(contents, str, ref);
          return;
        }
        i := i + 1;
      }
      assert forall j :: 0 <= j < |contents| ==> contents[j] == strings[|strings| - 1 - j];
      ref := |strings|;
      interned := interned + 1;
      strings := [str] + strings;
    }
  }

  function Reversed<T>(s: seq<T>): (r: seq<T>)
    ensures |r| == |s|
  {
    if s == [] then [] else Reversed(s[1..]) + [s[0]]
  }

  lemma {:induction false} ReversedAt<T>(s: seq<T>)
    ensures forall k :: 0 <= k < |s| ==> Reversed(s)[k] == s[|s| - 1 - k]
  {
    if s != [] { ReversedAt(s[1..]); }
  }

  // ----- the hash set

  /** `string_hash_block`: the hash and the pointer to the string. */
  datatype Block = Block(hash: nat, ref: nat)

  function TotalBlocks(table: seq<seq<Block>>): nat
  {
    if table == [] then 0 else |table[0]| + TotalBlocks(table[1..])
  }

  lemma {:induction false} TotalBlocksPush(table: seq<seq<Block>>, i: nat, b: Block)
    requires i < |table|
    ensures TotalBlocks(table[i := [b] + table[i]]) == TotalBlocks(table) + 1
  {
    if i > 0 {
      assert table[i := [b] + table[i]][1..] == table[1..][i - 1 := [b] + table[i]];
      TotalBlocksPush(table[1..], i - 1, b);
    } else {
      assert table[i := [b] + table[i]][1..] == table[1..];
    }
  }

  lemma {:induction false} TotalBlocksSplit(table: seq<seq<Block>>, i: nat)
    requires i < |table|
    ensures TotalBlocks(table[..i + 1]) == TotalBlocks(table[..i]) + |table[i]|
  {
    if i > 0 {
      assert table[..i + 1][1..] == table[1..][..i] && table[..i][1..] == table[1..][..i - 1];
      TotalBlocksSplit(table[1..], i - 1);
    }
  }

  lemma {:induction false} TotalBlocksOfEmpty(n: nat)
    ensures TotalBlocks(seq(n, _ => [])) == 0
  {
    if n > 0 {
      assert seq(n, _ => [])[1..] == seq<seq<Block>>(n - 1, _ => []);
      TotalBlocksOfEmpty(n - 1);
    }
  }

  /** A block of some string, in the bucket of its hash. */
  predicate BlockIsGood(hash: string -> nat, strings: seq<string>, mask: nat, i: nat, b: Block)
  {
    b.ref < |strings| && b.hash == hash(strings[b.ref]) && And(b.hash, mask) == i
  }

  ghost predicate BlocksAreGood(hash: string -> nat, strings: seq<string>, mask: nat, table: seq<seq<Block>>)
  {
    forall i, b :: 0 <= i < |table| && b in table[i] ==> BlockIsGood(hash, strings, mask, i, b)
  }

  ghost predicate HasBlock(hash: string -> nat, strings: seq<string>, mask: nat, table: seq<seq<Block>>, ref: nat)
    requires ref < |strings|
  {
    var h := hash(strings[ref]);
    And(h, mask) < |table| && Block(h, ref) in table[And(h, mask)]
  }

  ghost predicate AllHaveBlocks(hash: string -> nat, strings: seq<string>, mask: nat, table: seq<seq<Block>>)
  {
    forall r :: 0 <= r < |strings| ==> HasBlock(hash, strings, mask, table, r)
  }

  /** Each of the blocks is where its hash belongs. */
  ghost predicate InBuckets(blocks: seq<Block>, table: seq<seq<Block>>, mask: nat)
    requires |table| == mask + 1
  {
    forall b :: b in blocks ==> b in table[Bucket(b, mask)]
  }

  lemma PushedInBuckets(bucket: seq<Block>, j: nat, table: seq<seq<Block>>, k: nat, mask: nat)
    requires |table| == mask + 1 && j < |bucket| && InBuckets(bucket[..j], table, mask) && k == Bucket(bucket[j], mask)
    ensures InBuckets(bucket[..j + 1], table[k := [bucket[j]] + table[k]], mask)
  {
    assert bucket[..j + 1] == bucket[..j] + [bucket[j]];
  }

  lemma StillInBuckets(blocks: seq<Block>, before: seq<seq<Block>>, after: seq<seq<Block>>, mask: nat)
    requires |before| == |after| == mask + 1 && InBuckets(blocks, before, mask)
    requires forall i: nat, b :: i < |before| && b in before[i] ==> b in after[i]
    ensures InBuckets(blocks, after, mask)
  {
  }

  /** What a block says of its string holds for any mask. */
  lemma GoodInOther(hash: string -> nat, strings: seq<string>, mask: nat, table: seq<seq<Block>>, i: nat, other: nat)
    requires BlocksAreGood(hash, strings, mask, table) && i < |table|
    ensures forall b :: b in table[i] ==> BlockIsGood(hash, strings, other, Bucket(b, other), b)
  {
    forall b | b in table[i] ensures BlockIsGood(hash, strings, other, Bucket(b, other), b) {
      assert BlockIsGood(hash, strings, mask, i, b);
    }
  }

  class Interner {
    const hash: string -> nat
    var strings: seq<string>          // strings_, in the order of interning
    var table: seq<seq<Block>>        // set_
    var interned: nat
    var hashMask: nat
    var maxBuckets: nat
    var maxLoadFactor: real
    var rehashCount: nat
    const width: nat

    ghost var copied: nat             // blocks moved by rehashes

    ghost predicate ValidTable()
      reads this
    {
      && |table| == hashMask + 1
      && interned == |strings| == TotalBlocks(table)
      && Distinct(strings)
      && BlocksAreGood(hash, strings, hashMask, table)
      && AllHaveBlocks(hash, strings, hashMask, table)
    }

    function View(): Sizes
      reads this
    {
      Sizes(interned, |table|, maxBuckets, maxLoadFactor, rehashCount, width)
    }

    /** For every limit that the constructor takes. */
    ghost predicate Valid()
      reads this
    {
      ValidTable() && Sound(View())
    }

    /** `NewInterner` has made the checks. */
    constructor (hash: string -> nat, buckets: nat, maxBuckets: nat, width: nat)
      requires Accepted(buckets, maxBuckets) && 0 < width && maxBuckets < Pow2(width)
      ensures Valid() && this.hash == hash && strings == [] && copied == 0
      ensures View() == Initial(buckets, maxBuckets, width)
    {
      this.hash := hash;
      this.width := width;
      this.strings := [];
      this.table := seq(buckets, _ => []);
      this.interned := 0;
      this.hashMask := buckets - 1;
      this.maxBuckets := maxBuckets;
      this.maxLoadFactor := 1.0;
      this.rehashCount := if buckets == maxBuckets then 0 else buckets;
      this.copied := 0;
      TotalBlocksOfEmpty(buckets);
    }

    /** `size()` returns `unsigned int`. */
    function Size(): nat
      reads this
    {
      interned % 0x1_0000_0000
    }

    /** The inner loop: the blocks of one bucket go to the front of their new buckets. */
    method MoveBucket(bucket: seq<Block>, old': seq<seq<Block>>, mask: nat) returns (newTable: seq<seq<Block>>)
      requires |old'| == mask + 1 && BlocksAreGood(hash, strings, mask, old')
      requires forall b :: b in bucket ==> BlockIsGood(hash, strings, mask, Bucket(b, mask), b)
      ensures |newTable| == mask + 1 && BlocksAreGood(hash, strings, mask, newTable)
      ensures InBuckets(bucket, newTable, mask)
      ensures forall i: nat, b :: i < |old'| && b in old'[i] ==> b in newTable[i]
      ensures TotalBlocks(newTable) == TotalBlocks(old') + |bucket|
    {
      newTable := old';
      var j := 0;
      while j < |bucket|
        invariant j <= |bucket| && |newTable| == mask + 1 && BlocksAreGood(hash, strings, mask, newTable)
        invariant InBuckets(bucket[..j], newTable, mask)
        invariant forall i: nat, b :: i < |old'| && b in old'[i] ==> b in newTable[i]
        invariant TotalBlocks(newTable) == TotalBlocks(old') + j
      {
        var b := bucket[j];
        var k := Bucket(b, mask);
        TotalBlocksPush(newTable, k, b);
        PushedInBuckets(bucket, j, newTable, k, mask);
        newTable := newTable[k := [b] + newTable[k]];
        j := j + 1;
      }
      assert bucket[..j] == bucket;
    }

    /** Lines 307 to 318: every block goes to the front of its bucket in a new table. */
    method Redistribute(newBuckets: nat) returns (newTable: seq<seq<Block>>)
      requires ValidTable() && 0 < newBuckets
      ensures |newTable| == newBuckets
      ensures BlocksAreGood(hash, strings, newBuckets - 1, newTable)
      ensures AllHaveBlocks(hash, strings, newBuckets - 1, newTable)
      ensures TotalBlocks(newTable) == TotalBlocks(table)
    {
      var mask := newBuckets - 1;
      newTable := seq(newBuckets, _ => []);
      TotalBlocksOfEmpty(newBuckets);
      var i := 0;
      while i < |table|
        invariant i <= |table| && |newTable| == newBuckets
        invariant BlocksAreGood(hash, strings, mask, newTable)
        invariant forall i': nat :: i' < i ==> InBuckets(table[i'], newTable, mask)
        invariant TotalBlocks(newTable) == TotalBlocks(table[..i])
      {
        ghost var before := newTable;
        GoodInOther(hash, strings, hashMask, table, i, mask);
        newTable := MoveBucket(table[i], newTable, mask);
        forall i': nat | i' < i ensures InBuckets(table[i'], newTable, mask) {
          StillInBuckets(table[i'], before, newTable, mask);
        }
        TotalBlocksSplit(table, i);
        i := i + 1;
      }
      assert table[..i] == table;
      forall r | 0 <= r < |strings| ensures HasBlock(hash, strings, mask, newTable, r) {
        assert HasBlock(hash, strings, hashMask, table, r);
        var b := Block(hash(strings[r]), r);
        assert InBuckets(table[And(b.hash, hashMask)], newTable, mask);
        assert b in newTable[Bucket(b, mask)];
      }
    }

    method Rehash(newBuckets: nat)
      requires ValidTable() && 0 < newBuckets && 0.0 < maxLoadFactor
      modifies `table, `hashMask, `rehashCount, `copied
      ensures ValidTable()
      ensures View() == old(View()).(buckets := newBuckets,
                threshold := if newBuckets == maxBuckets then 0 else Threshold(newBuckets, maxLoadFactor))
      ensures copied == old(copied) + interned
    {
      var newTable := Redistribute(newBuckets);
      hashMask := newBuckets - 1;
      table := newTable;
      copied := copied + interned;
      rehashCount := if newBuckets == maxBuckets then 0 else Threshold(newBuckets, maxLoadFactor);
    }

    /** The new string's block goes to the front of its bucket. */
    method Add(str: string, h: nat) returns (ref: nat)
      requires ValidTable() && str !in strings && h == hash(str)
      modifies `strings, `table, `interned
      ensures ValidTable() && strings == old(strings) + [str] && ref == |old(strings)|
      ensures View() == old(View()).(interned := old(interned) + 1)
    {
      var i := Bucket(Block(h, 0), hashMask);
      ref := |strings|;
      TotalBlocksPush(table, i, Block(h, ref));
      interned := interned + 1;
      strings := strings + [str];
      table := table[i := [Block(h, ref)] + table[i]];
      forall i', b | 0 <= i' < |table| && b in table[i'] ensures BlockIsGood(hash, strings, hashMask, i', b) {
        assert b in old(table)[i'] || (i' == i && b == Block(h, ref));
      }
      forall r | 0 <= r < |strings| ensures HasBlock(hash, strings, hashMask, table, r) {
        if r < ref { assert HasBlock(hash, old(strings), hashMask, old(table), r); }
      }
    }

    /** The walk over the bucket finds the string's position exactly when the string is interned. */
    method Find(str: string, h: nat) returns (ref: Option<nat>)
      requires ValidTable() && h == hash(str)
      ensures ref == if str in strings then Some(IndexOf(strings, str)) else None
    {
      var i := Bucket(Block(h, 0), hashMask);
      var bucket := table[i];
      assert forall k :: 0 <= k < |bucket| ==> BlockIsGood(hash, strings, hashMask, i, bucket[k]);
      var j := 0;
      while j < |bucket|
        invariant j <= |bucket|
        invariant forall k :: 0 <= k < j ==> !(bucket[k].hash == h && strings[bucket[k].ref] == str)
      {
        var b := bucket[j];
        if b.hash == h && str == strings[b.ref] {
          IndexOfIs(strings, str, b.ref);
          return Some(b.ref);
        }
        j := j + 1;
      }
      forall r | 0 <= r < |strings| ensures strings[r] != str {
        assert HasBlock(hash, strings, hashMask, table, r);
      }
      ref := None;
    }

    /** `intern` does what the linear list does, and keeps the table's sizes, unless a new string would
        make a table without buckets. */
    method Intern(str: string) returns (ref: nat)
      requires Valid() && (str in strings || !Breaks(View()))
      modifies `strings, `table, `interned, `hashMask, `rehashCount, `copied
      ensures Valid()
      ensures strings == Interned(old(strings), str) && ref == IndexOf(old(strings), str)
      ensures View() == if str in old(strings) then old(View()) else Added(old(View()))
      ensures copied == old(copied) + if str !in old(strings) && MustRehash(old(View())) then old(interned) else 0
    {
      var h := hash(str);
      var found := Find(str, h);
      if found.Some? { return found.value; }
      if rehashCount != 0 && interned >= rehashCount {
        NextSizeIsZeroIff(View());
        Rehash(NextSize(View()));
      }
      ref := Add(str, h);
    }

    /** `max_load_factor(ml)`: a factor of at most 0.01 is refused, and nothing changes. */
    method SetMaxLoadFactor(ml: real) returns (ok: bool)
      requires Valid()
      modifies `maxLoadFactor, `rehashCount
      ensures Valid()
      ensures ok == (0.01 < ml)
      ensures View() == if ok then WithFactor(old(View()), ml) else old(View())
    {
      if ml <= 0.01 { return false; }
      maxLoadFactor := ml;
      rehashCount := FactorThreshold(|table|, maxBuckets, width, ml);
      ok := true;
    }
  }

  /** `str_intern::str_intern`, which throws for all but multiples of a power of two; `InternSizes` says
      what becomes of the limits that are not powers of two themselves. */
  method NewInterner(hash: string -> nat, buckets: nat, maxBuckets: nat, width: nat) returns (t: Option<Interner>)
    requires 0 < width && maxBuckets < Pow2(width)
    ensures t.Some? <==> IsPow2(buckets) && buckets <= maxBuckets && maxBuckets % buckets == 0
    ensures t.Some? ==>
      && fresh(t.value) && t.value.Valid() && t.value.hash == hash && t.value.strings == []
      && t.value.View() == Initial(buckets, maxBuckets, width) && t.value.copied == 0
  {
    AcceptedIff(buckets, maxBuckets);
    if !Accepted(buckets, maxBuckets) { return None; }
    var i := new Interner(hash, buckets, maxBuckets, width);
    t := Some(i);
  }

  /** `block.hash & hash_mask` */
  function Bucket(b: Block, mask: nat): (i: nat)
    ensures i <= mask
  {
    AndAtMost(b.hash, mask);
    And(b.hash, mask)
  }

  // ----- any sequence of calls

  datatype Call = InternCall(str: string) | FactorCall(ml: real)

  function Words(calls: seq<Call>): seq<string>
  {
    if calls == [] then []
    else
      var init, last := calls[..|calls| - 1], calls[|calls| - 1];
      Words(init) + if last.InternCall? then [last.str] else []
  }

  /** A word more leaves the references of those before it. */
  lemma OneMoreWord(words: seq<string>, str: string)
    ensures (words + [str])[..|words|] == words
    ensures forall k :: 0 <= k < |words| ==> Reference(words + [str], k) == Reference(words, k)
  {
    forall k | 0 <= k < |words| ensures Reference(words + [str], k) == Reference(words, k) {
      assert (words + [str])[..k] == words[..k];
    }
  }

  /** The references returned for words so far. */
  ghost predicate AreReferences(refs: seq<nat>, words: seq<string>)
  {
    |refs| == |words| && forall k: nat :: k < |refs| ==> refs[k] == Reference(words, k)
  }

  lemma OneMoreReference(refs: seq<nat>, words: seq<string>, str: string)
    requires AreReferences(refs, words)
    ensures AreReferences(refs + [IndexOf(StringsAfter(words), str)], words + [str])
    ensures StringsAfter(words + [str]) == Interned(StringsAfter(words), str)
  {
    OneMoreWord(words, str);
  }

  lemma WordsOfNext(calls: seq<Call>, n: nat)
    requires n < |calls|
    ensures Words(calls[..n + 1]) == Words(calls[..n]) + if calls[n].InternCall? then [calls[n].str] else []
  {
    assert calls[..n + 1][..n] == calls[..n];
  }

  /** The sizes after a run of calls: only new strings count. */
  function SizesOf(z: Sizes, calls: seq<Call>): (r: Sizes)
    requires 0.0 < z.factor
    ensures 0.0 < r.factor && r.width == z.width && r.maxBuckets == z.maxBuckets
  {
    if calls == [] then z
    else
      var init, last := calls[..|calls| - 1], calls[|calls| - 1];
      match last
      case InternCall(str) =>
        if str in StringsAfter(Words(init)) then SizesOf(z, init) else Added(SizesOf(z, init))
      case FactorCall(ml) => if ml <= 0.01 then SizesOf(z, init) else WithFactor(SizesOf(z, init), ml)
  }

  /** The call does not make a table without buckets. */
  predicate KeepsBuckets(z: Sizes, calls: seq<Call>, n: nat)
    requires 0.0 < z.factor && 0 < z.width && n < |calls|
  {
    var c := calls[n];
    c.InternCall? && c.str !in StringsAfter(Words(calls[..n])) ==> !Breaks(SizesOf(z, calls[..n]))
  }

  /** None of the calls does: `AllCallsKeepBucketsIff` says for which limits that holds of all calls. */
  predicate AllKeepBuckets(z: Sizes, calls: seq<Call>)
    requires 0.0 < z.factor && 0 < z.width
  {
    forall n: nat :: n < |calls| ==> KeepsBuckets(z, calls, n)
  }

  lemma SizesOfNext(z: Sizes, calls: seq<Call>, n: nat)
    requires n < |calls| && 0.0 < z.factor
    ensures var y := SizesOf(z, calls[..n]);
            SizesOf(z, calls[..n + 1]) ==
              match calls[n]
              case InternCall(str) => if str in StringsAfter(Words(calls[..n])) then y else Added(y)
              case FactorCall(ml) => if ml <= 0.01 then y else WithFactor(y, ml)
  {
    assert calls[..n + 1][..n] == calls[..n];
  }

  /** What holds after the calls so far. */
  ghost predicate Follows(strings: seq<string>, y: Sizes, refs: seq<nat>, z: Sizes, calls: seq<Call>)
    requires 0.0 < z.factor
  {
    strings == StringsAfter(Words(calls)) && y == SizesOf(z, calls) && AreReferences(refs, Words(calls))
  }

  lemma FollowsIntern(strings: seq<string>, y: Sizes, refs: seq<nat>, z: Sizes, calls: seq<Call>, n: nat, str: string)
    requires 0.0 < z.factor && n < |calls| && calls[n] == InternCall(str) && Follows(strings, y, refs, z, calls[..n])
    ensures Follows(Interned(strings, str), if str in strings then y else Added(y),
                    refs + [IndexOf(strings, str)], z, calls[..n + 1])
  {
    WordsOfNext(calls, n);
    SizesOfNext(z, calls, n);
    OneMoreReference(refs, Words(calls[..n]), str);
  }

  lemma FollowsFactor(strings: seq<string>, y: Sizes, refs: seq<nat>, z: Sizes, calls: seq<Call>, n: nat, ml: real)
    requires 0.0 < z.factor && n < |calls| && calls[n] == FactorCall(ml) && Follows(strings, y, refs, z, calls[..n])
    ensures Follows(strings, if ml <= 0.01 then y else WithFactor(y, ml), refs, z, calls[..n + 1])
  {
    WordsOfNext(calls, n);
    SizesOfNext(z, calls, n);
    assert Words(calls[..n + 1]) == Words(calls[..n]);
  }

  method RunCall(t: Interner, calls: seq<Call>, n: nat, refs: seq<nat>, ghost z: Sizes) returns (refs': seq<nat>)
    requires t.Valid() && n < |calls| && 0.0 < z.factor && 0 < z.width && KeepsBuckets(z, calls, n)
    requires Follows(t.strings, t.View(), refs, z, calls[..n])
    modifies t
    ensures t.Valid() && Follows(t.strings, t.View(), refs', z, calls[..n + 1])
  {
    match calls[n] {
      case InternCall(str) =>
        FollowsIntern(t.strings, t.View(), refs, z, calls, n, str);
        var ref := t.Intern(str);
        refs' := refs + [ref];
      case FactorCall(ml) =>
        FollowsFactor(t.strings, t.View(), refs, z, calls, n, ml);
        var ok := t.SetMaxLoadFactor(ml);
        refs' := refs;
    }
  }

  /** Whatever the hash function, and however often the table is rehashed, a run of calls returns the
      references of the linear list, which `InternIdentifiesStrings` characterises. */
  method RunCalls(t: Interner, calls: seq<Call>) returns (refs: seq<nat>)
    requires t.Valid() && t.strings == [] && AllKeepBuckets(t.View(), calls)
    modifies t
    ensures t.Valid() && t.strings == StringsAfter(Words(calls))
    ensures t.View() == SizesOf(old(t.View()), calls)
    ensures AreReferences(refs, Words(calls))
    ensures t.interned == |set s | s in Words(calls)|
    ensures t.Size() == |set s | s in Words(calls)| % 0x1_0000_0000
  {
    ghost var z := t.View();
    refs := [];
    var n := 0;
    while n < |calls|
      invariant n <= |calls| && t.Valid() && Follows(t.strings, t.View(), refs, z, calls[..n])
    {
      assert KeepsBuckets(z, calls, n);
      refs := RunCall(t, calls, n, refs, z);
      n := n + 1;
    }
    assert calls[..n] == calls;
    CountWords(t, Words(calls));
  }

  lemma CountWords(t: Interner, words: seq<string>)
    requires t.Valid() && t.strings == StringsAfter(words)
    ensures t.interned == |set s | s in words|
  {
    StringsAfterAre(words);
    DistinctCount(t.strings);
    assert (set s | s in t.strings) == (set s | s in words);
  }

  /** The changes of the sizes that a run of calls makes. */
  function ChangesOf(calls: seq<Call>): seq<Change>
  {
    if calls == [] then []
    else
      var init, last := calls[..|calls| - 1], calls[|calls| - 1];
      match last
      case InternCall(str) =>
        if str in StringsAfter(Words(init)) then ChangesOf(init) else ChangesOf(init) + [NewString]
      case FactorCall(ml) => ChangesOf(init) + [NewFactor(ml)]
  }

  lemma OneMoreChange(z: Sizes, changes: seq<Change>, c: Change)
    requires 0.0 < z.factor
    ensures SizesAfter(z, changes + [c]) == Changed(SizesAfter(z, changes), c)
  {
    assert (changes + [c])[..|changes|] == changes;
  }

  lemma {:induction false} SizesAreOfChanges(z: Sizes, calls: seq<Call>)
    requires 0.0 < z.factor
    ensures SizesOf(z, calls) == SizesAfter(z, ChangesOf(calls))
  {
    if calls != [] {
      var init, last := calls[..|calls| - 1], calls[|calls| - 1];
      SizesAreOfChanges(z, init);
      match last
      case InternCall(str) => OneMoreChange(z, ChangesOf(init), NewString);
      case FactorCall(ml) => OneMoreChange(z, ChangesOf(init), NewFactor(ml));
    }
  }

  lemma LowLimitKeepsBuckets(buckets: nat, maxBuckets: nat, width: nat, calls: seq<Call>)
    requires Accepted(buckets, maxBuckets) && 0 < width && maxBuckets <= Pow2(width - 1) + 1
    requires maxBuckets < Pow2(width)
    ensures AllKeepBuckets(Initial(buckets, maxBuckets, width), calls)
  {
    var z := Initial(buckets, maxBuckets, width);
    NeverBreaksIff(buckets, maxBuckets, width);
    forall n: nat | n < |calls| ensures KeepsBuckets(z, calls, n) { SizesAreOfChanges(z, calls[..n]); }
  }

  /** Words of all lengths. */
  function Word(n: nat): string { seq(n, _ => 'a') }

  function DistinctCalls(n: nat): seq<Call> { seq(n, k requires 0 <= k < n => InternCall(Word(k))) }

  lemma OneMoreNew(calls: seq<Call>, init: seq<Call>, str: string)
    requires calls == init + [InternCall(str)] && str !in Words(init)
    ensures Words(calls) == Words(init) + [str] && ChangesOf(calls) == ChangesOf(init) + [NewString]
  {
    var n := |calls| - 1;
    assert calls[..n] == init && calls[n] == InternCall(str);
    StringsAfterAre(Words(init));
  }

  lemma DistinctCallsNext(m: nat, n: nat)
    requires n == m + 1
    ensures DistinctCalls(n) == DistinctCalls(m) + [InternCall(Word(m))] && Strings(n) == Strings(m) + [NewString]
  {
  }

  lemma {:induction false} WordsOfDistinct(n: nat)
    ensures forall s :: s in Words(DistinctCalls(n)) ==> |s| < n
    ensures ChangesOf(DistinctCalls(n)) == Strings(n)
  {
    if n > 0 {
      var m: nat := n - 1;
      WordsOfDistinct(m);
      DistinctCallsNext(m, n);
      OneMoreNew(DistinctCalls(n), DistinctCalls(m), Word(m));
    }
  }

  /** One more word breaks the table, if it is ready to break. */
  lemma NextWordBreaks(z: Sizes, n: nat) returns (calls: seq<Call>)
    requires 0 < z.width && 0.0 < z.factor && Breaks(SizesAfter(z, Strings(n)))
    ensures !AllKeepBuckets(z, calls)
  {
    var init := DistinctCalls(n);
    WordsOfDistinct(n);
    StringsAfterAre(Words(init));
    SizesAreOfChanges(z, init);
    calls := init + [InternCall(Word(n))];
    assert calls[..n] == init && calls[n] == InternCall(Word(n));
    assert !KeepsBuckets(z, calls, n);
  }

  lemma HighLimitLosesBuckets(buckets: nat, maxBuckets: nat, width: nat) returns (calls: seq<Call>)
    requires Accepted(buckets, maxBuckets) && 0 < width && Pow2(width - 1) + 1 < maxBuckets < Pow2(width)
    ensures !AllKeepBuckets(Initial(buckets, maxBuckets, width), calls)
  {
    var top: nat := width - 1;
    OtherLimitBreaks(buckets, maxBuckets, width, top);
    calls := NextWordBreaks(Initial(buckets, maxBuckets, width), Pow2(top));
  }

  /** `RunCalls` takes all calls exactly when the limit is at most half the range of the type, or one
      more. */
  lemma AllCallsKeepBucketsIff(buckets: nat, maxBuckets: nat, width: nat)
    requires Accepted(buckets, maxBuckets) && 0 < width && maxBuckets < Pow2(width)
    ensures (forall calls: seq<Call> :: AllKeepBuckets(Initial(buckets, maxBuckets, width), calls))
       <==> maxBuckets <= Pow2(width - 1) + 1
  {
    var z := Initial(buckets, maxBuckets, width);
    if maxBuckets <= Pow2(width - 1) + 1 {
      forall calls: seq<Call> ensures AllKeepBuckets(z, calls) {
        LowLimitKeepsBuckets(buckets, maxBuckets, width, calls);
      }
    } else {
      var calls := HighLimitLosesBuckets(buckets, maxBuckets, width);
      assert !AllKeepBuckets(z, calls);
    }
  }

  /** At the factor 1.0 of construction, the blocks moved by all rehashes stay below twice the strings. */
  method InternWords(t: Interner, words: seq<string>)
    requires t.Valid() && t.strings == [] && t.copied == 0
    requires t.View() == Initial(|t.table|, t.maxBuckets, t.width)
    requires IsPow2(|t.table|) && IsPow2(t.maxBuckets) && |t.table| <= t.maxBuckets
    modifies t
    ensures t.Valid() && (t.copied == 0 || t.copied < 2 * t.interned)
  {
    ghost var first := |t.table|;
    InitialIsValid(first, t.maxBuckets, t.width);
    var n := 0;
    while n < |words|
      invariant n <= |words| && t.Valid() && Unit(t.View(), first, t.copied)
    {
      UnitDoesNotBreak(t.View(), first, t.copied);
      UnitAdded(t.View(), first, t.copied);
      var ref := t.Intern(words[n]);
      n := n + 1;
    }
    UnitCopiesAreLinear(t.View(), first, t.copied);
  }
}
