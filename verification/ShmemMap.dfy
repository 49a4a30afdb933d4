/** The shared memory of two processes: the two-pointer sweep of `print_shmem` (`lshmem.cpp`) over two
    sorted maps, and the accumulation of overlaps per pair of attributes (`shmem_map.cpp`). */
module ShmemMap {
  import opened PidMapping

  datatype Entry = Entry(p1: Attr, p2: Attr, size: Word)

  function Min(x: int, y: int): int { if x <= y then x else y }

  function Max(x: int, y: int): int { if x <= y then y else x }

  predicate IsKey(e: Entry, c1: Attr, c2: Attr)
  {
    e.p1 == c1 && e.p2 == c2
  }

  ghost predicate Distinct(o: seq<Entry>)
  {
    && (forall i :: 0 <= i < |o| ==> 0 < o[i].size)
    && (forall i, j :: 0 <= i < j < |o| ==> !IsKey(o[j], o[i].p1, o[i].p2))
  }

  /** The size accumulated for a pair of attributes. */
  function SizeOf(o: seq<Entry>, c1: Attr, c2: Attr): nat
  {
    if o == [] then 0 else if IsKey(o[0], c1, c2) then o[0].size else SizeOf(o[1..], c1, c2)
  }

  /** The number of addresses two lines share. */
  function Inter(x: Line, y: Line): nat
  {
    Max(0, Min(End(x), End(y)) - Max(x.addr, y.addr))
  }

  function Weight(x: Line, y: Line, c1: Attr, c2: Attr): nat
  {
    if x.attr == c1 && y.attr == c2 then Inter(x, y) else 0
  }

  function RowSum(x: Line, m2: seq<Line>, c1: Attr, c2: Attr): nat
  {
    if m2 == [] then 0 else Weight(x, m2[0], c1, c2) + RowSum(x, m2[1..], c1, c2)
  }

  /** The sum of the intersections over all pairs of lines with the given attributes. */
  function AllPairs(m1: seq<Line>, m2: seq<Line>, c1: Attr, c2: Attr): nat
  {
    if m1 == [] then 0 else RowSum(m1[0], m2, c1, c2) + AllPairs(m1[1..], m2, c1, c2)
  }

  // ----- accumulation

  lemma {:induction false} SizeOfAt(o: seq<Entry>, i: nat)
    requires Distinct(o) && i < |o|
    ensures SizeOf(o, o[i].p1, o[i].p2) == o[i].size
  {
    if i > 0 {
      assert !IsKey(o[i], o[0].p1, o[0].p2);
      SizeOfAt(o[1..], i - 1);
    }
  }

  lemma {:induction false} SizeOfMissing(o: seq<Entry>, c1: Attr, c2: Attr)
    requires forall i :: 0 <= i < |o| ==> !IsKey(o[i], c1, c2)
    ensures SizeOf(o, c1, c2) == 0
  {
    if o != [] { SizeOfMissing(o[1..], c1, c2); }
  }

  lemma {:induction false} SizeOfUpdate(o: seq<Entry>, i: nat, size: Word, c1: Attr, c2: Attr)
    requires Distinct(o) && i < |o|
    ensures SizeOf(o[i := o[i].(size := size)], c1, c2)
         == if IsKey(o[i], c1, c2) then size else SizeOf(o, c1, c2)
  {
    var o' := o[i := o[i].(size := size)];
    if i > 0 {
      assert o'[1..] == o[1..][i - 1 := o[i].(size := size)];
      SizeOfUpdate(o[1..], i - 1, size, c1, c2);
      assert !IsKey(o[i], o[0].p1, o[0].p2);
    } else {
      assert o'[1..] == o[1..];
    }
  }

  lemma {:induction false} SizeOfAppend(o: seq<Entry>, e: Entry, c1: Attr, c2: Attr)
    requires forall i :: 0 <= i < |o| ==> !IsKey(o[i], e.p1, e.p2)
    ensures SizeOf(o + [e], c1, c2) == if IsKey(e, c1, c2) then e.size else SizeOf(o, c1, c2)
  {
    if o != [] {
      assert (o + [e])[1..] == o[1..] + [e];
      SizeOfAppend(o[1..], e, c1, c2);
    }
  }

  /** The entry of a pair of attributes, or the end of the vector. */
  function Find(o: seq<Entry>, c1: Attr, c2: Attr): (i: nat)
    ensures i <= |o| && (i < |o| ==> IsKey(o[i], c1, c2))
    ensures forall j :: 0 <= j < i ==> !IsKey(o[j], c1, c2)
  {
    if o == [] || IsKey(o[0], c1, c2) then 0 else 1 + Find(o[1..], c1, c2)
  }

  /** The vector after `compare_and_add`. */
  function Accumulated(o: seq<Entry>, p1: Line, p2: Line): seq<Entry>
  {
    var start := Max(p1.addr, p2.addr);
    var end := Min(Add(p1.addr, p1.len), Add(p2.addr, p2.len));
    var i := Find(o, p1.attr, p2.attr);
    if start >= end then o
    else if i < |o| then o[i := o[i].(size := Add(o[i].size, end - start))]
    else o + [Entry(p1.attr, p2.attr, end - start)]
  }

  lemma UpdatedSizes(o: seq<Entry>, i: nat, size: Word)
    requires Distinct(o) && i < |o| && 0 < size
    ensures Distinct(o[i := o[i].(size := size)])
    ensures forall c1, c2 :: SizeOf(o[i := o[i].(size := size)], c1, c2)
                          == if IsKey(o[i], c1, c2) then size else SizeOf(o, c1, c2)
  {
    forall c1, c2 { SizeOfUpdate(o, i, size, c1, c2); }
  }

  lemma AppendedSizes(o: seq<Entry>, e: Entry)
    requires Distinct(o) && 0 < e.size && forall i :: 0 <= i < |o| ==> !IsKey(o[i], e.p1, e.p2)
    ensures Distinct(o + [e])
    ensures forall c1, c2 :: SizeOf(o + [e], c1, c2) == if IsKey(e, c1, c2) then e.size else SizeOf(o, c1, c2)
  {
    forall c1, c2 { SizeOfAppend(o, e, c1, c2); }
  }

  /** Distinct keys stay distinct, and only the size of the pair's own attributes grows, by exactly the
      length of the intersection. */
  lemma AccumulatedSizes(o: seq<Entry>, p1: Line, p2: Line)
    requires Distinct(o) && Fits(p1) && Fits(p2)
    requires SizeOf(o, p1.attr, p2.attr) + Inter(p1, p2) < ADDRESSES
    ensures Distinct(Accumulated(o, p1, p2))
    ensures forall c1, c2 :: SizeOf(Accumulated(o, p1, p2), c1, c2) == SizeOf(o, c1, c2) + Weight(p1, p2, c1, c2)
  {
    var i := Find(o, p1.attr, p2.attr);
    if Inter(p1, p2) == 0 {
      assert Accumulated(o, p1, p2) == o;
    } else if i < |o| {
      SizeOfAt(o, i);
      var size := o[i].size + Inter(p1, p2);
      assert Accumulated(o, p1, p2) == o[i := o[i].(size := size)];
      UpdatedSizes(o, i, size);
    } else {
      SizeOfMissing(o, p1.attr, p2.attr);
      var e := Entry(p1.attr, p2.attr, Inter(p1, p2));
      assert Accumulated(o, p1, p2) == o + [e];
      AppendedSizes(o, e);
    }
  }

  class Overlaps {
    var overlap: seq<Entry>

    constructor ()
      ensures overlap == []
    {
      overlap := [];
    }

    /** `shmem_map::compare_and_add`. */
    method CompareAndAdd(p1: Line, p2: Line)
      modifies this
      ensures overlap == Accumulated(old(overlap), p1, p2)
    {
      var ostart := Max(p1.addr, p2.addr);
      var oend := Min(Add(p1.addr, p1.len), Add(p2.addr, p2.len));
      if ostart >= oend { return; }
      var olength: Word := oend - ostart;
      var i := 0;
      while i < |overlap|
        invariant i <= |overlap| && overlap == old(overlap)
        invariant forall j :: 0 <= j < i ==> !IsKey(overlap[j], p1.attr, p2.attr)
      {
        if IsKey(overlap[i], p1.attr, p2.attr) {
          overlap := overlap[i := overlap[i].(size := Add(overlap[i].size, olength))];
          return;
        }
        i := i + 1;
      }
      overlap := overlap + [Entry(p1.attr, p2.attr, olength)];
    }
  }

  // ----- what the sweep may skip

  lemma {:induction false} RowAfter(x: Line, m2: seq<Line>, c1: Attr, c2: Attr)
    requires forall j :: 0 <= j < |m2| ==> End(x) <= m2[j].addr
    ensures RowSum(x, m2, c1, c2) == 0
  {
    if m2 != [] { RowAfter(x, m2[1..], c1, c2); }
  }

  lemma {:induction false} ColumnAfter(m1: seq<Line>, m2: seq<Line>, c1: Attr, c2: Attr)
    requires m2 != [] && forall i :: 0 <= i < |m1| ==> End(m2[0]) <= m1[i].addr
    ensures AllPairs(m1, m2, c1, c2) == AllPairs(m1, m2[1..], c1, c2)
  {
    if m1 != [] { ColumnAfter(m1[1..], m2, c1, c2); }
  }

  /** One iteration: after the pair of first lines, the line that ends first has no more overlaps. */
  lemma SweepStep(m1: seq<Line>, m2: seq<Line>, c1: Attr, c2: Attr)
    requires Sorted(m1) && Sorted(m2) && m1 != [] && m2 != []
    ensures var rest1 := if End(m1[0]) <= End(m2[0]) then m1[1..] else m1;
            var rest2 := if End(m2[0]) <= End(m1[0]) then m2[1..] else m2;
            AllPairs(m1, m2, c1, c2) == Weight(m1[0], m2[0], c1, c2) + AllPairs(rest1, rest2, c1, c2)
  {
    if End(m1[0]) <= End(m2[0]) {
      RowAfter(m1[0], m2[1..], c1, c2);
    }
    if End(m2[0]) <= End(m1[0]) {
      ColumnAfter(m1[1..], m2, c1, c2);
    }
  }

  // ----- what the sum counts

  /** The addresses that both lists map, with these attributes. */
  ghost function Shared(m1: seq<Line>, m2: seq<Line>, c1: Attr, c2: Attr): set<nat>
  {
    set a: nat | a < ADDRESSES && Covers(m1, a, c1) && Covers(m2, a, c2)
  }

  function Interval(lo: nat, hi: nat): set<nat>
  {
    set a: nat | a < hi && From(lo, a)
  }

  predicate From(lo: nat, a: nat) { lo <= a }

  lemma {:induction false} IntervalSize(lo: nat, hi: nat)
    ensures |Interval(lo, hi)| == Max(0, hi - lo)
    decreases hi
  {
    if lo < hi {
      IntervalSize(lo, hi - 1);
      assert Interval(lo, hi) == Interval(lo, hi - 1) + {hi - 1};
    } else {
      assert Interval(lo, hi) == {};
    }
  }

  /** The addresses that two lines share. */
  ghost function SharedByLines(x: Line, y: Line, c1: Attr, c2: Attr): set<nat>
  {
    set a: nat | a < ADDRESSES && Has(x, a, c1) && Has(y, a, c2)
  }

  lemma WeightCounts(x: Line, y: Line, c1: Attr, c2: Attr)
    requires Fits(x) && Fits(y)
    ensures Weight(x, y, c1, c2) == |SharedByLines(x, y, c1, c2)|
  {
    var lo, hi := Max(x.addr, y.addr), Min(End(x), End(y));
    IntervalSize(lo, hi);
    if x.attr == c1 && y.attr == c2 {
      assert SharedByLines(x, y, c1, c2) == Interval(lo, hi);
    } else {
      assert SharedByLines(x, y, c1, c2) == {};
    }
  }

  ghost function SharedByLine(x: Line, m2: seq<Line>, c1: Attr, c2: Attr): set<nat>
  {
    set a: nat | a < ADDRESSES && Has(x, a, c1) && Covers(m2, a, c2)
  }

  lemma CoversFirst(m: seq<Line>, a: nat, attr: Attr)
    requires m != []
    ensures Covers(m, a, attr) <==> Has(m[0], a, attr) || Covers(m[1..], a, attr)
    ensures Sorted(m) && Has(m[0], a, attr) ==> forall c :: !Covers(m[1..], a, c)
  {
    if i :| 0 <= i < |m| && Has(m[i], a, attr) {
      if 0 < i { assert m[1..][i - 1] == m[i]; }
    }
    if i :| 0 <= i < |m[1..]| && Has(m[1..][i], a, attr) { assert m[i + 1] == m[1..][i]; }
  }

  lemma {:induction false} RowCounts(x: Line, m2: seq<Line>, c1: Attr, c2: Attr)
    requires Fits(x) && Sorted(m2)
    ensures RowSum(x, m2, c1, c2) == |SharedByLine(x, m2, c1, c2)|
  {
    if m2 == [] {
      assert SharedByLine(x, m2, c1, c2) == {};
    } else {
      var y, rest := m2[0], m2[1..];
      RowCounts(x, rest, c1, c2);
      WeightCounts(x, y, c1, c2);
      forall a: nat { CoversFirst(m2, a, c2); }
      var first, others := SharedByLines(x, y, c1, c2), SharedByLine(x, rest, c1, c2);
      assert SharedByLine(x, m2, c1, c2) == first + others;
      assert first !! others;
    }
  }

  /** The sum over all pairs of lines is the number of addresses that both lists map with these attributes. */
  lemma {:induction false} AllPairsCount(m1: seq<Line>, m2: seq<Line>, c1: Attr, c2: Attr)
    requires Sorted(m1) && Sorted(m2)
    ensures AllPairs(m1, m2, c1, c2) == |Shared(m1, m2, c1, c2)|
  {
    if m1 == [] {
      assert Shared(m1, m2, c1, c2) == {};
    } else {
      var x, rest := m1[0], m1[1..];
      AllPairsCount(rest, m2, c1, c2);
      RowCounts(x, m2, c1, c2);
      forall a: nat { CoversFirst(m1, a, c1); }
      var first, others := SharedByLine(x, m2, c1, c2), Shared(rest, m2, c1, c2);
      assert Shared(m1, m2, c1, c2) == first + others;
      assert first !! others;
    }
  }

  /** The size for each pair of attributes is the number of addresses that both lists map with them. */
  ghost predicate SizesAreShared(o: seq<Entry>, m1: seq<Line>, m2: seq<Line>)
  {
    forall c1, c2 :: SizeOf(o, c1, c2) == |Shared(m1, m2, c1, c2)|
  }

  lemma SumsAreShared(o: seq<Entry>, m1: seq<Line>, m2: seq<Line>)
    requires Sorted(m1) && Sorted(m2)
    requires forall c1, c2 :: SizeOf(o, c1, c2) == AllPairs(m1, m2, c1, c2)
    ensures SizesAreShared(o, m1, m2)
  {
    forall c1, c2 { AllPairsCount(m1, m2, c1, c2); }
  }

  // ----- no sum wraps

  lemma {:induction false} RowBound(x: Line, m2: seq<Line>, from: nat, c1: Attr, c2: Attr)
    requires Sorted(m2) && forall j :: 0 <= j < |m2| ==> from <= m2[j].addr
    ensures RowSum(x, m2, c1, c2) <= Max(0, End(x) - Max(from, x.addr))
  {
    if m2 != [] { RowBound(x, m2[1..], End(m2[0]), c1, c2); }
  }

  lemma {:induction false} AllPairsBound(m1: seq<Line>, m2: seq<Line>, from: nat, c1: Attr, c2: Attr)
    requires Sorted(m1) && Sorted(m2) && from < ADDRESSES
    requires forall i :: 0 <= i < |m1| ==> from <= m1[i].addr
    ensures from + AllPairs(m1, m2, c1, c2) < ADDRESSES
  {
    if m1 != [] {
      RowBound(m1[0], m2, 0, c1, c2);
      AllPairsBound(m1[1..], m2, End(m1[0]), c1, c2);
    }
  }

  lemma TailIsSorted(m: seq<Line>, i: nat)
    requires Sorted(m) && i <= |m|
    ensures Sorted(m[i..])
  {
  }

  /** The loop of `print_shmem`: one entry for each pair of attributes that overlap, with the sum of all
      intersections of lines with these attributes. */
  method Sweep(m1: seq<Line>, m2: seq<Line>) returns (result: Overlaps)
    requires Sorted(m1) && Sorted(m2)
    ensures Distinct(result.overlap)
    ensures forall c1, c2 :: SizeOf(result.overlap, c1, c2) == AllPairs(m1, m2, c1, c2)
    ensures SizesAreShared(result.overlap, m1, m2)
  {
    result := new Overlaps();
    var i1, i2 := 0, 0;
    while i1 < |m1| && i2 < |m2|
      invariant i1 <= |m1| && i2 <= |m2| && fresh(result)
      invariant Distinct(result.overlap)
      invariant forall c1, c2 ::
        SizeOf(result.overlap, c1, c2) + AllPairs(m1[i1..], m2[i2..], c1, c2) == AllPairs(m1, m2, c1, c2)
      decreases |m1| - i1 + |m2| - i2
    {
      var x, y := m1[i1], m2[i2];
      ghost var t1, t2 := m1[i1..], m2[i2..];
      TailIsSorted(m1, i1);
      TailIsSorted(m2, i2);
      AllPairsBound(m1, m2, 0, x.attr, y.attr);
      forall c1, c2 { SweepStep(t1, t2, c1, c2); }
      assert t1[1..] == m1[i1 + 1..] && t2[1..] == m2[i2 + 1..];
      AccumulatedSizes(result.overlap, x, y);
      result.CompareAndAdd(x, y);
      if Add(x.addr, x.len) < Add(y.addr, y.len) {
        i1 := i1 + 1;
      } else if Add(x.addr, x.len) > Add(y.addr, y.len) {
        i2 := i2 + 1;
      } else {
        i1 := i1 + 1;
        i2 := i2 + 1;
      }
    }
    forall c1, c2 { NothingLeft(m1[i1..], m2[i2..], c1, c2); }
    SumsAreShared(result.overlap, m1, m2);
  }

  lemma {:induction false} NothingLeft(m1: seq<Line>, m2: seq<Line>, c1: Attr, c2: Attr)
    requires m1 == [] || m2 == []
    ensures AllPairs(m1, m2, c1, c2) == 0
  {
    if m1 != [] { NothingLeft(m1[1..], m2, c1, c2); }
  }

  /** With distinct keys and positive sizes, the entries are exactly the pairs that overlap. */
  lemma {:induction false} EntryIffOverlap(o: seq<Entry>, c1: Attr, c2: Attr)
    requires Distinct(o)
    ensures (exists i :: 0 <= i < |o| && IsKey(o[i], c1, c2)) <==> 0 < SizeOf(o, c1, c2)
  {
    if i :| 0 <= i < |o| && IsKey(o[i], c1, c2) {
      SizeOfAt(o, i);
    } else {
      SizeOfMissing(o, c1, c2);
    }
  }
}
