/** The map of shared physical memory of one process (`pid_mapping.cpp`): a list of labelled address
    intervals that `insert` keeps sorted and merged. */
module PidMapping {
  import opened Wrappers

  /** `std::uintptr_t` and `std::size_t` have 64 bits. */
  const ADDRESSES: nat := 0x1_0000_0000_0000_0000

  /** What two lines must agree on to be merged. */
  datatype Attr = Attr(flags: int, prot: int, dev: nat, ino: nat, object: string)

  type Word = x: nat | x < ADDRESSES

  datatype Line = Line(addr: Word, len: Word, attr: Attr)

  function Add(x: Word, y: Word): Word { if x + y < ADDRESSES then x + y else x + y - ADDRESSES }

  function Sub(x: Word, y: Word): Word { if y <= x then x - y else x + ADDRESSES - y }

  /** The address after the last one, without wrap-around. */
  function End(l: Line): nat { l.addr + l.len }

  /** A line that is not empty and ends inside the address space. */
  predicate Fits(l: Line)
  {
    0 < l.len && End(l) < ADDRESSES
  }

  /** `merge_mapline(line, other)`: the new value of `line`, if the two lines merge. */
  function Merge(line: Line, other: Line): Option<Line>
  {
    if Add(line.addr, line.len) == other.addr && line.attr == other.attr then
      Some(line.(len := Add(line.len, other.len)))
    else if Add(other.addr, other.len) == line.addr && other.attr == line.attr then
      Some(line.(addr := Sub(line.addr, other.len), len := Add(line.len, other.len)))
    else None
  }

  /** The first entry at or after an address. */
  function FirstFrom(m: seq<Line>, addr: Word): (k: nat)
    ensures k <= |m|
    ensures forall i :: 0 <= i < k ==> m[i].addr < addr
    ensures k < |m| ==> addr <= m[k].addr
  {
    if m == [] || addr <= m[0].addr then 0 else 1 + FirstFrom(m[1..], addr)
  }

  /** The list after `insert`. */
  function Inserted(m: seq<Line>, line: Line): seq<Line>
  {
    var k := FirstFrom(m, line.addr);
    if k < |m| && m[k].addr == line.addr then m
    else if k < |m| && Merge(m[k], line).Some? then
      var entry := Merge(m[k], line).value;
      if 0 < k && Merge(entry, m[k - 1]).Some? then
        m[..k - 1] + [Merge(entry, m[k - 1]).value] + m[k + 1..]
      else m[k := entry]
    else if 0 < k && Merge(m[k - 1], line).Some? then
      m[k - 1 := Merge(m[k - 1], line).value]
    else m[..k] + [line] + m[k..]
  }

  class PidMap {
    var lines: seq<Line>

    constructor ()
      ensures lines == []
    {
      lines := [];
    }

    /** Lines 122 to 140: the line goes before entry `it`, or into it, or into the one before. */
    method InsertBefore(it: nat, line: Line)
      requires it == FirstFrom(lines, line.addr) < |lines| && line.addr < lines[it].addr
      modifies this
      ensures lines == Inserted(old(lines), line)
    {
      var merged := Merge(lines[it], line);
      if merged.Some? {
        lines := lines[it := merged.value];
        if 0 < it {
          var both := Merge(lines[it], lines[it - 1]);
          if both.Some? {
            lines := lines[it := both.value];
            lines := lines[..it - 1] + lines[it..];
            assert lines == old(lines)[..it - 1] + [both.value] + old(lines)[it + 1..];
          }
        }
      } else {
        if 0 < it {
          var prev := Merge(lines[it - 1], line);
          if prev.Some? {
            lines := lines[it - 1 := prev.value];
            return;
          }
        }
        lines := lines[..it] + [line] + lines[it..];
      }
    }

    /** The walk of `pid_mapping::insert` over the list. */
    method Insert(line: Line)
      modifies this
      ensures lines == Inserted(old(lines), line)
    {
      var it := 0;
      while it < |lines|
        invariant it <= |lines| && lines == old(lines)
        invariant forall i :: 0 <= i < it ==> lines[i].addr < line.addr
      {
        if line.addr == lines[it].addr {
          FirstFromIs(lines, line.addr, it);
          return;
        }
        if line.addr < lines[it].addr {
          FirstFromIs(lines, line.addr, it);
          InsertBefore(it, line);
          return;
        }
        it := it + 1;
      }
      FirstFromIs(lines, line.addr, |lines|);
      if lines != [] {
        var prev := Merge(lines[|lines| - 1], line);
        if prev.Some? {
          lines := lines[|lines| - 1 := prev.value];
          return;
        }
      }
      lines := lines + [line];
    }
  }

  lemma FirstFromIs(m: seq<Line>, addr: Word, k: nat)
    requires k <= |m|
    requires forall i :: 0 <= i < k ==> m[i].addr < addr
    requires k < |m| ==> addr <= m[k].addr
    ensures FirstFrom(m, addr) == k
  {
  }

  // ----- canonical lists

  ghost predicate Sorted(m: seq<Line>)
  {
    && (forall i :: 0 <= i < |m| ==> Fits(m[i]))
    && (forall i, j :: 0 <= i < j < |m| ==> End(m[i]) <= m[j].addr)
  }

  /** Sorted, disjoint, and no two neighbours can be merged. */
  ghost predicate Canonical(m: seq<Line>)
  {
    && Sorted(m)
    && (forall i :: 0 <= i < |m| - 1 ==> !(End(m[i]) == m[i + 1].addr && m[i].attr == m[i + 1].attr))
  }

  predicate Has(l: Line, a: nat, attr: Attr)
  {
    l.addr <= a < End(l) && l.attr == attr
  }

  /** The list maps address a with the given attributes. */
  ghost predicate Covers(m: seq<Line>, a: nat, attr: Attr)
  {
    exists i :: 0 <= i < |m| && Has(m[i], a, attr)
  }

  predicate Disjoint(l1: Line, l2: Line)
  {
    End(l1) <= l2.addr || End(l2) <= l1.addr
  }

  /** Replacing the entries lo..hi of a list by one line that spans the same addresses. */
  lemma SplicedCovers(m: seq<Line>, lo: nat, hi: nat, l: Line, m': seq<Line>, line: Line)
    requires lo <= hi <= |m| && m' == m[..lo] + [l] + m[hi..]
    requires forall a, attr :: Has(l, a, attr) <==>
               Has(line, a, attr) || exists i :: lo <= i < hi && Has(m[i], a, attr)
    ensures forall a, attr :: Covers(m', a, attr) <==> Covers(m, a, attr) || Has(line, a, attr)
  {
    forall a, attr ensures Covers(m', a, attr) <==> Covers(m, a, attr) || Has(line, a, attr) {
      if i :| 0 <= i < |m'| && Has(m'[i], a, attr) {
        if i > lo { assert m'[i] == m[i - lo - 1 + hi]; }
      }
      if i :| 0 <= i < |m| && Has(m[i], a, attr) {
        if i < lo { assert m'[i] == m[i]; }
        else if i >= hi { assert m'[i - hi + lo + 1] == m[i]; }
        else { assert m'[lo] == l; }
      }
      if Has(line, a, attr) { assert m'[lo] == l; }
    }
  }

  lemma SplicedSorted(m: seq<Line>, lo: nat, hi: nat, l: Line, m': seq<Line>)
    requires lo <= hi <= |m| && m' == m[..lo] + [l] + m[hi..]
    requires Sorted(m) && Fits(l)
    requires forall i :: 0 <= i < lo ==> End(m[i]) <= l.addr
    requires forall i :: hi <= i < |m| ==> End(l) <= m[i].addr
    ensures Sorted(m')
  {
    forall i | 0 <= i < |m'| ensures Fits(m'[i]) {
      if i > lo { assert m'[i] == m[i - lo - 1 + hi]; }
    }
    forall i, j | 0 <= i < j < |m'| ensures End(m'[i]) <= m'[j].addr {
      if i > lo { assert m'[i] == m[i - lo - 1 + hi]; }
      if j > lo { assert m'[j] == m[j - lo - 1 + hi]; }
    }
  }

  /** l spans exactly `line` and the entries lo..hi of m, which all have its attributes, and merges
      with none of the entries around them. */
  ghost predicate IsSplice(m: seq<Line>, line: Line, lo: nat, hi: nat, l: Line)
  {
    && lo <= hi <= |m| && hi <= lo + 2
    && Fits(l) && l.attr == line.attr
    && (forall i :: 0 <= i < lo ==> End(m[i]) <= l.addr)
    && (forall i :: hi <= i < |m| ==> End(l) <= m[i].addr)
    && (0 < lo && m[lo - 1].attr == l.attr ==> End(m[lo - 1]) < l.addr)
    && (hi < |m| && m[hi].attr == l.attr ==> End(l) < m[hi].addr)
    && (if hi == lo then l == line
        else if hi == lo + 1 then Joined(l, line, m[lo]) || Joined(l, m[lo], line)
        else exists l1 :: Joined(l1, line, m[lo + 1]) && Joined(l, m[lo], l1))
  }

  /** l is x directly followed by y, with the same attributes. */
  predicate Joined(l: Line, x: Line, y: Line)
  {
    && x.attr == y.attr == l.attr
    && End(x) == y.addr && l.addr == x.addr && l.len == x.len + y.len
  }

  ghost predicate CanInsert(m: seq<Line>, line: Line)
  {
    Canonical(m) && Fits(line) && forall i :: 0 <= i < |m| ==> Disjoint(m[i], line)
  }

  lemma Neighbours(m: seq<Line>, line: Line, k: nat)
    requires CanInsert(m, line) && k == FirstFrom(m, line.addr)
    ensures forall i :: 0 <= i < k ==> End(m[i]) <= line.addr
    ensures forall i :: k <= i < |m| ==> End(line) <= m[i].addr
  {
  }

  lemma MergeAfter(line: Line, next: Line)
    requires Fits(line) && Fits(next) && End(line) <= next.addr
    ensures Merge(next, line).Some? <==> line.attr == next.attr && End(line) == next.addr
    ensures Merge(next, line).Some? ==> Joined(Merge(next, line).value, line, next)
    ensures Merge(line, next).Some? <==> line.attr == next.attr && End(line) == next.addr
    ensures Merge(line, next).Some? ==> Joined(Merge(line, next).value, line, next)
  {
  }

  /** The new line closes the gap between two entries of its own kind. */
  lemma InsertInGap(m: seq<Line>, line: Line, k: nat, l1: Line, l: Line)
    requires CanInsert(m, line) && 0 < k == FirstFrom(m, line.addr) < |m|
    requires Merge(m[k], line) == Some(l1) && Merge(l1, m[k - 1]) == Some(l)
    ensures IsSplice(m, line, k - 1, k + 1, l)
  {
    Neighbours(m, line, k);
    MergeAfter(line, m[k]);
    MergeAfter(m[k - 1], l1);
    assert Joined(l1, line, m[k]) && Joined(l, m[k - 1], l1);
  }

  lemma InsertBeforeNext(m: seq<Line>, line: Line, k: nat, l: Line)
    requires CanInsert(m, line) && k == FirstFrom(m, line.addr) < |m|
    requires Merge(m[k], line) == Some(l) && (0 < k ==> Merge(l, m[k - 1]).None?)
    ensures IsSplice(m, line, k, k + 1, l)
  {
    Neighbours(m, line, k);
    MergeAfter(line, m[k]);
    if 0 < k { MergeAfter(m[k - 1], l); }
  }

  lemma InsertWithNext(m: seq<Line>, line: Line, k: nat) returns (lo: nat, l: Line)
    requires CanInsert(m, line) && k == FirstFrom(m, line.addr) < |m| && Merge(m[k], line).Some?
    ensures IsSplice(m, line, lo, k + 1, l)
    ensures Inserted(m, line) == m[..lo] + [l] + m[k + 1..]
  {
    var l1 := Merge(m[k], line).value;
    assert m[k].addr != line.addr;
    if 0 < k && Merge(l1, m[k - 1]).Some? {
      lo, l := k - 1, Merge(l1, m[k - 1]).value;
      InsertInGap(m, line, k, l1, l);
    } else {
      lo, l := k, l1;
      InsertBeforeNext(m, line, k, l);
      ReplaceOne(m, k, l1);
    }
  }

  lemma InsertWithPrevious(m: seq<Line>, line: Line, k: nat) returns (lo: nat, l: Line)
    requires CanInsert(m, line) && k == FirstFrom(m, line.addr)
    requires k < |m| ==> Merge(m[k], line).None?
    requires 0 < k && Merge(m[k - 1], line).Some?
    ensures IsSplice(m, line, lo, k, l)
    ensures Inserted(m, line) == m[..lo] + [l] + m[k..]
  {
    lo := k - 1;
    Neighbours(m, line, k);
    MergeAfter(m[lo], line);
    l := Merge(m[lo], line).value;
    if k < |m| { MergeAfter(line, m[k]); }
    ReplaceOne(m, lo, l);
  }

  lemma ReplaceOne(m: seq<Line>, i: nat, l: Line)
    requires i < |m|
    ensures m[i := l] == m[..i] + [l] + m[i + 1..]
  {
  }

  lemma InsertAlone(m: seq<Line>, line: Line, k: nat)
    requires CanInsert(m, line) && k == FirstFrom(m, line.addr)
    requires k < |m| ==> Merge(m[k], line).None?
    requires 0 < k ==> Merge(m[k - 1], line).None?
    ensures IsSplice(m, line, k, k, line)
    ensures Inserted(m, line) == m[..k] + [line] + m[k..]
  {
    Neighbours(m, line, k);
    if k < |m| { MergeAfter(line, m[k]); }
    if 0 < k { MergeAfter(m[k - 1], line); }
  }

  /** `insert` replaces the entries lo..hi by one line that spans them and the new line. */
  lemma InsertedSplice(m: seq<Line>, line: Line) returns (lo: nat, hi: nat, l: Line)
    requires CanInsert(m, line)
    ensures IsSplice(m, line, lo, hi, l)
    ensures Inserted(m, line) == m[..lo] + [l] + m[hi..]
  {
    var k := FirstFrom(m, line.addr);
    lo, hi, l := k, k, line;
    if k < |m| && Merge(m[k], line).Some? {
      hi := k + 1;
      lo, l := InsertWithNext(m, line, k);
    } else if 0 < k && Merge(m[k - 1], line).Some? {
      lo, l := InsertWithPrevious(m, line, k);
    } else {
      InsertAlone(m, line, k);
    }
  }

  lemma SpliceSpans(m: seq<Line>, line: Line, lo: nat, hi: nat, l: Line)
    requires IsSplice(m, line, lo, hi, l)
    ensures forall a, attr :: Has(l, a, attr) <==>
              Has(line, a, attr) || exists i :: lo <= i < hi && Has(m[i], a, attr)
  {
    forall a, attr
      ensures Has(l, a, attr) <==> Has(line, a, attr) || exists i :: lo <= i < hi && Has(m[i], a, attr)
    {
      if lo < hi {
        assert Has(l, a, attr) ==> Has(line, a, attr) || Has(m[lo], a, attr) || Has(m[hi - 1], a, attr);
        assert Has(m[lo], a, attr) || Has(m[hi - 1], a, attr) ==> Has(l, a, attr);
      }
    }
  }

  lemma SplicedCanonical(m: seq<Line>, lo: nat, hi: nat, l: Line, m': seq<Line>)
    requires lo <= hi <= |m| && m' == m[..lo] + [l] + m[hi..]
    requires Canonical(m) && Sorted(m')
    requires 0 < lo && m[lo - 1].attr == l.attr ==> End(m[lo - 1]) < l.addr
    requires hi < |m| && m[hi].attr == l.attr ==> End(l) < m[hi].addr
    ensures Canonical(m')
  {
    forall i | 0 <= i < |m'| - 1 ensures !(End(m'[i]) == m'[i + 1].addr && m'[i].attr == m'[i + 1].attr) {
      if i < lo {
        assert m'[i] == m[i];
        if i + 1 < lo { assert m'[i + 1] == m[i + 1]; } else { assert m'[i + 1] == l; }
      } else {
        var j := i - lo + hi;
        assert m'[i + 1] == m[j];
        if lo < i { assert m'[i] == m[j - 1]; } else { assert m'[i] == l && j == hi; }
      }
    }
  }

  /** Inserting a line disjoint from the list keeps the list canonical and adds exactly its addresses. */
  lemma InsertedIsCanonical(m: seq<Line>, line: Line)
    requires CanInsert(m, line)
    ensures Canonical(Inserted(m, line))
    ensures forall a, attr :: Covers(Inserted(m, line), a, attr) <==> Covers(m, a, attr) || Has(line, a, attr)
  {
    var lo, hi, l := InsertedSplice(m, line);
    SplicedSorted(m, lo, hi, l, Inserted(m, line));
    SplicedCanonical(m, lo, hi, l, Inserted(m, line));
    SpliceSpans(m, line, lo, hi, l);
    SplicedCovers(m, lo, hi, l, Inserted(m, line), line);
  }

  // ----- a canonical list is determined by what it covers

  lemma TailOfCanonical(m: seq<Line>)
    requires Canonical(m) && m != []
    ensures Canonical(m[1..])
    ensures forall a, attr :: Covers(m[1..], a, attr) <==> Covers(m, a, attr) && End(m[0]) <= a
  {
    var t := m[1..];
    assert forall i :: 0 <= i < |t| ==> t[i] == m[i + 1];
    forall a, attr ensures Covers(t, a, attr) <==> Covers(m, a, attr) && End(m[0]) <= a {
      if i :| 0 <= i < |t| && Has(t[i], a, attr) {
        assert Has(m[i + 1], a, attr) && End(m[0]) <= m[i + 1].addr;
      }
      if End(m[0]) <= a {
        if i :| 0 <= i < |m| && Has(m[i], a, attr) {
          assert i != 0 && t[i - 1] == m[i];
        }
      }
    }
  }

  ghost predicate SameCover(m1: seq<Line>, m2: seq<Line>)
  {
    forall a, attr :: Covers(m1, a, attr) <==> Covers(m2, a, attr)
  }

  lemma FirstStartsFirst(m1: seq<Line>, m2: seq<Line>)
    requires Canonical(m1) && Canonical(m2) && SameCover(m1, m2) && m1 != []
    ensures m2 != [] && m2[0].addr <= m1[0].addr
    ensures m2[0].addr == m1[0].addr ==> m2[0].attr == m1[0].attr
  {
    var a, attr := m1[0].addr, m1[0].attr;
    assert Has(m1[0], a, attr);
    assert Covers(m2, a, attr);
    var j :| 0 <= j < |m2| && Has(m2[j], a, attr);
    if j > 0 { assert m2[0].addr < End(m2[0]) <= m2[j].addr; }
  }

  lemma FirstEndIsOpen(m: seq<Line>)
    requires Canonical(m) && m != []
    ensures !Covers(m, End(m[0]), m[0].attr)
  {
    forall j | 1 <= j < |m| ensures !Has(m[j], End(m[0]), m[0].attr) {
      assert m[1].addr < End(m[1]);
    }
  }

  lemma FirstEndsFirst(m1: seq<Line>, m2: seq<Line>)
    requires Canonical(m1) && Canonical(m2) && SameCover(m1, m2) && m1 != [] && m2 != []
    requires m1[0].addr == m2[0].addr && m1[0].attr == m2[0].attr
    ensures End(m2[0]) <= End(m1[0])
  {
    FirstEndIsOpen(m1);
    assert !Covers(m2, End(m1[0]), m1[0].attr);
    assert !Has(m2[0], End(m1[0]), m1[0].attr);
  }

  lemma {:induction false} CanonicalIsUnique(m1: seq<Line>, m2: seq<Line>)
    requires Canonical(m1) && Canonical(m2) && SameCover(m1, m2)
    ensures m1 == m2
  {
    if m1 == [] || m2 == [] {
      if m1 != [] { FirstStartsFirst(m1, m2); }
      if m2 != [] { FirstStartsFirst(m2, m1); }
    } else {
      FirstStartsFirst(m1, m2);
      FirstStartsFirst(m2, m1);
      FirstEndsFirst(m1, m2);
      FirstEndsFirst(m2, m1);
      assert m1[0] == m2[0];
      TailOfCanonical(m1);
      TailOfCanonical(m2);
      CanonicalIsUnique(m1[1..], m2[1..]);
      assert m1 == [m1[0]] + m1[1..] && m2 == [m2[0]] + m2[1..];
    }
  }

  // ----- whole sequences of inserts

  function InsertAll(lines: seq<Line>): seq<Line>
  {
    if lines == [] then [] else Inserted(InsertAll(lines[..|lines| - 1]), lines[|lines| - 1])
  }

  ghost predicate PairwiseDisjoint(lines: seq<Line>)
  {
    && (forall i :: 0 <= i < |lines| ==> Fits(lines[i]))
    && (forall i, j :: 0 <= i < j < |lines| ==> Disjoint(lines[i], lines[j]))
  }

  /** Lines that share no address with what a list covers are disjoint from its entries. */
  lemma DisjointFromCover(m: seq<Line>, lines: seq<Line>, line: Line, i: nat)
    requires Canonical(m) && Fits(line) && i < |m|
    requires forall a, attr :: Covers(m, a, attr) <==> Covers(lines, a, attr)
    requires forall k :: 0 <= k < |lines| ==> Disjoint(lines[k], line)
    ensures Disjoint(m[i], line)
  {
    if !Disjoint(m[i], line) {
      var a := if m[i].addr < line.addr then line.addr else m[i].addr;
      assert Has(m[i], a, m[i].attr);
      assert Covers(lines, a, m[i].attr);
    }
  }

  lemma CoversNext(lines: seq<Line>)
    requires lines != []
    ensures forall a, attr :: Covers(lines, a, attr) <==>
              Covers(lines[..|lines| - 1], a, attr) || Has(lines[|lines| - 1], a, attr)
  {
    var init, line := lines[..|lines| - 1], lines[|lines| - 1];
    forall a, attr ensures Covers(lines, a, attr) <==> Covers(init, a, attr) || Has(line, a, attr) {
      if i :| 0 <= i < |init| && Has(init[i], a, attr) { assert lines[i] == init[i]; }
      if i :| 0 <= i < |lines| && Has(lines[i], a, attr) {
        if i < |init| { assert init[i] == lines[i]; }
      }
    }
  }

  /** The list covers exactly the inserted labelled addresses, in canonical form. */
  lemma {:induction false} InsertAllIsCanonical(lines: seq<Line>)
    requires PairwiseDisjoint(lines)
    ensures Canonical(InsertAll(lines))
    ensures SameCover(InsertAll(lines), lines)
    decreases |lines|, 1
  {
    if lines != [] {
      CanInsertNext(lines);
      InsertAllIsCanonical(lines[..|lines| - 1]);
      InsertedIsCanonical(InsertAll(lines[..|lines| - 1]), lines[|lines| - 1]);
      CoversNext(lines);
    }
  }

  lemma {:induction false} CanInsertNext(lines: seq<Line>)
    requires PairwiseDisjoint(lines) && lines != []
    ensures CanInsert(InsertAll(lines[..|lines| - 1]), lines[|lines| - 1])
    decreases |lines|, 0
  {
    var init, line := lines[..|lines| - 1], lines[|lines| - 1];
    var m := InsertAll(init);
    InsertAllIsCanonical(init);
    forall i | 0 <= i < |m| ensures Disjoint(m[i], line) {
      DisjointFromCover(m, init, line, i);
    }
  }

  /** The order in which disjoint lines are inserted does not matter. */
  lemma InsertOrderIsIrrelevant(xs: seq<Line>, ys: seq<Line>)
    requires PairwiseDisjoint(xs) && PairwiseDisjoint(ys)
    requires forall l :: l in xs <==> l in ys
    ensures InsertAll(xs) == InsertAll(ys)
  {
    InsertAllIsCanonical(xs);
    InsertAllIsCanonical(ys);
    forall a, attr ensures Covers(xs, a, attr) <==> Covers(ys, a, attr) {
      if i :| 0 <= i < |xs| && Has(xs[i], a, attr) {
        assert xs[i] in ys;
        var j :| 0 <= j < |ys| && ys[j] == xs[i];
      }
      if i :| 0 <= i < |ys| && Has(ys[i], a, attr) {
        assert ys[i] in xs;
        var j :| 0 <= j < |xs| && xs[j] == ys[i];
      }
    }
    CanonicalIsUnique(InsertAll(xs), InsertAll(ys));
  }

  // ----- lengths

  function TotalLen(m: seq<Line>): nat
  {
    if m == [] then 0 else m[0].len + TotalLen(m[1..])
  }

  lemma {:induction false} TotalLenConcat(m1: seq<Line>, m2: seq<Line>)
    ensures TotalLen(m1 + m2) == TotalLen(m1) + TotalLen(m2)
  {
    if m1 == [] {
      assert m1 + m2 == m2;
    } else {
      assert (m1 + m2)[1..] == m1[1..] + m2;
      TotalLenConcat(m1[1..], m2);
    }
  }

  lemma TotalLenConcat3(m1: seq<Line>, m2: seq<Line>, m3: seq<Line>)
    ensures TotalLen(m1 + m2 + m3) == TotalLen(m1) + TotalLen(m2) + TotalLen(m3)
  {
    TotalLenConcat(m1 + m2, m3);
    TotalLenConcat(m1, m2);
  }

  lemma SpliceLen(m: seq<Line>, line: Line, lo: nat, hi: nat, l: Line)
    requires IsSplice(m, line, lo, hi, l)
    ensures l.len == TotalLen(m[lo..hi]) + line.len
  {
    if hi == lo + 1 {
      assert m[lo..hi] == [m[lo]];
    } else if hi == lo + 2 {
      assert m[lo..hi] == [m[lo], m[lo + 1]];
      assert m[lo..hi][1..] == [m[lo + 1]];
      assert TotalLen([m[lo + 1]]) == m[lo + 1].len;
    }
  }

  lemma SplicedTotalLen(m: seq<Line>, line: Line, lo: nat, hi: nat, l: Line)
    requires IsSplice(m, line, lo, hi, l)
    ensures TotalLen(m[..lo] + [l] + m[hi..]) == TotalLen(m) + line.len
  {
    assert m == m[..lo] + m[lo..hi] + m[hi..];
    TotalLenConcat3(m[..lo], m[lo..hi], m[hi..]);
    TotalLenConcat3(m[..lo], [l], m[hi..]);
    SpliceLen(m, line, lo, hi, l);
  }

  lemma InsertedTotalLen(m: seq<Line>, line: Line)
    requires CanInsert(m, line)
    ensures TotalLen(Inserted(m, line)) == TotalLen(m) + line.len
  {
    var lo, hi, l := InsertedSplice(m, line);
    SplicedTotalLen(m, line, lo, hi, l);
  }

  lemma TotalLenNext(lines: seq<Line>, init: seq<Line>, line: Line)
    requires lines == init + [line]
    ensures TotalLen(lines) == TotalLen(init) + line.len
  {
    TotalLenConcat(init, [line]);
    assert TotalLen([line]) == line.len + TotalLen([]);
  }

  lemma InsertAllNext(lines: seq<Line>, init: seq<Line>, line: Line)
    requires PairwiseDisjoint(lines) && lines == init + [line]
    ensures PairwiseDisjoint(init) && CanInsert(InsertAll(init), line)
    ensures InsertAll(lines) == Inserted(InsertAll(init), line)
  {
    assert lines[..|lines| - 1] == init;
    CanInsertNext(lines);
  }

  lemma NextTotalLen(lines: seq<Line>, init: seq<Line>, line: Line)
    requires PairwiseDisjoint(lines) && lines == init + [line] && TotalLen(InsertAll(init)) == TotalLen(init)
    ensures TotalLen(InsertAll(lines)) == TotalLen(lines)
  {
    InsertAllNext(lines, init, line);
    InsertedTotalLen(InsertAll(init), line);
    TotalLenNext(lines, init, line);
  }

  /** No length is lost or counted twice. */
  lemma {:induction false} InsertAllTotalLen(lines: seq<Line>)
    requires PairwiseDisjoint(lines)
    ensures TotalLen(InsertAll(lines)) == TotalLen(lines)
  {
    if lines != [] {
      var init, line := lines[..|lines| - 1], lines[|lines| - 1];
      InsertAllTotalLen(init);
      NextTotalLen(lines, init, line);
    }
  }

  // ----- duplicates

  /** Inserting a line into a sorted list leaves the list as it is exactly when an entry starts at the
      same address.  A line that repeats a later part of a merged entry is not recognised. */
  lemma DuplicateIffSameStart(m: seq<Line>, line: Line)
    requires Sorted(m) && Fits(line)
    ensures Inserted(m, line) == m <==> exists i :: 0 <= i < |m| && m[i].addr == line.addr
  {
    var k := FirstFrom(m, line.addr);
    if i :| 0 <= i < |m| && m[i].addr == line.addr {
      assert k == i;
    } else {
      var m' := Inserted(m, line);
      if k < |m| && Merge(m[k], line).Some? {
        if |m'| == |m| { assert m'[k].addr == line.addr; }
      } else if 0 < k && Merge(m[k - 1], line).Some? {
        assert m'[k - 1].len != m[k - 1].len;
      } else {
        assert |m'| == |m| + 1;
      }
    }
  }

  /** The list stays canonical and covers what it should. */
  ghost predicate StaysRight(m: seq<Line>, line: Line)
  {
    && Canonical(Inserted(m, line))
    && forall a, attr :: Covers(Inserted(m, line), a, attr) <==> Covers(m, a, attr) || Has(line, a, attr)
  }

  predicate Repeats(e: Line, line: Line)
  {
    e.addr == line.addr && e.attr == line.attr && line.len <= e.len
  }

  lemma OneEntryAt(m: seq<Line>, i: nat, j: nat, a: nat)
    requires Sorted(m) && i < |m| && j < |m| && m[i].addr <= a < End(m[i]) && m[j].addr <= a < End(m[j])
    ensures i == j
  {
  }

  /** An entry that starts where the line does makes it right only if it is as long and of the same kind. */
  lemma RightAtSameStart(m: seq<Line>, line: Line, i: nat)
    requires Canonical(m) && Fits(line) && i < |m| && m[i].addr == line.addr && StaysRight(m, line)
    ensures Repeats(m[i], line)
  {
    DuplicateIffSameStart(m, line);
    assert Has(line, line.addr, line.attr);
    var j := EntryWith(m, line, line.addr);
    OneEntryAt(m, i, j, line.addr);
    if m[i].len < line.len {
      var n := EntryWith(m, line, End(m[i]));
      NoEntryFollows(m, i, n);
    }
  }

  lemma EntryWith(m: seq<Line>, line: Line, a: nat) returns (j: nat)
    requires StaysRight(m, line) && Inserted(m, line) == m && Has(line, a, line.attr)
    ensures j < |m| && Has(m[j], a, line.attr)
  {
    assert Covers(m, a, line.attr);
    j :| 0 <= j < |m| && Has(m[j], a, line.attr);
  }

  lemma NoEntryFollows(m: seq<Line>, i: nat, n: nat)
    requires Canonical(m) && i < |m| && n < |m|
    ensures !Has(m[n], End(m[i]), m[i].attr)
  {
    if i + 1 < n { assert End(m[i]) <= m[i + 1].addr < End(m[i + 1]) <= m[n].addr; }
  }

  /** A line that starts before an entry merges into it only if it ends where the entry starts. */
  lemma MergeIntoLater(next: Line, line: Line)
    requires Fits(line) && Fits(next) && line.addr < next.addr && Merge(next, line).Some?
    ensures End(line) == next.addr
    ensures var l := Merge(next, line).value; Fits(l) && l.addr == line.addr
  {
  }

  lemma EntriesBefore(m: seq<Line>, k: nat, j: nat, addr: nat)
    requires Sorted(m) && 0 < k <= |m| && j < k && End(m[k - 1]) <= addr
    ensures End(m[j]) <= addr
  {
  }

  lemma InsertedIntoNext(m: seq<Line>, line: Line, k: nat)
    requires 0 < k == FirstFrom(m, line.addr) < |m| && line.addr < m[k].addr && Merge(m[k], line).Some?
    requires Merge(Merge(m[k], line).value, m[k - 1]).None?
    ensures Inserted(m, line) == m[k := Merge(m[k], line).value]
  {
  }

  lemma PreviousEndsBefore(m: seq<Line>, line: Line, k: nat)
    requires Sorted(m) && Fits(line) && 0 < k == FirstFrom(m, line.addr) < |m|
    requires line.addr < m[k].addr && Merge(m[k], line).Some? && Sorted(Inserted(m, line))
    ensures End(m[k - 1]) <= line.addr
  {
    var l := Merge(m[k], line).value;
    MergeIntoLater(m[k], line);
    if Merge(l, m[k - 1]).Some? {
      MergeIntoLater(l, m[k - 1]);
    } else {
      InsertedIntoNext(m, line, k);
      assert m[k := l][k - 1] == m[k - 1] && m[k := l][k] == l;
    }
  }

  lemma LaterEntries(m: seq<Line>, k: nat, j: nat)
    requires Sorted(m) && k <= j < |m|
    ensures m[k].addr <= m[j].addr
  {
  }

  lemma RightBeforeNext(m: seq<Line>, line: Line, k: nat, j: nat)
    requires Sorted(m) && Fits(line) && j < |m| && k == FirstFrom(m, line.addr) < |m|
    requires line.addr < m[k].addr && Merge(m[k], line).Some? && Sorted(Inserted(m, line))
    ensures Disjoint(m[j], line)
  {
    MergeIntoLater(m[k], line);
    if j < k {
      PreviousEndsBefore(m, line, k);
      EntriesBefore(m, k, j, line.addr);
    } else {
      LaterEntries(m, k, j);
    }
  }

  /** An entry that starts before the line merges with it only if it ends where the line starts. */
  lemma MergeIntoEarlier(prev: Line, line: Line)
    requires Fits(line) && Fits(prev) && prev.addr < line.addr && Merge(prev, line).Some?
    ensures End(prev) == line.addr
    ensures var l := Merge(prev, line).value; l.addr == prev.addr && End(l) == End(line)
  {
  }

  lemma EntriesAfter(m: seq<Line>, k: nat, entry: Line, j: nat)
    requires k < j < |m| && Sorted(m[k := entry])
    ensures End(entry) <= m[j].addr
  {
    var m' := m[k := entry];
    assert m'[k] == entry && m'[j] == m[j];
  }

  lemma RightAfterPrevious(m: seq<Line>, line: Line, k: nat, i: nat, j: nat)
    requires Sorted(m) && Fits(line) && j < |m| && i + 1 == k == FirstFrom(m, line.addr)
    requires k < |m| ==> line.addr < m[k].addr && Merge(m[k], line).None?
    requires Merge(m[i], line).Some? && Sorted(Inserted(m, line))
    ensures Disjoint(m[j], line)
  {
    MergeIntoEarlier(m[i], line);
    if j < k {
      EntriesBefore(m, k, j, line.addr);
    } else {
      EntriesAfter(m, i, Merge(m[i], line).value, j);
    }
  }

  /** Where no entry starts where the line does, an overlap shows in the new list. */
  lemma RightAtNewStart(m: seq<Line>, line: Line, j: nat)
    requires Sorted(m) && Fits(line) && j < |m| && forall i :: 0 <= i < |m| ==> m[i].addr != line.addr
    requires Sorted(Inserted(m, line))
    ensures Disjoint(m[j], line)
  {
    var k, m' := FirstFrom(m, line.addr), Inserted(m, line);
    if k < |m| && Merge(m[k], line).Some? {
      RightBeforeNext(m, line, k, j);
    } else if 0 < k && Merge(m[k - 1], line).Some? {
      RightAfterPrevious(m, line, k, k - 1, j);
    } else {
      assert m'[k] == line && (if j < k then m'[j] else m'[j + 1]) == m[j];
    }
  }

  /** Inserting any line that fits keeps the list right exactly when the line is disjoint from all entries,
      or an entry with its start and its attributes is at least as long. */
  lemma StaysRightIff(m: seq<Line>, line: Line)
    requires Canonical(m) && Fits(line)
    ensures StaysRight(m, line) <==>
      (forall i :: 0 <= i < |m| ==> Disjoint(m[i], line)) || (exists i :: 0 <= i < |m| && Repeats(m[i], line))
  {
    DuplicateIffSameStart(m, line);
    if i: nat :| i < |m| && m[i].addr == line.addr {
      if StaysRight(m, line) { RightAtSameStart(m, line, i); }
    } else {
      if StaysRight(m, line) {
        forall j: nat | j < |m| ensures Disjoint(m[j], line) { RightAtNewStart(m, line, j); }
      }
      if forall j :: 0 <= j < |m| ==> Disjoint(m[j], line) { InsertedIsCanonical(m, line); }
    }
  }

  /** Two merged pages, and the second page again: the list then holds overlapping entries. */
  lemma RepeatedPageIsAccepted(attr: Attr)
    ensures var x, y := Line(0, 4096, attr), Line(4096, 4096, attr);
            InsertAll([x, y]) == [Line(0, 8192, attr)] && InsertAll([x, y, y]) == [Line(0, 8192, attr), y]
  {
    var x, y := Line(0, 4096, attr), Line(4096, 4096, attr);
    var merged := Line(0, 8192, attr);
    assert [x][..0] == [] && Inserted([], x) == [x];
    assert [x, y][..1] == [x] && FirstFrom([x], 4096) == 1;
    assert InsertAll([x]) == [x];
    assert Inserted([x], y) == [merged];
    assert InsertAll([x, y]) == [merged];
    assert [x, y, y][..2] == [x, y] && FirstFrom([merged], 4096) == 1;
    assert Inserted([merged], y) == [merged, y];
  }
}
