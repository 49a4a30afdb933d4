/** When the interner of `str_intern.cpp` rehashes, and to how many buckets: the arithmetic over
    `interned_`, the bucket count, `max_load_factor_` and `rehash_count_`, with exact reals.  `width` is
    the number of bits of `std::size_t`. */
module InternSizes {
  import opened Bits

  /** `threshold` is `rehash_count_`; 0 means that no rehash follows any more. */
  datatype Sizes = Sizes(interned: nat, buckets: nat, maxBuckets: nat, factor: real, threshold: nat, width: nat)

  function Ceil(x: real): int { -((-x).Floor) }

  function Max(x: int, y: int): int { if x <= y then y else x }

  /** The constructor: the threshold assumes a load factor of 1.0. */
  function Initial(buckets: nat, maxBuckets: nat, width: nat): Sizes
  {
    Sizes(0, buckets, maxBuckets, 1.0, if buckets == maxBuckets then 0 else buckets, width)
  }

  /** The checks of `str_intern::str_intern`; the last one is on a multiple of `buckets`. */
  predicate Accepted(buckets: nat, maxBuckets: nat)
  {
    && buckets != 0 && And(buckets, buckets - 1) == 0
    && buckets <= maxBuckets
    && And(maxBuckets, buckets - 1) == 0
  }

  /** The constructor takes exactly the multiples of a power of two: the header promises that the limit is a
      power of two itself. */
  lemma AcceptedIff(buckets: nat, maxBuckets: nat)
    ensures Accepted(buckets, maxBuckets) <==>
      IsPow2(buckets) && buckets <= maxBuckets && maxBuckets % buckets == 0
  {
    if 0 < buckets {
      AndPredecessor(buckets);
      if n: nat :| buckets == Pow2(n) { AndIsRemainder(maxBuckets, n); }
    }
  }

  predicate MustRehash(z: Sizes)
  {
    z.threshold != 0 && z.interned >= z.threshold
  }

  /** The number of buckets at which one more string is within the factor. */
  function Wanted(interned: nat, factor: real): int
    requires 0.0 < factor
  {
    Ceil((interned + 1) as real / factor)
  }

  function Limited(wanted: int, maxBuckets: nat, width: nat): nat
  {
    if wanted >= maxBuckets then maxBuckets else BitCeil(Max(0, wanted), width)
  }

  /** `next_size()` */
  function NextSize(z: Sizes): nat
    requires 0.0 < z.factor
  {
    Limited(Wanted(z.interned, z.factor), z.maxBuckets, z.width)
  }

  /** `rehash_count_` for a new number of buckets. */
  function Threshold(buckets: nat, factor: real): nat
    requires 0.0 < factor
  {
    (buckets as real * factor).Floor
  }

  /** `rehash(next_size())` */
  function Rehashed(z: Sizes): Sizes
    requires 0.0 < z.factor
  {
    var n := NextSize(z);
    z.(buckets := n, threshold := if n == z.maxBuckets then 0 else Threshold(n, z.factor))
  }

  /** A new string is added. */
  function Added(z: Sizes): Sizes
    requires 0.0 < z.factor
  {
    var y := if MustRehash(z) then Rehashed(z) else z;
    y.(interned := y.interned + 1)
  }

  /** `rehash_count_` after `max_load_factor(ml)`. */
  function FactorThreshold(buckets: nat, maxBuckets: nat, width: nat, ml: real): nat
  {
    var f := buckets as real * ml;
    if maxBuckets == buckets || f >= (Pow2(width) - 1) as real then 0
    else Max(Ceil(f), buckets)
  }

  /** `max_load_factor(ml)` */
  function WithFactor(z: Sizes, ml: real): Sizes
  {
    z.(factor := ml, threshold := FactorThreshold(z.buckets, z.maxBuckets, z.width, ml))
  }

  /** What holds of every accepted limit while the table is not empty.  The setter refuses factors up to
      0.01. */
  predicate Sound(z: Sizes)
  {
    0 < z.buckets && 0 < z.width && 0 < z.maxBuckets < Pow2(z.width) && 0.01 < z.factor
  }

  /** One more string needs more buckets than the largest power of two of the type, and fewer than the
      limit. */
  predicate Emptied(z: Sizes)
    requires 0 < z.width
  {
    FillsBetween(z.interned, z.factor, Pow2(z.width - 1), z.maxBuckets - 1)
  }

  /** One more string is above what `low` buckets hold, and not above what `high` hold. */
  predicate FillsBetween(interned: nat, factor: real, low: int, high: int)
  {
    low as real * factor < (interned + 1) as real <= high as real * factor
  }

  /** The next new string would make a table without buckets, and look into it. */
  predicate Breaks(z: Sizes)
    requires 0 < z.width
  {
    MustRehash(z) && Emptied(z)
  }

  /** A power of two, or one more. */
  ghost predicate GoodLimit(maxBuckets: nat)
  {
    0 < maxBuckets && (IsPow2(maxBuckets) || IsPow2(maxBuckets - 1))
  }

  /** The table is within its limit, and a threshold means that it can grow. */
  ghost predicate Within(z: Sizes)
  {
    && Sound(z) && GoodLimit(z.maxBuckets) && z.buckets <= z.maxBuckets
    && (z.threshold != 0 ==> z.buckets < z.maxBuckets && Reaches(z.threshold, z.buckets, z.factor))
  }

  /** The same for the documented limits, which are powers of two. */
  ghost predicate Valid(z: Sizes)
  {
    Within(z) && IsPow2(z.buckets) && IsPow2(z.maxBuckets)
  }

  /** One string more than the threshold exceeds the load of the table. */
  predicate Reaches(threshold: nat, buckets: nat, factor: real)
  {
    buckets as real * factor < (threshold + 1) as real
  }

  lemma {:induction false} CeilBounds(x: real)
    ensures x <= Ceil(x) as real < x + 1.0
  {
  }

  lemma DivTimes(x: real, y: real)
    requires 0.0 < y
    ensures (x / y) * y == x
  {
  }

  lemma {:induction false} ProductOrder(x: real, y: real, k: real)
    requires 0.0 < k
    ensures x <= y <==> x * k <= y * k
    ensures x < y <==> x * k < y * k
  {
  }

  /** The wanted size is above n buckets exactly when one more string exceeds the load of n. */
  lemma WantedSize(interned: nat, factor: real, n: nat)
    requires 0.0 < factor
    ensures n < Wanted(interned, factor) <==> n as real * factor < (interned + 1) as real
  {
    var f := (interned + 1) as real / factor;
    CeilBounds(f);
    DivTimes((interned + 1) as real, factor);
    ProductOrder(n as real, f, factor);
  }

  lemma WantedAbove(z: Sizes)
    requires Within(z) && MustRehash(z)
    ensures z.buckets < Wanted(z.interned, z.factor)
  {
    WantedSize(z.interned, z.factor, z.buckets);
  }

  lemma ThresholdAbove(interned: nat, factor: real, n: nat)
    requires 0.0 < factor && Wanted(interned, factor) <= n
    ensures interned < Threshold(n, factor)
    ensures Reaches(Threshold(n, factor), n, factor)
  {
    WantedSize(interned, factor, n);
  }

  lemma GoodLimitFits(maxBuckets: nat, width: nat)
    requires GoodLimit(maxBuckets) && 0 < width && maxBuckets < Pow2(width)
    ensures maxBuckets <= Pow2(width - 1) + 1
    ensures IsPow2(maxBuckets) ==> maxBuckets <= Pow2(width - 1)
  {
    if IsPow2(maxBuckets) { Pow2Fits(maxBuckets, width); } else { Pow2Fits(maxBuckets - 1, width); }
  }

  lemma Pow2Fits(v: nat, width: nat)
    requires IsPow2(v) && 0 < width && v < Pow2(width)
    ensures v <= Pow2(width - 1)
  {
    var n: nat :| v == Pow2(n);
    if width <= n { Pow2Monotone(width, n); } else { Pow2Monotone(n, width - 1); }
  }

  /** The next size is a power of two below the limit, or the limit, and at least the wanted size if
      below it. */
  lemma LimitedSize(buckets: nat, wanted: int, maxBuckets: nat, width: nat)
    requires GoodLimit(maxBuckets) && 0 < width && maxBuckets < Pow2(width)
    requires buckets < maxBuckets && buckets < wanted
    ensures var n := Limited(wanted, maxBuckets, width);
            && (IsPow2(n) || n == maxBuckets)
            && buckets < n <= maxBuckets
            && (n < maxBuckets ==> wanted <= n)
  {
    GoodLimitFits(maxBuckets, width);
    if wanted < maxBuckets {
      BitCeilIsLeast(wanted, width);
      if IsPow2(maxBuckets) {
        var k: nat :| maxBuckets == Pow2(k);
      } else {
        var k: nat :| maxBuckets - 1 == Pow2(k);
      }
    }
  }

  /** Within a good limit a rehash strictly increases the number of buckets, to a power of two or to the
      limit, and leaves the threshold above the count it was called for unless the limit is reached. */
  lemma RehashGrows(z: Sizes)
    requires Within(z) && MustRehash(z)
    ensures Within(Rehashed(z)) && (Valid(z) ==> Valid(Rehashed(z)))
    ensures z.buckets < Rehashed(z).buckets
    ensures Rehashed(z).threshold == 0 <==> Rehashed(z).buckets == z.maxBuckets
    ensures Rehashed(z).threshold != 0 ==> z.interned < Rehashed(z).threshold && IsPow2(Rehashed(z).buckets)
  {
    WantedAbove(z);
    LimitedSize(z.buckets, Wanted(z.interned, z.factor), z.maxBuckets, z.width);
    if NextSize(z) < z.maxBuckets {
      ThresholdAbove(z.interned, z.factor, NextSize(z));
    }
  }

  lemma LimitedIsZeroIff(wanted: int, maxBuckets: nat, width: nat)
    requires 0 < wanted && 0 < width && 0 < maxBuckets < Pow2(width)
    ensures Limited(wanted, maxBuckets, width) == 0 <==> Pow2(width - 1) < wanted < maxBuckets
  {
    if wanted < maxBuckets { BitCeilIsLeast(wanted, width); }
  }

  /** For every accepted limit, the next size is no table exactly if `Emptied` holds. */
  lemma NextSizeIsZeroIff(z: Sizes)
    requires Sound(z)
    ensures NextSize(z) == 0 <==> Emptied(z)
  {
    WantedBetween(z.interned, z.factor, Pow2(z.width - 1), z.maxBuckets - 1);
    LimitedIsZeroIff(Wanted(z.interned, z.factor), z.maxBuckets, z.width);
  }

  lemma WantedBetween(interned: nat, factor: real, low: nat, high: nat)
    requires 0.0 < factor
    ensures low < Wanted(interned, factor) <= high <==> FillsBetween(interned, factor, low, high)
    ensures 0 < Wanted(interned, factor)
  {
    WantedSize(interned, factor, 0);
    WantedSize(interned, factor, low);
    WantedSize(interned, factor, high);
  }

  lemma AddedIsWithin(z: Sizes)
    requires Within(z)
    ensures Within(Added(z)) && (Valid(z) ==> Valid(Added(z)))
    ensures z.buckets <= Added(z).buckets
  {
    if MustRehash(z) {
      RehashGrows(z);
      var y := Rehashed(z);
      assert Added(z) == y.(interned := y.interned + 1);
    }
  }

  lemma WithFactorIsWithin(z: Sizes, ml: real)
    requires Within(z) && 0.01 < ml
    ensures Within(WithFactor(z, ml)) && (Valid(z) ==> Valid(WithFactor(z, ml)))
  {
    CeilBounds(z.buckets as real * ml);
  }

  lemma InitialIsValid(buckets: nat, maxBuckets: nat, width: nat)
    requires IsPow2(buckets) && IsPow2(maxBuckets) && 0 < width && buckets <= maxBuckets < Pow2(width)
    ensures Valid(Initial(buckets, maxBuckets, width))
  {
  }

  // ----- two rehashes in a row

  /** A table of n buckets has room for exactly one string after the next, at the factor at hand. */
  predicate OneLeft(z: Sizes, n: nat)
  {
    (z.interned + 1) as real <= n as real * z.factor < (z.interned + 2) as real
  }

  /** The string after a rehash makes another one exactly when the new table is below the limit and has
      room for it only. */
  lemma RehashTwiceAtSize(z: Sizes)
    requires Within(z) && MustRehash(z)
    ensures MustRehash(Added(z)) <==> NextSize(z) < z.maxBuckets && OneLeft(z, NextSize(z))
  {
    RehashGrows(z);
    TwiceForTable(z, NextSize(z), Rehashed(z));
  }

  lemma TwiceForTable(z: Sizes, size: nat, y: Sizes)
    requires 0.0 < z.factor && size <= z.maxBuckets
    requires y == z.(buckets := size, threshold := if size == z.maxBuckets then 0 else Threshold(size, z.factor))
    requires y.threshold != 0 ==> z.interned < y.threshold
    requires y.threshold == 0 ==> size == z.maxBuckets
    ensures MustRehash(y.(interned := z.interned + 1)) <==> size < z.maxBuckets && OneLeft(z, size)
  {
    if size < z.maxBuckets { FloorIsNext(y.threshold, z.interned, size as real * z.factor); }
  }

  lemma FloorIsNext(t: int, n: nat, x: real)
    requires t == x.Floor && n < t
    ensures t <= n + 1 <==> (n + 1) as real <= x < (n + 2) as real
  {
  }

  lemma OneLeftBetween(z: Sizes, m: nat, n: nat)
    requires 0.0 < z.factor && Wanted(z.interned, z.factor) <= m <= n && OneLeft(z, n)
    ensures OneLeft(z, m)
  {
    WantedSize(z.interned, z.factor, m);
    ProductOrder(m as real, n as real, z.factor);
  }

  lemma OneLeftMeansTwice(z: Sizes, n: nat)
    requires Within(z) && MustRehash(z) && Pow2(n) < z.maxBuckets && OneLeft(z, Pow2(n))
    ensures MustRehash(Added(z))
  {
    RehashTwiceAtSize(z);
    WantedAtMost(z, Pow2(n));
    LeastTableIsNext(z, n);
    OneLeftBetween(z, NextSize(z), Pow2(n));
  }

  lemma WantedAtMost(z: Sizes, n: nat)
    requires 0.0 < z.factor && OneLeft(z, n)
    ensures Wanted(z.interned, z.factor) <= n
  {
    WantedSize(z.interned, z.factor, n);
  }

  lemma TwiceMeansOneLeft(z: Sizes) returns (n: nat)
    requires Within(z) && MustRehash(z) && MustRehash(Added(z))
    ensures Pow2(n) < z.maxBuckets && OneLeft(z, Pow2(n))
  {
    RehashTwiceAtSize(z);
    RehashGrows(z);
    n :| NextSize(z) == Pow2(n);
  }

  /** The string that follows a rehash makes another one exactly when some power of two below the limit
      is a table with room for one string only. */
  lemma RehashTwiceIff(z: Sizes)
    requires Within(z) && MustRehash(z)
    ensures MustRehash(Added(z)) <==> exists n: nat :: Pow2(n) < z.maxBuckets && OneLeft(z, Pow2(n))
  {
    if MustRehash(Added(z)) {
      var n := TwiceMeansOneLeft(z);
    } else {
      forall n: nat | Pow2(n) < z.maxBuckets ensures !OneLeft(z, Pow2(n)) {
        if OneLeft(z, Pow2(n)) { OneLeftMeansTwice(z, n); }
      }
    }
  }

  /** The next table is the smallest that holds one more string. */
  lemma LeastTableIsNext(z: Sizes, n: nat)
    requires Within(z) && MustRehash(z) && Wanted(z.interned, z.factor) <= Pow2(n) < z.maxBuckets
    ensures Wanted(z.interned, z.factor) <= NextSize(z) <= Pow2(n)
  {
    WantedAbove(z);
    GoodLimitFits(z.maxBuckets, z.width);
    LeastPow2(Wanted(z.interned, z.factor), n, z.width);
  }

  lemma LeastPow2(v: nat, n: nat, width: nat)
    requires 0 < width && 1 <= v <= Pow2(n) && v <= Pow2(width - 1)
    ensures v <= BitCeil(v, width) <= Pow2(n)
  {
    Pow2Monotone(width - 1, width);
    BitCeilIsLeast(v, width);
  }

  /** One more string does not exceed the load of n buckets. */
  predicate Holds(z: Sizes, n: nat)
  {
    (z.interned + 1) as real <= n as real * z.factor
  }

  lemma HoldsIff(z: Sizes, n: nat)
    requires 0.0 < z.factor
    ensures Holds(z, n) <==> Wanted(z.interned, z.factor) <= n
  {
    WantedSize(z.interned, z.factor, n);
  }

  /** For every factor: the new table is the smallest power of two below the limit whose load one more string
      does not exceed, or the limit if there is none. */
  lemma RehashIsLeast(z: Sizes)
    requires Within(z) && MustRehash(z)
    ensures Rehashed(z).buckets < z.maxBuckets ==> Holds(z, Rehashed(z).buckets) && IsPow2(Rehashed(z).buckets)
    ensures forall n: nat :: Pow2(n) < z.maxBuckets && Holds(z, Pow2(n)) ==> Rehashed(z).buckets <= Pow2(n)
  {
    NextSizeHolds(z);
    forall n: nat | Pow2(n) < z.maxBuckets && Holds(z, Pow2(n)) ensures Rehashed(z).buckets <= Pow2(n) {
      HoldsIff(z, Pow2(n));
      LeastTableIsNext(z, n);
    }
  }

  lemma NextSizeHolds(z: Sizes)
    requires Within(z) && MustRehash(z)
    ensures NextSize(z) < z.maxBuckets ==> Holds(z, NextSize(z)) && IsPow2(NextSize(z))
  {
    WantedAbove(z);
    LimitedSize(z.buckets, Wanted(z.interned, z.factor), z.maxBuckets, z.width);
    HoldsIff(z, NextSize(z));
  }

  /** After a rehash that is not to the limit, any number of strings makes another one exactly when one more
      string exceeds the load. */
  lemma LoadDecides(z: Sizes, interned: nat)
    requires Within(z) && MustRehash(z) && NextSize(z) < z.maxBuckets
    ensures var y := Rehashed(z).(interned := interned); MustRehash(y) <==> !Holds(y, y.buckets)
  {
    var y := Rehashed(z);
    RehashGrows(z);
    ThresholdDecides(y, y.(interned := interned));
  }

  lemma ThresholdDecides(y: Sizes, x: Sizes)
    requires 0.0 < y.factor && y.threshold != 0 && y.threshold == Threshold(y.buckets, y.factor)
    requires x == y.(interned := x.interned)
    ensures MustRehash(x) <==> !Holds(x, x.buckets)
  {
    FloorExceeded(y.threshold, y.buckets as real * y.factor, x.interned);
  }

  lemma FloorExceeded(t: int, x: real, n: nat)
    requires t == x.Floor
    ensures n >= t <==> x < (n + 1) as real
  {
  }

  // ----- the factor 1.0

  /** The state of a run that never changed the factor: the table is as large as the threshold, and
      `copied` blocks were moved by rehashes since it had `first` buckets. */
  ghost predicate Unit(z: Sizes, first: nat, copied: nat)
  {
    && Valid(z) && z.factor == 1.0
    && z.threshold == (if z.buckets == z.maxBuckets then 0 else z.buckets)
    && (z.threshold != 0 ==> z.interned <= z.buckets)
    && 1 <= first <= z.buckets && copied == z.buckets - first
    && (first < z.buckets ==> z.buckets < 2 * z.interned)
  }

  lemma {:induction false} NextPow2(v: nat, w: nat)
    requires IsPow2(v) && IsPow2(w) && v < w
    ensures 2 * v <= w
  {
    var m: nat, n: nat :| v == Pow2(m) && w == Pow2(n);
    if n <= m { Pow2Monotone(n, m); } else { Pow2Monotone(m, n); }
  }

  lemma UnitWanted(n: nat)
    ensures Wanted(n, 1.0) == n + 1
    ensures Threshold(n, 1.0) == n
  {
  }

  lemma LimitedDoubles(buckets: nat, maxBuckets: nat, width: nat)
    requires IsPow2(buckets) && IsPow2(maxBuckets) && buckets < maxBuckets
    requires 0 < width && maxBuckets <= Pow2(width - 1)
    ensures Limited(buckets + 1, maxBuckets, width) == 2 * buckets
  {
    NextPow2(buckets, maxBuckets);
    if buckets + 1 < maxBuckets {
      var m: nat :| buckets == Pow2(m);
      assert 2 * buckets == Pow2(m + 1);
      Pow2Monotone(width - 1, width);
      BitCeilIsLeast(buckets + 1, width);
      NextPow2(buckets, BitCeil(buckets + 1, width));
    }
  }

  /** At factor 1.0 a rehash doubles the table. */
  lemma UnitRehashDoubles(z: Sizes, first: nat, copied: nat)
    requires Unit(z, first, copied) && MustRehash(z)
    ensures z.interned == z.buckets && Rehashed(z).buckets == 2 * z.buckets
    ensures Unit(Added(z), first, copied + z.interned)
  {
    RehashGrows(z);
    AddedIsWithin(z);
    NextPow2(z.buckets, z.maxBuckets);
    NextPow2(z.buckets, Rehashed(z).buckets);
    UnitWanted(z.buckets);
    Pow2Fits(z.maxBuckets, z.width);
    LimitedDoubles(z.buckets, z.maxBuckets, z.width);
  }

  lemma UnitDoesNotBreak(z: Sizes, first: nat, copied: nat)
    requires Unit(z, first, copied)
    ensures !Breaks(z)
  {
    Pow2Fits(z.maxBuckets, z.width);
    LowLimitDoesNotBreak(z);
  }

  lemma UnitAdded(z: Sizes, first: nat, copied: nat)
    requires Unit(z, first, copied)
    ensures Unit(Added(z), first, copied + if MustRehash(z) then z.interned else 0)
  {
    if MustRehash(z) {
      UnitRehashDoubles(z, first, copied);
    }
  }

  /** At factor 1.0 all the blocks moved by all rehashes are fewer than twice the strings, and with at
      least two buckets no string that follows a rehash makes another one. */
  lemma UnitCopiesAreLinear(z: Sizes, first: nat, copied: nat)
    requires Unit(z, first, copied)
    ensures copied == 0 || copied < 2 * z.interned
    ensures MustRehash(z) && 2 <= z.buckets ==> !MustRehash(Added(z))
  {
    if MustRehash(z) {
      UnitRehashDoubles(z, first, copied);
    }
  }

  /** With one initial bucket the second and the third string both rehash. */
  lemma OneBucketRehashesTwice(width: nat)
    requires 10 < width
    ensures var z := Added(Initial(1, 1024, width));
            MustRehash(z) && Added(z).buckets == 2 && MustRehash(Added(z)) && Added(Added(z)).buckets == 4
  {
    Pow2Monotone(2, width - 1);
    Pow2Monotone(2, width);
    assert Pow2(1) == 2 && Pow2(2) == 4;
    BitCeilIsLeast(2, width);
    BitCeilIsLeast(3, width);
    if BitCeil(3, width) == 3 { NextPow2(2, 3); }
    UnitWanted(1);
    UnitWanted(2);
  }

  // ----- limits that are not powers of two

  /** A new string, or a call of the setter. */
  datatype Change = NewString | NewFactor(ml: real)

  function Changed(z: Sizes, c: Change): Sizes
    requires 0.0 < z.factor
  {
    match c
    case NewString => Added(z)
    case NewFactor(ml) => if ml <= 0.01 then z else WithFactor(z, ml)
  }

  function SizesAfter(z: Sizes, changes: seq<Change>): (r: Sizes)
    requires 0.0 < z.factor
    ensures 0.0 < r.factor && r.maxBuckets == z.maxBuckets && r.width == z.width
  {
    if changes == [] then z else Changed(SizesAfter(z, changes[..|changes| - 1]), changes[|changes| - 1])
  }

  /** The table is not above its limit, and a new string does not make it smaller. */
  predicate Kept(z: Sizes)
    requires 0.0 < z.factor
  {
    z.buckets <= z.maxBuckets && z.buckets <= Added(z).buckets
  }

  lemma {:induction false} GoodLimitIsKept(z: Sizes, changes: seq<Change>)
    requires Within(z)
    ensures Within(SizesAfter(z, changes)) && Kept(SizesAfter(z, changes))
  {
    if changes == [] {
      AddedIsWithin(z);
    } else {
      var y, c := SizesAfter(z, changes[..|changes| - 1]), changes[|changes| - 1];
      GoodLimitIsKept(z, changes[..|changes| - 1]);
      AddedIsWithin(y);
      if c.NewFactor? && 0.01 < c.ml { WithFactorIsWithin(y, c.ml); }
      AddedIsWithin(SizesAfter(z, changes));
    }
  }

  /** n new strings at the factor of construction. */
  function Strings(n: nat): seq<Change> { seq(n, _ => NewString) }

  lemma StringsAfter(z: Sizes, n: nat)
    requires 0.0 < z.factor
    ensures SizesAfter(z, Strings(n + 1)) == Added(SizesAfter(z, Strings(n)))
  {
    assert Strings(n + 1)[..n] == Strings(n);
  }

  lemma StringsNext(z: Sizes, j: nat, k: nat)
    requires 0.0 < z.factor && k == j + 1
    ensures SizesAfter(z, Strings(k)) == Added(SizesAfter(z, Strings(j)))
  {
    StringsAfter(z, j);
  }

  /** Up to a power of two below the limit the table doubles whenever it is full. */
  ghost predicate Doubling(z: Sizes, k: nat, top: nat)
  {
    && z.interned == k && z.factor == 1.0 && 0 < z.width
    && IsPow2(z.buckets) && k <= z.buckets <= top && z.threshold == z.buckets
  }

  lemma CeilDoubles(buckets: nat, width: nat)
    requires IsPow2(buckets) && 0 < width && 2 * buckets <= Pow2(width - 1)
    ensures BitCeil(buckets + 1, width) == 2 * buckets
  {
    var m: nat :| buckets == Pow2(m);
    assert 2 * buckets == Pow2(m + 1);
    Pow2Monotone(0, m);
    Pow2Monotone(width - 1, width);
    BitCeilIsLeast(buckets + 1, width);
    NextPow2(buckets, BitCeil(buckets + 1, width));
  }

  lemma DoublingStep(y: Sizes, k: nat, top: nat)
    requires Doubling(y, k, top) && IsPow2(top) && k < top < y.maxBuckets && top <= Pow2(y.width - 1)
    ensures Doubling(Added(y), k + 1, top)
  {
    if MustRehash(y) {
      UnitWanted(k);
      NextPow2(y.buckets, top);
      CeilDoubles(y.buckets, y.width);
      UnitWanted(2 * y.buckets);
      var m: nat :| y.buckets == Pow2(m);
      assert 2 * y.buckets == Pow2(m + 1);
    }
  }

  lemma {:induction false} DoublesToTop(z: Sizes, top: nat, k: nat)
    requires Doubling(z, 0, top) && IsPow2(top) && k <= top < z.maxBuckets && top <= Pow2(z.width - 1)
    ensures Doubling(SizesAfter(z, Strings(k)), k, top)
  {
    if k > 0 {
      var j: nat := k - 1;
      DoublesToTop(z, top, j);
      StringsNext(z, j, k);
      DoublingStep(SizesAfter(z, Strings(j)), j, top);
    }
  }

  /** The next power of two, or 0 if it does not fit the type. */
  function Doubled(top: nat, width: nat): nat { if top + 1 < width then Pow2(top + 1) else 0 }

  /** A limit between a power of two, plus one, and the next power. */
  predicate OtherLimit(buckets: nat, maxBuckets: nat, width: nat, top: nat)
  {
    && Accepted(buckets, maxBuckets) && 0 < width && maxBuckets < Pow2(width)
    && Pow2(top) + 1 < maxBuckets < Pow2(top + 1)
  }

  lemma StartsBelowTop(buckets: nat, maxBuckets: nat, width: nat, top: nat)
    requires OtherLimit(buckets, maxBuckets, width, top)
    ensures Doubling(Initial(buckets, maxBuckets, width), 0, Pow2(top))
    ensures top < width && Pow2(top) <= Pow2(width - 1)
  {
    AcceptedIff(buckets, maxBuckets);
    var b: nat :| buckets == Pow2(b);
    if top < b { Pow2Monotone(top + 1, b); }
    Pow2Monotone(b, top);
    if width <= top { Pow2Monotone(width, top); }
    Pow2Monotone(top, width - 1);
  }

  lemma FullAtTop(y: Sizes, top: nat)
    requires Doubling(y, Pow2(top), Pow2(top)) && top < y.width && Pow2(top) + 1 < y.maxBuckets < Pow2(y.width)
    requires y.maxBuckets < Pow2(top + 1)
    ensures var n, m := Pow2(top), Doubled(top, y.width);
            Added(y) == y.(interned := n + 1, buckets := m, threshold := m)
  {
    var n := Pow2(top);
    UnitWanted(n);
    UnitWanted(Doubled(top, y.width));
    if top + 1 < y.width {
      Pow2Monotone(top + 1, y.width - 1);
      CeilDoubles(n, y.width);
    } else {
      BitCeilIsLeast(n + 1, y.width);
    }
  }

  /** After as many strings as the power, the table is full. */
  lemma OtherLimitIsFull(buckets: nat, maxBuckets: nat, width: nat, top: nat)
    requires OtherLimit(buckets, maxBuckets, width, top)
    ensures Doubling(SizesAfter(Initial(buckets, maxBuckets, width), Strings(Pow2(top))), Pow2(top), Pow2(top))
    ensures top < width
  {
    StartsBelowTop(buckets, maxBuckets, width, top);
    DoublesToTop(Initial(buckets, maxBuckets, width), Pow2(top), Pow2(top));
  }

  /** Any other limit fails by interning alone: with one string more than the largest power of two below it
      the table has twice as many buckets as that power, or none if that does not fit the type. */
  lemma OtherLimitIsExceeded(buckets: nat, maxBuckets: nat, width: nat, top: nat)
    requires OtherLimit(buckets, maxBuckets, width, top)
    ensures var z := SizesAfter(Initial(buckets, maxBuckets, width), Strings(Pow2(top) + 1));
            && z.buckets == z.threshold == Doubled(top, width)
            && z.interned == Pow2(top) + 1 && z.factor == 1.0
  {
    var z := Initial(buckets, maxBuckets, width);
    OtherLimitIsFull(buckets, maxBuckets, width, top);
    StringsAfter(z, Pow2(top));
    FullAtTop(SizesAfter(z, Strings(Pow2(top))), top);
  }

  /** A table that is not full yet stays. */
  lemma {:induction false} FillsUp(z: Sizes, k: nat, j: nat)
    requires 0.0 < z.factor && SizesAfter(z, Strings(k)).threshold != 0
    requires SizesAfter(z, Strings(k)).interned + j <= SizesAfter(z, Strings(k)).threshold
    ensures var y := SizesAfter(z, Strings(k));
            SizesAfter(z, Strings(k + j)) == y.(interned := y.interned + j)
  {
    if j > 0 {
      FillsUp(z, k, j - 1);
      StringsAfter(z, k + j - 1);
    }
  }

  /** When that table is full too, the next string makes it smaller. */
  lemma OtherLimitShrinks(buckets: nat, maxBuckets: nat, width: nat, top: nat)
    requires OtherLimit(buckets, maxBuckets, width, top) && top + 1 < width
    ensures var z := SizesAfter(Initial(buckets, maxBuckets, width), Strings(Pow2(top + 1)));
            z.buckets == Pow2(top + 1) && Added(z).buckets == maxBuckets < z.buckets
  {
    var z, n := Initial(buckets, maxBuckets, width), Pow2(top);
    OtherLimitIsExceeded(buckets, maxBuckets, width, top);
    FillsUp(z, n + 1, n - 1);
    FullAboveLimit(SizesAfter(z, Strings(Pow2(top + 1))), Pow2(top + 1));
  }

  /** Where it does not fit the type, the string after the power breaks the table. */
  lemma OtherLimitBreaks(buckets: nat, maxBuckets: nat, width: nat, top: nat)
    requires OtherLimit(buckets, maxBuckets, width, top) && top + 1 == width
    ensures Breaks(SizesAfter(Initial(buckets, maxBuckets, width), Strings(Pow2(top))))
  {
    OtherLimitIsFull(buckets, maxBuckets, width, top);
  }

  lemma LowLimitDoesNotBreak(z: Sizes)
    requires 0 < z.width && z.maxBuckets <= Pow2(z.width - 1) + 1 && 0.0 < z.factor
    ensures !Breaks(z)
  {
    var low, high := Pow2(z.width - 1), z.maxBuckets - 1;
    ProductOrder(high as real, low as real, z.factor);
  }

  /** Whatever the calls, no table is left without buckets. */
  ghost predicate NeverBreaks(z: Sizes)
    requires 0 < z.width && 0.0 < z.factor
  {
    forall changes: seq<Change> :: !Breaks(SizesAfter(z, changes))
  }

  lemma HighLimitBreaks(buckets: nat, maxBuckets: nat, width: nat)
    requires Accepted(buckets, maxBuckets) && 0 < width && Pow2(width - 1) + 1 < maxBuckets < Pow2(width)
    ensures !NeverBreaks(Initial(buckets, maxBuckets, width))
  {
    var z, top: nat := Initial(buckets, maxBuckets, width), width - 1;
    OtherLimitBreaks(buckets, maxBuckets, width, top);
    var changes := Strings(Pow2(top));
    assert Breaks(SizesAfter(z, changes));
  }

  /** No calls make a table without buckets exactly when the limit is at most half the range of the type,
      or one more. */
  lemma NeverBreaksIff(buckets: nat, maxBuckets: nat, width: nat)
    requires Accepted(buckets, maxBuckets) && 0 < width && maxBuckets < Pow2(width)
    ensures NeverBreaks(Initial(buckets, maxBuckets, width)) <==> maxBuckets <= Pow2(width - 1) + 1
  {
    var z := Initial(buckets, maxBuckets, width);
    if maxBuckets <= Pow2(width - 1) + 1 {
      forall changes: seq<Change> ensures !Breaks(SizesAfter(z, changes)) {
        LowLimitDoesNotBreak(SizesAfter(z, changes));
      }
    } else {
      HighLimitBreaks(buckets, maxBuckets, width);
    }
  }

  /** With three bits, a limit of 7 for one bucket: four strings, and the fifth breaks the table. */
  lemma SevenBreaks()
    ensures Accepted(1, 7) && Breaks(SizesAfter(Initial(1, 7, 3), Strings(4)))
  {
    assert Pow2(0) == 1 && Pow2(2) == 4 && Pow2(3) == 8;
    AcceptedIff(1, 7);
    OtherLimitBreaks(1, 7, 3, 2);
  }

  lemma Powers()
    ensures Pow2(0) == 1 && Pow2(25) == 0x200_0000 && Pow2(31) == 0x8000_0000 && Pow2(32) == 0x1_0000_0000
  {
    assert Pow2(4) == 16;
    Pow2Sum(4, 4);
    Pow2Sum(8, 8);
    Pow2Sum(16, 8);
    Pow2Sum(24, 4);
    assert Pow2(25) == 0x200_0000;
    assert Pow2(29) == 0x2000_0000 && Pow2(30) == 0x4000_0000 && Pow2(31) == 0x8000_0000;
  }

  /** With 32 bits, 2^25 strings and then the factor 0.011 do, for a limit of 3 * 2^30. */
  lemma BreaksAt32Bits()
    ensures Accepted(1, 0xC000_0000)
    ensures Breaks(SizesAfter(Initial(1, 0xC000_0000, 32), Strings(0x200_0000) + [NewFactor(0.011)]))
  {
    var z, n, c := Initial(1, 0xC000_0000, 32), 0x200_0000, NewFactor(0.011);
    Powers();
    AcceptedIff(1, 0xC000_0000);
    DoublesToTop(z, n, n);
    assert (Strings(n) + [c])[..n] == Strings(n);
    var y := SizesAfter(z, Strings(n));
    FactorBreaks(y, n);
    assert SizesAfter(z, Strings(n) + [c]) == WithFactor(y, 0.011);
  }

  lemma FactorBreaks(y: Sizes, n: nat)
    requires y.buckets == y.interned == n == 0x200_0000 && y.maxBuckets == 0xC000_0000 && y.width == 32
    requires Pow2(31) == 0x8000_0000 && Pow2(32) == 0x1_0000_0000
    ensures Breaks(WithFactor(y, 0.011))
  {
    NewFactorRehashesIff(y, 0.011);
  }

  lemma FullAboveLimit(z: Sizes, n: nat)
    requires z.factor == 1.0 && z.interned == z.threshold == n && 0 < z.maxBuckets < n
    ensures Added(z).buckets == z.maxBuckets
  {
    UnitWanted(n);
  }

  /** No call makes the table larger than its limit, or smaller than it was, exactly when the limit is a
      power of two or one more: of all limits that the constructor takes and that fit the type. */
  lemma LimitIsKeptIff(buckets: nat, maxBuckets: nat, width: nat)
    requires Accepted(buckets, maxBuckets) && 0 < width && maxBuckets < Pow2(width)
    ensures (forall changes: seq<Change> :: Kept(SizesAfter(Initial(buckets, maxBuckets, width), changes)))
       <==> GoodLimit(maxBuckets)
  {
    var z := Initial(buckets, maxBuckets, width);
    if GoodLimit(maxBuckets) {
      forall changes: seq<Change> ensures Kept(SizesAfter(z, changes)) { GoodLimitIsKept(z, changes); }
    } else {
      var top := TopBit(maxBuckets);
      assert maxBuckets != Pow2(top) && maxBuckets - 1 != Pow2(top);
      var changes := OtherLimitIsNotKept(buckets, maxBuckets, width, top);
      assert !Kept(SizesAfter(z, changes));
    }
  }

  lemma OtherLimitIsNotKept(buckets: nat, maxBuckets: nat, width: nat, top: nat) returns (changes: seq<Change>)
    requires OtherLimit(buckets, maxBuckets, width, top)
    ensures !Kept(SizesAfter(Initial(buckets, maxBuckets, width), changes))
  {
    var z := Initial(buckets, maxBuckets, width);
    OtherLimitIsExceeded(buckets, maxBuckets, width, top);
    if top + 1 < width {
      changes := Strings(Pow2(top) + 1);
    } else {
      changes := Strings(Pow2(top));
      OtherLimitIsFull(buckets, maxBuckets, width, top);
      StringsAfter(z, Pow2(top));
    }
  }

  /** Such a limit is 12 for 4 buckets. */
  lemma MultipleIsAccepted()
    ensures Accepted(4, 12) && !GoodLimit(12)
  {
    assert Pow2(2) == 4 && Pow2(3) == 8 && Pow2(4) == 16;
    AcceptedIff(4, 12);
    forall n: nat ensures Pow2(n) != 12 && Pow2(n) != 11 {
      if n <= 3 { Pow2Monotone(n, 3); } else { Pow2Monotone(4, n); }
    }
  }

  // ----- a change of the factor

  /** After the factor is set the next new string rehashes exactly when the table can grow, the product of
      buckets and factor fits, and there are both as many strings as buckets and as many as the product. */
  lemma NewFactorRehashesIff(z: Sizes, ml: real)
    requires 0 < z.buckets <= z.maxBuckets && 0.0 < ml
    ensures var load := z.buckets as real * ml;
            MustRehash(WithFactor(z, ml)) <==>
              && z.buckets < z.maxBuckets && load < (Pow2(z.width) - 1) as real
              && z.buckets <= z.interned && load <= z.interned as real
  {
    CeilAtMost(z.buckets as real * ml, z.interned);
  }

  lemma CeilAtMost(x: real, n: nat)
    ensures Ceil(x) <= n <==> x <= n as real
  {
    CeilBounds(x);
  }

  /** There are more strings than the factor allows: the header promises that the next one rehashes. */
  predicate NeedsMore(z: Sizes, ml: real)
  {
    z.buckets as real * ml < z.interned as real
  }

  /** The header's promise is kept exactly when the factor is not exceeded, or there are as many strings as
      buckets; it is broken by all factors below 1.0 that are exceeded by a table not yet full. */
  lemma PromiseIsKeptIff(z: Sizes, ml: real)
    requires 0 < z.buckets < z.maxBuckets && 0.0 < ml && z.buckets as real * ml < (Pow2(z.width) - 1) as real
    ensures (NeedsMore(z, ml) ==> MustRehash(WithFactor(z, ml))) <==> !NeedsMore(z, ml) || z.buckets <= z.interned
  {
    NewFactorRehashesIff(z, ml);
  }
}
