/** The allocator of `str_intern.cpp`: memory is cut from fixed blocks and never given back. */
module MonotonicResource {
  import opened Wrappers

  datatype Region = Region(start: nat, size: nat)

  predicate Apart(r1: Region, r2: Region)
  {
    r1.start + r1.size <= r2.start || r2.start + r2.size <= r1.start
  }

  predicate Inside(r: Region, outer: Region)
  {
    outer.start <= r.start && r.start + r.size <= outer.start + outer.size
  }

  datatype AllocError = BadAlloc

  /** The bytes to skip to the next multiple of the alignment. */
  function Padding(ptr: nat, alignment: nat): (p: nat)
    requires 0 < alignment
    ensures p < alignment && (ptr + p) % alignment == 0
  {
    var r := ptr % alignment;
    if r == 0 then 0
    else
      assert (ptr + (alignment - r)) % alignment == 0 by { RoundUp(ptr, alignment); }
      alignment - r
  }

  lemma {:induction false} MulMonotone(j: nat, k: nat, m: nat)
    requires j <= k
    ensures j * m <= k * m
  {
  }

  lemma MultipleMod(k: nat, m: nat)
    requires 0 < m
    ensures (k * m) % m == 0
  {
    var q := (k * m) / m;
    assert k * m == q * m + (k * m) % m;
    if q < k {
      MulMonotone(q + 1, k, m);
    } else if k < q {
      MulMonotone(k + 1, q, m);
    }
  }

  lemma RoundUp(ptr: nat, alignment: nat)
    requires 0 < alignment
    ensures (ptr + (alignment - ptr % alignment)) % alignment == 0
  {
    var k := ptr / alignment + 1;
    assert ptr + (alignment - ptr % alignment) == k * alignment;
    MultipleMod(k, alignment);
  }

  /** Whether memory that operator new returns lies apart from everything it returned before. */
  ghost predicate IsNew(r: Region, known: seq<Region>)
  {
    forall i :: 0 <= i < |known| ==> Apart(r, known[i])
  }

  class Resource {
    const blockSize: nat
    var avail: nat                    // avail_
    var memPtr: nat                   // mem_ptr_
    var blocks: seq<Region>           // mem_, newest first
    var large: seq<Region>            // mem_large_

    ghost var small: seq<Region>      // every region cut from a block

    /** All regions handed out are inside a block, apart from each other and from the free rest of the
        newest block. */
    ghost predicate Valid()
      reads this
    {
      && 0 < blockSize
      && blocks != [] && (forall i :: 0 <= i < |blocks| ==> blocks[i].size == blockSize)
      && Inside(Region(memPtr, avail), blocks[0]) && memPtr + avail == blocks[0].start + blockSize
      && (forall i, j :: 0 <= i < j < |blocks| ==> Apart(blocks[i], blocks[j]))
      && (forall k :: 0 <= k < |small| ==> InSomeBlock(small[k]))
      && (forall k, l :: 0 <= k < l < |small| ==> Apart(small[k], small[l]))
      && (forall k :: 0 <= k < |small| ==> Apart(small[k], Region(memPtr, avail)))
      && (forall i, j :: 0 <= i < |large| && 0 <= j < |blocks| ==> Apart(large[i], blocks[j]))
      && (forall i, j :: 0 <= i < j < |large| ==> Apart(large[i], large[j]))
    }

    ghost predicate InSomeBlock(r: Region)
      reads this
    {
      0 < r.size && exists i :: 0 <= i < |blocks| && Inside(r, blocks[i])
    }

    constructor (blockSize: nat, base: nat)
      requires 0 < blockSize
      ensures Valid() && this.blockSize == blockSize && small == [] && large == []
      ensures blocks == [Region(base, blockSize)]
    {
      this.blockSize := blockSize;
      avail := blockSize;
      memPtr := base;
      blocks := [Region(base, blockSize)];
      large := [];
      small := [];
    }

    /** `get_pointer`: `std::align` moves the pointer up only if the bytes then still fit. */
    method GetPointer(bytes: nat, alignment: nat) returns (p: Option<nat>)
      requires Valid() && 0 < bytes && 0 < alignment
      modifies `avail, `memPtr, `small
      ensures Valid()
      ensures p.Some? <==> old(Padding(memPtr, alignment) + bytes <= avail)
      ensures p.None? ==> avail == old(avail) && memPtr == old(memPtr) && small == old(small)
      ensures p.Some? ==> p.value % alignment == 0 && small == old(small) + [Region(p.value, bytes)]
      ensures p.Some? ==> p.value == old(memPtr + Padding(memPtr, alignment))
    {
      var pad := Padding(memPtr, alignment);
      if avail < pad + bytes { return None; }
      var r := Region(memPtr + pad, bytes);
      assert Inside(r, blocks[0]);
      ghost var was := Region(memPtr, avail);
      assert forall k :: 0 <= k < |small| ==> Apart(small[k], r);
      avail := avail - pad - bytes;
      memPtr := memPtr + pad + bytes;
      small := small + [r];
      assert forall k :: 0 <= k < |small| - 1 ==> Apart(small[k], was);
      p := Some(r.start);
    }

    method NewBlock(mem: nat)
      requires Valid() && IsNew(Region(mem, blockSize), blocks + large)
      modifies `avail, `blocks, `memPtr
      ensures Valid() && avail == blockSize && memPtr == mem
      ensures blocks == [Region(mem, blockSize)] + old(blocks)
    {
      NewIsApart(Region(mem, blockSize));
      avail := blockSize;
      blocks := [Region(mem, blockSize)] + blocks;
      memPtr := mem;
      forall k | 0 <= k < |small| ensures InSomeBlock(small[k]) {
        assert old(InSomeBlock(small[k]));
        var i :| 0 <= i < |old(blocks)| && Inside(small[k], old(blocks)[i]);
        assert blocks[i + 1] == old(blocks)[i];
      }
    }

    /** `do_allocate`.  `mem` is the address that operator new returns in this call, if it is called: a
        block of its own for large requests, else a new block when the request does not fit the rest of
        the newest one. */
    method Allocate(bytes: nat, alignment: nat, mem: nat) returns (p: Result<nat, AllocError>)
      requires Valid() && 0 < alignment
      requires IsNew(Region(mem, if IsLarge(bytes) then bytes else blockSize), blocks + large)
      requires IsLarge(bytes) ==> mem % alignment == 0
      modifies this
      ensures Valid()
      ensures IsLarge(bytes) ==> p == Success(mem) && small == old(small) && large == [Region(mem, bytes)] + old(large)
      ensures !IsLarge(bytes) ==> large == old(large)
      ensures p.Success? ==> p.value % alignment == 0
      ensures p.Success? && !IsLarge(bytes) ==> small == old(small) + [Region(p.value, AtLeastOne(bytes))]
      ensures p.Failure? <==>
                && !IsLarge(bytes)
                && old(avail) < Padding(old(memPtr), alignment) + AtLeastOne(bytes)
                && blockSize < Padding(mem, alignment) + AtLeastOne(bytes)
      ensures p.Failure? ==> small == old(small)
      ensures blocks == if IsLarge(bytes) || old(FitsRest(bytes, alignment)) then old(blocks)
                        else [Region(mem, blockSize)] + old(blocks)
      ensures !IsLarge(bytes) && old(FitsRest(bytes, alignment)) ==>
        p == Success(old(memPtr + Padding(memPtr, alignment)))
      ensures blocks != old(blocks) ==> 16 * old(avail) < 16 * alignment + blockSize
      ensures AtLeastOne(bytes) + alignment - 1 <= blockSize ==> p.Success?
    {
      if bytes > blockSize / 16 {
        NewIsApart(Region(mem, bytes));
        large := [Region(mem, bytes)] + large;
        return Success(mem);
      }
      var size := AtLeastOne(bytes);
      var q := GetPointer(size, alignment);
      if q.Some? { return Success(q.value); }
      NewBlock(mem);
      q := GetPointer(size, alignment);
      if q.Some? { return Success(q.value); }
      p := Failure(BadAlloc);
    }

    lemma NewIsApart(r: Region)
      requires Valid() && IsNew(r, blocks + large)
      ensures forall i :: 0 <= i < |blocks| ==> Apart(r, blocks[i])
      ensures forall i :: 0 <= i < |large| ==> Apart(r, large[i])
      ensures forall k :: 0 <= k < |small| ==> Apart(small[k], r)
    {
      forall i | 0 <= i < |blocks| ensures Apart(r, blocks[i]) {
        assert (blocks + large)[i] == blocks[i];
      }
      forall i | 0 <= i < |large| ensures Apart(r, large[i]) {
        assert (blocks + large)[|blocks| + i] == large[i];
      }
      forall k | 0 <= k < |small| ensures Apart(small[k], r) {
        assert InSomeBlock(small[k]);
      }
    }

    /** More than a sixteenth of a block. */
    predicate IsLarge(bytes: nat)
    {
      16 * bytes > blockSize
    }

    /** The request fits what is left of the newest block. */
    predicate FitsRest(bytes: nat, alignment: nat)
      reads this
      requires 0 < alignment
    {
      Padding(memPtr, alignment) + AtLeastOne(bytes) <= avail
    }
  }

  /** A request for 0 bytes takes one, so that no pointer is returned twice. */
  function AtLeastOne(bytes: nat): nat
  {
    if bytes == 0 then 1 else bytes
  }
}
