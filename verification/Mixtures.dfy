/** What a receiver makes of the fragments of two datagrams.  No call of `bpf_socket.cpp` counts the
    identification up, by which a receiver tells datagrams apart. */
module Mixtures {
  import opened Wrappers
  import opened Checksum
  import opened UdpHeaders
  import opened Fragments
  import opened BpfUdp

  /** Of the first n fragments, those with one identification. */
  function OnlyFirst(arrived: seq<Fragment>, n: nat, id: Word): seq<Fragment>
    requires n <= |arrived|
  {
    if n == 0 then []
    else OnlyFirst(arrived, n - 1, id) + if arrived[n - 1].id == id then [arrived[n - 1]] else []
  }

  lemma {:induction false} OnlyFirstHas(arrived: seq<Fragment>, n: nat, id: Word)
    requires n <= |arrived|
    ensures forall f :: f in OnlyFirst(arrived, n, id) ==> f in arrived && f.id == id
    ensures forall k: nat :: k < n && arrived[k].id == id ==> arrived[k] in OnlyFirst(arrived, n, id)
  {
    if n > 0 { OnlyFirstHas(arrived, n - 1, id); }
  }

  /** The fragments with one identification, as a receiver tells datagrams apart. */
  function Only(arrived: seq<Fragment>, id: Word): (o: seq<Fragment>)
    ensures forall f :: f in o <==> f in arrived && f.id == id
  {
    OnlyFirstHas(arrived, |arrived|, id);
    OnlyFirst(arrived, |arrived|, id)
  }

  lemma {:induction false} OnlyOwnFirst(arrived: seq<Fragment>, n: nat, id: Word)
    requires n <= |arrived| && forall k: nat :: k < n ==> arrived[k].id == id
    ensures OnlyFirst(arrived, n, id) == arrived[..n]
  {
    if n > 0 {
      OnlyOwnFirst(arrived, n - 1, id);
      assert arrived[..n] == arrived[..n - 1] + [arrived[n - 1]];
    }
  }

  lemma OnlyOwn(arrived: seq<Fragment>, id: Word)
    requires forall f :: f in arrived ==> f.id == id
    ensures Only(arrived, id) == arrived
  {
    OnlyOwnFirst(arrived, |arrived|, id);
    assert arrived[..|arrived|] == arrived;
  }

  lemma PiecesHaveId(d: seq<Byte>, max: nat, id: Word, f: Fragment)
    requires d != [] && 0 < max && f in Pieces(d, 0, max, id)
    ensures f.id == id
  {
    var k: nat :| k < |Pieces(d, 0, max, id)| && Pieces(d, 0, max, id)[k] == f;
    PieceAt(d, 0, max, id, k);
  }

  /** With identifications of their own two datagrams do not mix, however their fragments interleave. */
  lemma DistinctIdsDoNotMix(d: seq<Byte>, max: nat, id: Word, d': seq<Byte>, max': nat, id': Word,
                            arrived: seq<Fragment>)
    requires d != [] && 0 < max && d' != [] && 0 < max' && id != id'
    requires forall f :: f in arrived ==> f in Pieces(d, 0, max, id) || f in Pieces(d', 0, max', id')
    ensures Assembled(Only(arrived, id)) == if AllArrived(Pieces(d, 0, max, id), arrived) then Some(d) else None
  {
    forall f | f in Only(arrived, id) ensures f in Pieces(d, 0, max, id) {
      if f in Pieces(d', 0, max', id') { PiecesHaveId(d', max', id', f); }
    }
    forall f | f in Pieces(d, 0, max, id) ensures f in Only(arrived, id) <==> f in arrived {
      PiecesHaveId(d, max, id, f);
    }
    ReassembledIffAllArrived(d, max, id, Only(arrived, id));
  }

  // ----- what one more fragment does

  /** Any datagram that these fragments give is x. */
  ghost predicate Shows(arrived: seq<Fragment>, x: seq<Byte>)
  {
    && (Length(arrived) == None || Length(arrived) == Some(|x|))
    && forall i: nat :: i < |x| && i in Buffer(arrived) ==> Buffer(arrived)[i] == x[i]
  }

  /** What is assembled, byte by byte. */
  lemma AssembledIs(arrived: seq<Fragment>, x: seq<Byte>)
    requires Assembled(arrived) == Some(x)
    ensures Length(arrived) == Some(|x|)
    ensures forall i: nat :: i < |x| ==> i in Buffer(arrived) && Buffer(arrived)[i] == x[i]
  {
    assert x == seq(|x|, i requires 0 <= i < |x| => Buffer(arrived)[i]);
  }

  lemma ShownIsAssembled(arrived: seq<Fragment>, x: seq<Byte>)
    requires Shows(arrived, x)
    ensures Assembled(arrived) == None || Assembled(arrived) == Some(x)
  {
    if Assembled(arrived).Some? {
      var y := Assembled(arrived).value;
      AssembledIs(arrived, y);
      assert y == x;
    }
  }

  lemma OneMore(arrived: seq<Fragment>, f: Fragment, i: nat)
    ensures var b := Buffer(arrived + [f]);
            && (i in b <==> i in Buffer(arrived) || Holds(f, i))
            && (i in b ==> b[i] == if Holds(f, i) then f.data[i - f.offset] else Buffer(arrived)[i])
    ensures Length(arrived + [f]) == if f.more then Length(arrived) else Some(f.offset + |f.data|)
  {
    assert (arrived + [f])[..|arrived|] == arrived;
  }

  /** The fragment turns x into y. */
  ghost predicate Overlays(x: seq<Byte>, f: Fragment, y: seq<Byte>)
  {
    && |y| == (if f.more then |x| else f.offset + |f.data|)
    && (forall i: nat :: i < |y| && Holds(f, i) ==> f.data[i - f.offset] == y[i])
    && (forall i: nat :: i < |y| && !Holds(f, i) ==> i < |x| && x[i] == y[i])
  }

  lemma ShowsNext(arrived: seq<Fragment>, x: seq<Byte>, f: Fragment, y: seq<Byte>)
    requires Shows(arrived, x) && Overlays(x, f, y)
    ensures Shows(arrived + [f], y)
  {
    OneMore(arrived, f, 0);
    forall i: nat | i < |y| && i in Buffer(arrived + [f]) ensures Buffer(arrived + [f])[i] == y[i] {
      OneMore(arrived, f, i);
    }
  }

  lemma AssembledNext(arrived: seq<Fragment>, x: seq<Byte>, f: Fragment, y: seq<Byte>)
    requires Assembled(arrived) == Some(x) && Overlays(x, f, y)
    ensures Assembled(arrived + [f]) == Some(y)
  {
    AssembledIs(arrived, x);
    ShowsNext(arrived, x, f, y);
    OneMore(arrived, f, 0);
    forall i: nat | i < |y| ensures i in Buffer(arrived + [f]) && Buffer(arrived + [f])[i] == y[i] {
      OneMore(arrived, f, i);
    }
    FullBuffer(arrived + [f], y);
  }

  // ----- when two datagrams mix

  ghost predicate OneOf(r: Option<seq<Byte>>, d: seq<Byte>, e: seq<Byte>)
  {
    r == None || r == Some(d) || r == Some(e)
  }

  ghost predicate FromBoth(arrived: seq<Fragment>, p: seq<Fragment>, q: seq<Fragment>)
  {
    forall f :: f in arrived ==> f in p || f in q
  }

  /** Whatever arrives of the two, in any order and number, and whatever identification the receiver
      looks at: it has one of the two or none. */
  ghost predicate NeverMixed(d: seq<Byte>, id: Word, e: seq<Byte>, id': Word, max: nat)
    requires d != [] && e != [] && 0 < max
  {
    forall arrived: seq<Fragment>, i: Word ::
      FromBoth(arrived, Pieces(d, 0, max, id), Pieces(e, 0, max, id')) ==> OneOf(Assembled(Only(arrived, i)), d, e)
  }

  predicate AtMostOneDiffers(p: seq<Fragment>, q: seq<Fragment>)
  {
    |p| == |q| && forall j: nat, k: nat :: j < |p| && k < |p| && p[j] != q[j] && p[k] != q[k] ==> j == k
  }

  /** One is the start of the other, or all their fragments but one are the same. */
  predicate Alike(d: seq<Byte>, e: seq<Byte>, max: nat, id: Word)
    requires d != [] && e != [] && 0 < max
  {
    d <= e || e <= d || AtMostOneDiffers(Pieces(d, 0, max, id), Pieces(e, 0, max, id))
  }

  lemma CutKeeps(x: seq<Byte>, f: Fragment)
    requires CutFrom(f, x)
    ensures Overlays(x, f, x)
  {
  }

  // ----- like datagrams do not mix

  lemma SameCut(d: seq<Byte>, e: seq<Byte>, f: Fragment, i: nat)
    requires CutFrom(f, d) && CutFrom(f, e)
    ensures Holds(f, i) ==> i < |d| && i < |e| && d[i] == e[i]
    ensures !f.more ==> |d| == |e|
  {
    if Holds(f, i) { assert d[i] == f.data[i - f.offset] == e[i]; }
  }

  lemma SamePiece(d: seq<Byte>, e: seq<Byte>, max: nat, id: Word, j: nat, i: nat)
    requires d != [] && e != [] && 0 < max && j < |Pieces(d, 0, max, id)| && j < |Pieces(e, 0, max, id)|
    requires Pieces(d, 0, max, id)[j] == Pieces(e, 0, max, id)[j]
    ensures Holds(Pieces(d, 0, max, id)[j], i) ==> i < |d| && i < |e| && d[i] == e[i]
    ensures !Pieces(d, 0, max, id)[j].more ==> |d| == |e|
  {
    PieceIsCut(d, max, id, j);
    PieceIsCut(e, max, id, j);
    SameCut(d, e, Pieces(d, 0, max, id)[j], i);
  }

  lemma PieceWith(d: seq<Byte>, max: nat, id: Word, i: nat) returns (j: nat)
    requires i < |d| && 0 < max
    ensures j < |Pieces(d, 0, max, id)| && Holds(Pieces(d, 0, max, id)[j], i)
  {
    PiecesCover(d, 0, max, id, i);
    var f :| f in Pieces(d, 0, max, id) && Holds(f, i);
    j :| 0 <= j < |Pieces(d, 0, max, id)| && Pieces(d, 0, max, id)[j] == f;
  }

  /** Where all but the k-th fragments are the same, the k-th is all that is to be told apart. */
  lemma OthersAgree(d: seq<Byte>, e: seq<Byte>, max: nat, id: Word, k: nat, i: nat)
    requires d != [] && e != [] && 0 < max && k < |Pieces(d, 0, max, id)|
    requires AtMostOneDiffers(Pieces(d, 0, max, id), Pieces(e, 0, max, id))
    requires Pieces(d, 0, max, id)[k] != Pieces(e, 0, max, id)[k]
    requires i < |d| && !Holds(Pieces(d, 0, max, id)[k], i)
    ensures i < |e| && d[i] == e[i]
  {
    var j := PieceWith(d, max, id, i);
    SamePiece(d, e, max, id, j, i);
  }

  lemma LastPiece(d: seq<Byte>, max: nat, id: Word) returns (j: nat)
    requires d != [] && 0 < max
    ensures j < |Pieces(d, 0, max, id)| && !Pieces(d, 0, max, id)[j].more
  {
    j := |Pieces(d, 0, max, id)| - 1;
    PieceAt(d, 0, max, id, j);
  }

  lemma LastEnds(d: seq<Byte>, e: seq<Byte>, max: nat, id: Word, k: nat)
    requires d != [] && e != [] && 0 < max && k < |Pieces(d, 0, max, id)|
    requires AtMostOneDiffers(Pieces(d, 0, max, id), Pieces(e, 0, max, id))
    requires Pieces(d, 0, max, id)[k] != Pieces(e, 0, max, id)[k] && Pieces(d, 0, max, id)[k].more
    ensures |d| == |e|
  {
    var j := LastPiece(d, max, id);
    SamePiece(d, e, max, id, j, 0);
  }

  lemma PieceOverlays(d: seq<Byte>, e: seq<Byte>, max: nat, id: Word, k: nat)
    requires d != [] && e != [] && 0 < max && k < |Pieces(d, 0, max, id)|
    requires AtMostOneDiffers(Pieces(d, 0, max, id), Pieces(e, 0, max, id))
    requires Pieces(d, 0, max, id)[k] != Pieces(e, 0, max, id)[k]
    ensures Overlays(e, Pieces(d, 0, max, id)[k], d)
  {
    var f := Pieces(d, 0, max, id)[k];
    PieceIsCut(d, max, id, k);
    if f.more { LastEnds(d, e, max, id, k); }
    forall i: nat | i < |d| && !Holds(f, i) ensures i < |e| && e[i] == d[i] {
      OthersAgree(d, e, max, id, k, i);
    }
  }

  /** With a further fragment of d, what was d stays d, and what was e is e or d. */
  lemma PieceShows(init: seq<Fragment>, d: seq<Byte>, e: seq<Byte>, max: nat, id: Word, f: Fragment)
    requires d != [] && e != [] && 0 < max && f in Pieces(d, 0, max, id)
    requires AtMostOneDiffers(Pieces(d, 0, max, id), Pieces(e, 0, max, id))
    requires Shows(init, d) || Shows(init, e)
    ensures Shows(init + [f], d) || Shows(init + [f], e)
  {
    var k: nat :| k < |Pieces(d, 0, max, id)| && Pieces(d, 0, max, id)[k] == f;
    if Shows(init, d) {
      PieceIsCut(d, max, id, k);
      CutKeeps(d, f);
      ShowsNext(init, d, f, d);
    } else if Pieces(e, 0, max, id)[k] == f {
      PieceIsCut(e, max, id, k);
      CutKeeps(e, f);
      ShowsNext(init, e, f, e);
    } else {
      PieceOverlays(d, e, max, id, k);
      ShowsNext(init, e, f, d);
    }
  }

  lemma SymmetricDifference(p: seq<Fragment>, q: seq<Fragment>)
    requires AtMostOneDiffers(p, q)
    ensures AtMostOneDiffers(q, p)
  {
  }

  lemma {:induction false} OneDifferenceShows(arrived: seq<Fragment>, d: seq<Byte>, e: seq<Byte>, max: nat, id: Word)
    requires d != [] && e != [] && 0 < max
    requires AtMostOneDiffers(Pieces(d, 0, max, id), Pieces(e, 0, max, id))
    requires FromBoth(arrived, Pieces(d, 0, max, id), Pieces(e, 0, max, id))
    ensures Shows(arrived, d) || Shows(arrived, e)
  {
    if arrived != [] {
      var init, f := arrived[..|arrived| - 1], arrived[|arrived| - 1];
      assert arrived == init + [f];
      assert FromBoth(init, Pieces(d, 0, max, id), Pieces(e, 0, max, id));
      OneDifferenceShows(init, d, e, max, id);
      if f in Pieces(d, 0, max, id) {
        PieceShows(init, d, e, max, id, f);
      } else {
        SymmetricDifference(Pieces(d, 0, max, id), Pieces(e, 0, max, id));
        PieceShows(init, e, d, max, id, f);
      }
    }
  }

  lemma {:induction false} LengthIsOneOf(arrived: seq<Fragment>, m: nat, n: nat)
    requires forall f :: f in arrived && !f.more ==> f.offset + |f.data| == m || f.offset + |f.data| == n
    ensures Length(arrived) == None || Length(arrived) == Some(m) || Length(arrived) == Some(n)
  {
    if arrived != [] {
      var init, f := arrived[..|arrived| - 1], arrived[|arrived| - 1];
      assert arrived == init + [f];
      LengthIsOneOf(init, m, n);
    }
  }

  lemma PieceOfPrefix(d: seq<Byte>, e: seq<Byte>, max: nat, id: Word, f: Fragment)
    requires d != [] && d <= e && 0 < max && f in Pieces(d, 0, max, id)
    ensures f.offset + |f.data| <= |e| && f.data == e[f.offset..f.offset + |f.data|]
    ensures !f.more ==> f.offset + |f.data| == |d|
  {
    var k: nat :| k < |Pieces(d, 0, max, id)| && Pieces(d, 0, max, id)[k] == f;
    PieceIsCut(d, max, id, k);
  }

  lemma PrefixShows(arrived: seq<Fragment>, d: seq<Byte>, e: seq<Byte>, max: nat, id: Word)
    requires d != [] && d <= e && 0 < max
    requires FromBoth(arrived, Pieces(d, 0, max, id), Pieces(e, 0, max, id))
    ensures Shows(arrived, d) || Shows(arrived, e)
  {
    forall f | f in arrived
      ensures f.offset + |f.data| <= |e| && f.data == e[f.offset..f.offset + |f.data|]
      ensures !f.more ==> f.offset + |f.data| == |d| || f.offset + |f.data| == |e|
    {
      if f in Pieces(d, 0, max, id) { PieceOfPrefix(d, e, max, id, f); } else { PieceOfPrefix(e, e, max, id, f); }
    }
    LengthIsOneOf(arrived, |d|, |e|);
    forall i: nat | i in Buffer(arrived) ensures i < |e| && Buffer(arrived)[i] == e[i] {
      BufferIsOfDatagram(arrived, e, i);
    }
  }

  lemma AlikeGivesOneOf(arrived: seq<Fragment>, d: seq<Byte>, e: seq<Byte>, max: nat, id: Word)
    requires d != [] && e != [] && 0 < max && Alike(d, e, max, id)
    requires FromBoth(arrived, Pieces(d, 0, max, id), Pieces(e, 0, max, id))
    ensures OneOf(Assembled(arrived), d, e)
  {
    if d <= e {
      PrefixShows(arrived, d, e, max, id);
    } else if e <= d {
      assert FromBoth(arrived, Pieces(e, 0, max, id), Pieces(d, 0, max, id));
      PrefixShows(arrived, e, d, max, id);
    } else {
      OneDifferenceShows(arrived, d, e, max, id);
    }
    if Shows(arrived, d) { ShownIsAssembled(arrived, d); } else { ShownIsAssembled(arrived, e); }
  }

  // ----- unlike datagrams do

  /** The first `cut` bytes of e and then d, as many bytes as d has. */
  function Mixture(e: seq<Byte>, d: seq<Byte>, cut: nat): (x: seq<Byte>)
    requires cut <= |e|
    ensures |x| == |d|
  {
    if cut <= |d| then e[..cut] + d[cut..] else e[..|d|]
  }

  lemma MixtureOverlays(e: seq<Byte>, d: seq<Byte>, from: nat, to: nat, f: Fragment)
    requires from < to <= |e| && f.more && f.offset == from && f.data == e[from..to]
    ensures Overlays(Mixture(e, d, from), f, Mixture(e, d, to))
  {
  }

  lemma FirstPieces(e: seq<Byte>, max: nat, id: Word, k: nat)
    requires e != [] && 0 < max && k + 1 < |Pieces(e, 0, max, id)|
    ensures var f, from, to := Pieces(e, 0, max, id)[k], Start(k, max), Start(k + 1, max);
            from < to < |e| && f.more && f.offset == from && f.data == e[from..to]
  {
    PieceAt(e, 0, max, id, k);
  }

  /** All of d and then the first k fragments of e. */
  lemma {:induction false} FirstOfOther(d: seq<Byte>, e: seq<Byte>, max: nat, id: Word, k: nat)
    requires d != [] && e != [] && 0 < max && k < |Pieces(e, 0, max, id)|
    ensures Start(k, max) < |e|
    ensures Assembled(Pieces(d, 0, max, id) + Pieces(e, 0, max, id)[..k]) == Some(Mixture(e, d, Start(k, max)))
  {
    var p, q := Pieces(d, 0, max, id), Pieces(e, 0, max, id);
    if k == 0 {
      assert p + q[..0] == p;
      assert Mixture(e, d, 0) == d;
      ReassembledIffAllArrived(d, max, id, p);
    } else {
      var j: nat := k - 1;
      FirstOfOther(d, e, max, id, j);
      FirstPieces(e, max, id, j);
      MixtureOverlays(e, d, Start(j, max), Start(k, max), q[j]);
      AssembledNext(p + q[..j], Mixture(e, d, Start(j, max)), q[j], Mixture(e, d, Start(k, max)));
      assert p + q[..k] == (p + q[..j]) + [q[j]];
    }
  }

  lemma BothHaveId(d: seq<Byte>, e: seq<Byte>, max: nat, id: Word, k: nat)
    requires d != [] && e != [] && 0 < max && k < |Pieces(e, 0, max, id)|
    ensures var p, q := Pieces(d, 0, max, id), Pieces(e, 0, max, id);
            FromBoth(p + q[..k], p, q) && Only(p + q[..k], id) == p + q[..k]
  {
    var p, q := Pieces(d, 0, max, id), Pieces(e, 0, max, id);
    forall f | f in p + q[..k] ensures (f in p || f in q) && f.id == id {
      if f in p { PiecesHaveId(d, max, id, f); } else { PiecesHaveId(e, max, id, f); }
    }
    OnlyOwn(p + q[..k], id);
  }

  /** So d and e mix, if this is neither. */
  lemma MixedByFirst(d: seq<Byte>, e: seq<Byte>, max: nat, id: Word, k: nat)
    requires d != [] && e != [] && 0 < max && k < |Pieces(e, 0, max, id)| && Start(k, max) < |e|
    requires Mixture(e, d, Start(k, max)) != d && Mixture(e, d, Start(k, max)) != e
    ensures !NeverMixed(d, id, e, id, max) && !NeverMixed(e, id, d, id, max)
  {
    var p, q := Pieces(d, 0, max, id), Pieces(e, 0, max, id);
    FirstOfOther(d, e, max, id, k);
    BothHaveId(d, e, max, id, k);
    assert !OneOf(Assembled(Only(p + q[..k], id)), d, e);
    assert FromBoth(p + q[..k], q, p);
    assert !OneOf(Assembled(Only(p + q[..k], id)), e, d);
  }

  lemma EndsBefore(d: seq<Byte>, max: nat, id: Word)
    requires d != [] && 0 < max
    ensures |d| <= Start(|Pieces(d, 0, max, id)|, max)
  {
    PieceAt(d, 0, max, id, |Pieces(d, 0, max, id)| - 1);
  }

  lemma FewerPiecesMix(d: seq<Byte>, e: seq<Byte>, max: nat, id: Word)
    requires d != [] && e != [] && 0 < max && |Pieces(d, 0, max, id)| < |Pieces(e, 0, max, id)| && !(d <= e)
    ensures !NeverMixed(d, id, e, id, max) && !NeverMixed(e, id, d, id, max)
  {
    var k := |Pieces(d, 0, max, id)|;
    EndsBefore(d, max, id);
    PieceAt(e, 0, max, id, k);
    assert Mixture(e, d, Start(k, max)) == e[..|d|];
    MixedByFirst(d, e, max, id, k);
  }

  lemma PieceOfTail(d: seq<Byte>, e: seq<Byte>, max: nat, id: Word, k: nat, from: nat)
    requires d != [] && e != [] && 0 < max && |Pieces(d, 0, max, id)| == |Pieces(e, 0, max, id)|
    requires k < |Pieces(d, 0, max, id)| && from == Start(k, max) <= |d| && from <= |e|
    requires d[from..] == e[from..]
    ensures Pieces(d, 0, max, id)[k] == Pieces(e, 0, max, id)[k]
  {
    var f := PieceFrom(d, max, id, k, from);
    var g := PieceFrom(e, max, id, k, from);
    if f.more { HeadOfTail(d, e, from, max); }
  }

  lemma PieceFrom(d: seq<Byte>, max: nat, id: Word, k: nat, from: nat) returns (f: Fragment)
    requires d != [] && 0 < max && k < |Pieces(d, 0, max, id)| && from == Start(k, max)
    ensures f == Pieces(d, 0, max, id)[k] && f.id == id && f.offset == from < |d|
    ensures f.more == (k < |Pieces(d, 0, max, id)| - 1) == (|d| - from > max)
    ensures f.data == if f.more then d[from..from + max] else d[from..]
  {
    PieceAt(d, 0, max, id, k);
    f := Pieces(d, 0, max, id)[k];
  }

  lemma HeadOfTail(d: seq<Byte>, e: seq<Byte>, from: nat, n: nat)
    requires from + n <= |d| && from + n <= |e| && d[from..] == e[from..]
    ensures d[from..from + n] == e[from..from + n]
  {
    assert d[from..from + n] == d[from..][..n] && e[from..from + n] == e[from..][..n];
  }

  lemma TailOfMixture(d: seq<Byte>, e: seq<Byte>, cut: nat)
    requires cut <= |e| && cut <= |d|
    ensures Mixture(e, d, cut) == e ==> d[cut..] == e[cut..]
    ensures Mixture(e, d, cut) == d ==> d[..cut] == e[..cut]
  {
    var x := Mixture(e, d, cut);
    assert x[cut..] == d[cut..] && x[..cut] == e[..cut];
  }

  lemma PieceOfHead(d: seq<Byte>, e: seq<Byte>, max: nat, id: Word, j: nat, cut: nat)
    requires d != [] && e != [] && 0 < max && cut <= |d| && cut <= |e| && d[..cut] == e[..cut]
    requires j + 1 < |Pieces(d, 0, max, id)| && j + 1 < |Pieces(e, 0, max, id)| && Start(j + 1, max) <= cut
    ensures Pieces(d, 0, max, id)[j] == Pieces(e, 0, max, id)[j]
  {
    FirstPieces(d, max, id, j);
    FirstPieces(e, max, id, j);
    PieceAt(d, 0, max, id, j);
    PieceAt(e, 0, max, id, j);
    var from, to := Start(j, max), Start(j + 1, max);
    assert d[from..to] == d[..cut][from..to] && e[from..to] == e[..cut][from..to];
  }

  lemma TwoDifferencesMix(d: seq<Byte>, e: seq<Byte>, max: nat, id: Word, j: nat, k: nat)
    requires d != [] && e != [] && 0 < max && |Pieces(d, 0, max, id)| == |Pieces(e, 0, max, id)|
    requires j < k < |Pieces(d, 0, max, id)|
    requires Pieces(d, 0, max, id)[j] != Pieces(e, 0, max, id)[j]
    requires Pieces(d, 0, max, id)[k] != Pieces(e, 0, max, id)[k]
    ensures !NeverMixed(d, id, e, id, max)
  {
    var cut := Start(k, max);
    PieceAt(d, 0, max, id, k);
    PieceAt(e, 0, max, id, k);
    TailOfMixture(d, e, cut);
    if Mixture(e, d, cut) == e { PieceOfTail(d, e, max, id, k, cut); }
    if Mixture(e, d, cut) == d {
      LaterBlock(max, j, k);
      PieceOfHead(d, e, max, id, j, cut);
    }
    MixedByFirst(d, e, max, id, k);
  }

  lemma UnlikeMix(d: seq<Byte>, e: seq<Byte>, max: nat, id: Word)
    requires d != [] && e != [] && 0 < max && !Alike(d, e, max, id)
    ensures !NeverMixed(d, id, e, id, max)
  {
    var p, q := Pieces(d, 0, max, id), Pieces(e, 0, max, id);
    if |p| < |q| {
      FewerPiecesMix(d, e, max, id);
    } else if |q| < |p| {
      FewerPiecesMix(e, d, max, id);
    } else {
      var j: nat, k: nat :| j < |p| && k < |p| && p[j] != q[j] && p[k] != q[k] && j != k;
      if j < k { TwoDifferencesMix(d, e, max, id, j, k); } else { TwoDifferencesMix(d, e, max, id, k, j); }
    }
  }

  lemma OnlyOthers(arrived: seq<Fragment>, d: seq<Byte>, id: Word, e: seq<Byte>, id': Word, max: nat, i: Word)
    requires d != [] && e != [] && 0 < max && i != id && i != id'
    requires FromBoth(arrived, Pieces(d, 0, max, id), Pieces(e, 0, max, id'))
    ensures Assembled(Only(arrived, i)) == None
  {
    var o := Only(arrived, i);
    if o != [] {
      var f := o[0];
      assert f in arrived && f.id == i;
      if f in Pieces(d, 0, max, id) { PiecesHaveId(d, max, id, f); } else { PiecesHaveId(e, max, id', f); }
    }
  }

  lemma LikeOrDistinct(d: seq<Byte>, id: Word, e: seq<Byte>, id': Word, max: nat, arrived: seq<Fragment>, i: Word)
    requires d != [] && e != [] && 0 < max && (id != id' || Alike(d, e, max, id))
    requires FromBoth(arrived, Pieces(d, 0, max, id), Pieces(e, 0, max, id'))
    ensures OneOf(Assembled(Only(arrived, i)), d, e)
  {
    if i != id && i != id' {
      OnlyOthers(arrived, d, id, e, id', max, i);
    } else if id == id' {
      AlikeGivesOneOf(Only(arrived, i), d, e, max, id);
    } else if i == id {
      DistinctIdsDoNotMix(d, max, id, e, max, id', arrived);
    } else {
      DistinctIdsDoNotMix(e, max, id', d, max, id, arrived);
    }
  }

  /** Two datagrams in fragments of one size never mix exactly when their identifications differ, or one is
      the start of the other, or all their fragments but one are the same. */
  lemma NeverMixedIff(d: seq<Byte>, id: Word, e: seq<Byte>, id': Word, max: nat)
    requires d != [] && e != [] && 0 < max
    ensures NeverMixed(d, id, e, id', max) <==> id != id' || Alike(d, e, max, id)
  {
    if id != id' || Alike(d, e, max, id) {
      forall arrived: seq<Fragment>, i: Word
        | FromBoth(arrived, Pieces(d, 0, max, id), Pieces(e, 0, max, id'))
        ensures OneOf(Assembled(Only(arrived, i)), d, e)
      {
        LikeOrDistinct(d, id, e, id', max, arrived, i);
      }
    } else {
      UnlikeMix(d, e, max, id);
    }
  }

  // ----- the first fragment of one and the others of the other

  lemma {:induction false} SameTail(d: seq<Byte>, e: seq<Byte>, offset: nat, max: nat, id: Word)
    requires |d| == |e| && offset < |d| && 0 < max && d[offset..] == e[offset..]
    ensures Pieces(d, offset, max, id) == Pieces(e, offset, max, id)
    decreases |d| - offset
  {
    if |d| - offset > max {
      HeadOfTail(d, e, offset, max);
      assert d[offset + max..] == d[offset..][max..] && e[offset + max..] == e[offset..][max..];
      SameTail(d, e, offset + max, max, id);
    }
  }

  /** The first `max` bytes of d with what e has behind its own. */
  function Headed(d: seq<Byte>, e: seq<Byte>, max: nat): (x: seq<Byte>)
    requires max <= |d| && max <= |e|
    ensures |x| == |e| && x[..max] == d[..max] && x[max..] == e[max..]
  {
    d[..max] + e[max..]
  }

  /** With one identification, and each fragment arriving once, a receiver assembles a datagram that is d or
      e only if their heads or their tails are the same. */
  lemma SharedIdMixes(d: seq<Byte>, e: seq<Byte>, max: nat, id: Word)
    requires 0 < max < |d| && max < |e|
    ensures var x := Headed(d, e, max);
            && Assembled(Only([Pieces(d, 0, max, id)[0]] + Pieces(e, 0, max, id)[1..], id)) == Some(x)
            && (x == d <==> d[max..] == e[max..]) && (x == e <==> d[..max] == e[..max])
  {
    var x := Headed(d, e, max);
    var arrived := [Pieces(d, 0, max, id)[0]] + Pieces(e, 0, max, id)[1..];
    assert x[0..0 + max] == d[0..0 + max];
    SameTail(x, e, max, max, id);
    assert arrived == Pieces(x, 0, max, id);
    forall f | f in arrived ensures f.id == id { PiecesHaveId(x, max, id, f); }
    OnlyOwn(arrived, id);
    ReassembledIffAllArrived(x, max, id, arrived);
    SplitIsEqual(x, d, max);
    SplitIsEqual(x, e, max);
  }

  lemma SplitIsEqual(x: seq<Byte>, y: seq<Byte>, n: nat)
    requires n <= |x| && n <= |y|
    ensures x == y <==> x[..n] == y[..n] && x[n..] == y[n..]
  {
    assert x == x[..n] + x[n..] && y == y[..n] + y[n..];
  }

  // ----- whether the checksum tells

  lemma {:induction false} AllOnesIff(n: nat)
    requires 0 < n
    ensures Folded(n) == 0xFFFF <==> n % 0xFFFF == 0
  {
    var k: nat :| n == Folded(n) + Times(k);
    ModPlus(Folded(n), k);
  }

  /** A sum of n and x is all ones when folded. */
  predicate Balanced(n: nat, x: nat) { (n + x) % 0xFFFF == 0 }

  predicate Congruent(x: nat, y: nat) { x % 0xFFFF == y % 0xFFFF }

  lemma SumsAgree(n: nat, x: nat, y: nat)
    requires Balanced(n, x)
    ensures Balanced(n, y) <==> Congruent(x, y)
  {
  }

  /** What the sum has before the last part of a datagram. */
  function SumBefore(addrs: seq<Word>, length: Word, words: seq<Word>): (n: nat)
    ensures 0 < n
  {
    Total(addrs) + 17 + length + Total(words)
  }

  lemma FoldsIff(w: seq<Word>, n: nat, x: nat)
    requires 0 < n && Total(w) == n + x
    ensures OnesSum(w) == 0xFFFF <==> Balanced(n, x)
  {
    OnesSumIsFolded(w);
    AllOnesIff(n + x);
  }

  lemma SumOfParts(addrs: seq<Word>, length: Word, a: seq<Byte>, b: seq<Byte>, h: nat)
    requires |a| == 2 * h
    ensures OnesSum(Listed(addrs, 17, length, PaddedWords(a + b))) == 0xFFFF
       <==> Balanced(SumBefore(addrs, length, WordsAt(a, 0, h)), Total(PaddedWords(b)))
  {
    var words, rest := WordsAt(a, 0, h), PaddedWords(b);
    PaddedAfter(a, b, h);
    TotalOfListed(addrs, 17, length, words, rest);
    FoldsIff(Listed(addrs, 17, length, words + rest), SumBefore(addrs, length, words), Total(rest));
  }

  /** The receiver's check for a datagram in two parts, the first with the UDP header. */
  predicate AcceptsParts(addrs: seq<Word>, a: seq<Byte>, b: seq<Byte>, h: nat)
    requires |a| == 2 * h && 4 <= h
  {
    && |a| + |b| <= 65535 && Get16(a, 4) == |a| + |b| && Get16(a, 6) != 0
    && Balanced(SumBefore(addrs, Get16(a, 4), WordsAt(a, 0, h)), Total(PaddedWords(b)))
  }

  lemma AcceptsInParts(addrs: seq<Word>, a: seq<Byte>, b: seq<Byte>, h: nat, d: seq<Byte>)
    requires |a| == 2 * h && 4 <= h && d == a + b
    ensures UdpAccepts(addrs, d) <==> AcceptsParts(addrs, a, b, h)
  {
    WordInFirst(a, b, 4);
    WordInFirst(a, b, 6);
    var length := Get16(a, 4);
    SumOfParts(addrs, length, a, b, h);
    AcceptsIf(addrs, d, length, PaddedWords(d));
  }

  lemma AcceptsIf(addrs: seq<Word>, d: seq<Byte>, length: Word, words: seq<Word>)
    requires 8 <= |d| && length == Get16(d, 4) && words == PaddedWords(d)
    ensures UdpAccepts(addrs, d) <==>
      |d| == length && Get16(d, 6) != 0 && OnesSum(Listed(addrs, 17, length, words)) == 0xFFFF
  {
  }

  /** The checksum does not tell them apart. */
  predicate SameSums(s: seq<Byte>, t: seq<Byte>)
  {
    Congruent(Total(PaddedWords(s)), Total(PaddedWords(t)))
  }

  lemma PartsAcceptedIff(addrs: seq<Word>, a: seq<Byte>, s: seq<Byte>, t: seq<Byte>, h: nat)
    requires |a| == 2 * h && 4 <= h && |a| + |t| <= 65535 && AcceptsParts(addrs, a, s, h)
    ensures AcceptsParts(addrs, a, t, h) <==> |s| == |t| && SameSums(s, t)
  {
    SumsAgree(SumBefore(addrs, Get16(a, 4), WordsAt(a, 0, h)), Total(PaddedWords(s)), Total(PaddedWords(t)));
  }

  /** The mixture has the UDP header of d: it passes the receiver's check exactly when both are as long, and
      the sums of what was exchanged agree modulo 65535. */
  lemma MixtureAcceptedIff(addrs: seq<Word>, d: seq<Byte>, e: seq<Byte>, h: nat, max: nat)
    requires max == 2 * h && 4 <= h && max <= |d| && max <= |e|
    requires UdpAccepts(addrs, d) && |e| <= 65535
    ensures UdpAccepts(addrs, Headed(d, e, max)) <==> |d| == |e| && SameSums(d[max..], e[max..])
  {
    var a, s, t := d[..max], d[max..], e[max..];
    Rejoined(d, max);
    AcceptsInParts(addrs, a, s, h, d);
    AcceptsInParts(addrs, a, t, h, Headed(d, e, max));
    PartsAcceptedIff(addrs, a, s, t, h);
  }

  lemma Rejoined(d: seq<Byte>, n: nat)
    requires n <= |d|
    ensures d == d[..n] + d[n..]
  {
  }

  lemma HalfOfEights(n: nat) returns (h: nat)
    requires n % 8 == 0
    ensures n == 2 * h
  {
    h := 4 * (n / 8);
  }

  // ----- frames of two calls of `send`

  /** A frame of one of the two calls. */
  predicate SentByBoth(arrived: seq<seq<Byte>>, frames: seq<seq<Byte>>, others: seq<seq<Byte>>)
  {
    forall a :: a in arrived ==> a in frames || a in others
  }

  /** What the receiver has, of the frames with identification i. */
  function Received(arrived: seq<seq<Byte>>, i: Word): Option<seq<Byte>>
    requires forall a :: a in arrived ==> Parse(a).Some?
  {
    Assembled(Only(Read(arrived), i))
  }

  lemma FrameIsRead(frames: seq<seq<Byte>>, p: seq<Fragment>, a: seq<Byte>)
    requires |frames| == |p| && ReadAs(frames, p, |p|) && a in frames
    ensures Parse(a).Some? && Parse(a).value in p
  {
    var k: nat :| k < |frames| && frames[k] == a;
    assert IsFrameOf(frames[k], p[k]);
  }

  lemma BothAreRead(arrived: seq<seq<Byte>>, frames: seq<seq<Byte>>, p: seq<Fragment>, others: seq<seq<Byte>>,
                    q: seq<Fragment>)
    requires |frames| == |p| && ReadAs(frames, p, |p|) && |others| == |q| && ReadAs(others, q, |q|)
    requires SentByBoth(arrived, frames, others)
    ensures forall a :: a in arrived ==> Parse(a).Some?
    ensures FromBoth(Read(arrived), p, q)
  {
    forall a | a in arrived ensures Parse(a).Some? && (Parse(a).value in p || Parse(a).value in q) {
      if a in frames { FrameIsRead(frames, p, a); } else { FrameIsRead(others, q, a); }
    }
    forall f | f in Read(arrived) ensures f in p || f in q {
      var k: nat :| k < |arrived| && Read(arrived)[k] == f;
      assert arrived[k] in arrived;
    }
  }

  lemma FrameWith(frames: seq<seq<Byte>>, p: seq<Fragment>, f: Fragment) returns (a: seq<Byte>)
    requires |frames| == |p| && ReadAs(frames, p, |p|) && f in p
    ensures a in frames && Parse(a) == Some(f)
  {
    var k: nat :| k < |p| && p[k] == f;
    assert IsFrameOf(frames[k], p[k]);
    a := frames[k];
  }

  /** Whatever fragments can arrive, arrive in frames. */
  lemma {:induction false} FramesWith(g: seq<Fragment>, frames: seq<seq<Byte>>, p: seq<Fragment>,
                                      others: seq<seq<Byte>>, q: seq<Fragment>) returns (arrived: seq<seq<Byte>>)
    requires |frames| == |p| && ReadAs(frames, p, |p|) && |others| == |q| && ReadAs(others, q, |q|)
    requires FromBoth(g, p, q)
    ensures SentByBoth(arrived, frames, others) && forall a :: a in arrived ==> Parse(a).Some?
    ensures Read(arrived) == g
  {
    if g == [] {
      arrived := [];
    } else {
      var f, a := g[|g| - 1], [];
      assert g == g[..|g| - 1] + [f];
      var init := FramesWith(g[..|g| - 1], frames, p, others, q);
      if f in p { a := FrameWith(frames, p, f); } else { a := FrameWith(others, q, f); }
      arrived := init + [a];
      assert Read(arrived) == g;
    }
  }

  /** Whatever arrives of the frames of two calls, the receiver has one of the two datagrams or none. */
  ghost predicate FramesNeverMix(frames: seq<seq<Byte>>, others: seq<seq<Byte>>, d: seq<Byte>, e: seq<Byte>)
  {
    forall arrived: seq<seq<Byte>>, i: Word :: SentByBoth(arrived, frames, others) ==> Unmixed(arrived, i, d, e)
  }

  ghost predicate Unmixed(arrived: seq<seq<Byte>>, i: Word, d: seq<Byte>, e: seq<Byte>)
  {
    (forall a :: a in arrived ==> Parse(a).Some?) && OneOf(Received(arrived, i), d, e)
  }

  lemma MixedInFrames(d: seq<Byte>, e: seq<Byte>, frames: seq<seq<Byte>>, p: seq<Fragment>, others: seq<seq<Byte>>,
                      q: seq<Fragment>, g: seq<Fragment>, i: Word)
    requires |frames| == |p| && ReadAs(frames, p, |p|) && |others| == |q| && ReadAs(others, q, |q|)
    requires FromBoth(g, p, q) && !OneOf(Assembled(Only(g, i)), d, e)
    ensures !FramesNeverMix(frames, others, d, e)
  {
    var arrived := FramesWith(g, frames, p, others, q);
    assert SentByBoth(arrived, frames, others) && !Unmixed(arrived, i, d, e);
  }

  lemma UnmixedInFrames(d: seq<Byte>, id: Word, e: seq<Byte>, id': Word, max: nat, frames: seq<seq<Byte>>,
                        others: seq<seq<Byte>>, arrived: seq<seq<Byte>>, i: Word)
    requires d != [] && e != [] && 0 < max && (id != id' || Alike(d, e, max, id))
    requires var p := Pieces(d, 0, max, id); |frames| == |p| && ReadAs(frames, p, |p|)
    requires var q := Pieces(e, 0, max, id'); |others| == |q| && ReadAs(others, q, |q|)
    requires SentByBoth(arrived, frames, others)
    ensures Unmixed(arrived, i, d, e)
  {
    BothAreRead(arrived, frames, Pieces(d, 0, max, id), others, Pieces(e, 0, max, id'));
    LikeOrDistinct(d, id, e, id', max, Read(arrived), i);
  }

  /** Two datagrams that are both sent in fragments never mix exactly when their identifications differ, or
      one is the start of the other, or all their fragments but one are the same. */
  lemma FramesNeverMixIff(d: seq<Byte>, id: Word, e: seq<Byte>, id': Word, mtu: nat, frames: seq<seq<Byte>>,
                          others: seq<seq<Byte>>)
    requires 68 <= mtu <= 65535 && mtu - 20 < |d| && mtu - 20 < |e|
    requires |frames| == |Expected(d, mtu, id)| && ReadAs(frames, Expected(d, mtu, id), |frames|)
    requires |others| == |Expected(e, mtu, id')| && ReadAs(others, Expected(e, mtu, id'), |others|)
    ensures FramesNeverMix(frames, others, d, e) <==> id != id' || Alike(d, e, MaxLen(mtu), id)
  {
    var max := MaxLen(mtu);
    if id != id' || Alike(d, e, max, id) {
      forall arrived: seq<seq<Byte>>, i: Word | SentByBoth(arrived, frames, others)
        ensures Unmixed(arrived, i, d, e)
      {
        UnmixedInFrames(d, id, e, id', max, frames, others, arrived, i);
      }
    } else {
      var p, q := Pieces(d, 0, max, id), Pieces(e, 0, max, id');
      UnlikeMix(d, e, max, id);
      var g: seq<Fragment>, i: Word :| FromBoth(g, p, q) && !OneOf(Assembled(Only(g, i)), d, e);
      MixedInFrames(d, e, frames, p, others, q, g, i);
    }
  }

  /** Frames of two calls with one identification: if the first of one arrives with the others of the other,
      the receiver assembles a datagram that is one of the two only if their heads or tails are the same.
      Its check passes exactly when both are as long, with tails of one sum modulo 65535. */
  lemma SharedIdIsMixed(d: seq<Byte>, e: seq<Byte>, mtu: nat, id: Word, frames: seq<seq<Byte>>,
                        others: seq<seq<Byte>>, addrs: seq<Word>)
    requires 68 <= mtu <= 65535 && mtu - 20 < |d| && mtu - 20 < |e| <= 65535 && UdpAccepts(addrs, d)
    requires |frames| == |Expected(d, mtu, id)| && ReadAs(frames, Expected(d, mtu, id), |frames|)
    requires |others| == |Expected(e, mtu, id)| && ReadAs(others, Expected(e, mtu, id), |others|)
    ensures var arrived, max, x := [frames[0]] + others[1..], MaxLen(mtu), Headed(d, e, MaxLen(mtu));
            && (forall a :: a in arrived ==> Parse(a).Some?) && Received(arrived, id) == Some(x)
            && (x == d <==> d[max..] == e[max..]) && (x == e <==> d[..max] == e[..max])
            && (UdpAccepts(addrs, x) <==> |d| == |e| && SameSums(d[max..], e[max..]))
  {
    var max := MaxLen(mtu);
    FirstAndOthers(frames, Expected(d, mtu, id), others, Expected(e, mtu, id));
    SharedIdMixes(d, e, max, id);
    var h := HalfOfEights(max);
    MixtureAcceptedIff(addrs, d, e, h, max);
  }

  lemma AllAreRead(frames: seq<seq<Byte>>, p: seq<Fragment>)
    requires |frames| == |p| && ReadAs(frames, p, |p|)
    ensures forall k: nat :: k < |p| ==> Parse(frames[k]) == Some(p[k])
  {
    forall k: nat | k < |p| ensures Parse(frames[k]) == Some(p[k]) {
      assert IsFrameOf(frames[k], p[k]);
    }
  }

  lemma FirstAndOthers(frames: seq<seq<Byte>>, p: seq<Fragment>, others: seq<seq<Byte>>, q: seq<Fragment>)
    requires 0 < |frames| == |p| && ReadAs(frames, p, |p|) && 0 < |others| == |q| && ReadAs(others, q, |q|)
    ensures forall a :: a in [frames[0]] + others[1..] ==> Parse(a).Some?
    ensures Read([frames[0]] + others[1..]) == [p[0]] + q[1..]
  {
    assert IsFrameOf(frames[0], p[0]);
    AllAreRead(others, q);
    assert forall k: nat :: 1 <= k < |others| ==> ([frames[0]] + others[1..])[k] == others[k];
  }
}
