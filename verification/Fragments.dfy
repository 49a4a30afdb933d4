/** Fragments of a datagram and their reassembly, as section 3.2 of RFC 791 has it. */
module Fragments {
  import opened Wrappers
  import opened Checksum

  /** `offset` counts bytes. */
  datatype Fragment = Fragment(id: Word, offset: nat, more: bool, data: seq<Byte>)

  /** The fragments of d from byte `offset`: all hold `max` bytes, but the last. */
  function Pieces(d: seq<Byte>, offset: nat, max: nat, id: Word): (p: seq<Fragment>)
    requires offset < |d| && 0 < max
    ensures p != []
    decreases |d| - offset
  {
    if |d| - offset > max then
      [Fragment(id, offset, true, d[offset..offset + max])] + Pieces(d, offset + max, max, id)
    else
      [Fragment(id, offset, false, d[offset..])]
  }

  /** Where the k-th fragment starts. */
  function Start(k: nat, max: nat): nat
  {
    if k == 0 then 0 else Start(k - 1, max) + max
  }

  /** The k-th fragment in closed form. */
  lemma {:induction false} PieceAt(d: seq<Byte>, offset: nat, max: nat, id: Word, k: nat)
    requires offset < |d| && 0 < max
    requires k < |Pieces(d, offset, max, id)|
    ensures var from := offset + Start(k, max);
            var f := Pieces(d, offset, max, id)[k];
            && from < |d| && f.id == id && f.offset == from
            && f.more == (k < |Pieces(d, offset, max, id)| - 1)
            && f.more == (|d| - from > max)
            && f.data == if f.more then d[from..from + max] else d[from..]
    decreases k
  {
    if k > 0 {
      var next, j: nat := offset + max, k - 1;
      assert |d| - offset > max;
      PieceAt(d, next, max, id, j);
      assert Pieces(d, offset, max, id)[k] == Pieces(d, next, max, id)[j];
      assert offset + Start(k, max) == next + Start(j, max);
    }
  }

  /** Cut from x, which it ends if it is a last fragment. */
  ghost predicate CutFrom(f: Fragment, x: seq<Byte>)
  {
    && f.offset + |f.data| <= |x| && f.data == x[f.offset..f.offset + |f.data|]
    && (!f.more ==> f.offset + |f.data| == |x|)
  }

  lemma PieceIsCut(d: seq<Byte>, max: nat, id: Word, k: nat)
    requires d != [] && 0 < max && k < |Pieces(d, 0, max, id)|
    ensures CutFrom(Pieces(d, 0, max, id)[k], d)
  {
    PieceAt(d, 0, max, id, k);
  }

  lemma ArrivedAreCut(d: seq<Byte>, max: nat, id: Word, arrived: seq<Fragment>)
    requires d != [] && 0 < max && forall f :: f in arrived ==> f in Pieces(d, 0, max, id)
    ensures forall f :: f in arrived ==> CutFrom(f, d)
  {
    var p := Pieces(d, 0, max, id);
    forall f | f in arrived ensures CutFrom(f, d) {
      var k: nat :| k < |p| && p[k] == f;
      PieceIsCut(d, max, id, k);
    }
  }

  // ----- the receiver

  /** The addressed bytes that have arrived; later arrivals overwrite. */
  function Buffer(arrived: seq<Fragment>): map<nat, Byte>
  {
    if arrived == [] then map[] else
      var f := arrived[|arrived| - 1];
      Buffer(arrived[..|arrived| - 1])
      + map i: nat | i < f.offset + |f.data| && Holds(f, i) :: f.data[i - f.offset]
  }

  /** The length of the datagram, known once a last fragment has arrived. */
  function Length(arrived: seq<Fragment>): Option<nat>
  {
    if arrived == [] then None else
      var f := arrived[|arrived| - 1];
      if !f.more then Some(f.offset + |f.data|) else Length(arrived[..|arrived| - 1])
  }

  function Assembled(arrived: seq<Fragment>): Option<seq<Byte>>
  {
    var length := Length(arrived);
    if length.Some? && forall i: nat :: i < length.value ==> i in Buffer(arrived) then
      Some(seq(length.value, i requires 0 <= i < length.value => Buffer(arrived)[i]))
    else
      None
  }

  predicate Holds(f: Fragment, i: nat)
  {
    f.offset <= i < f.offset + |f.data|
  }

  lemma {:induction false} BufferIsCovered(arrived: seq<Fragment>, i: nat)
    ensures i in Buffer(arrived) <==> exists f :: f in arrived && Holds(f, i)
  {
    if arrived != [] {
      var init, f := arrived[..|arrived| - 1], arrived[|arrived| - 1];
      BufferIsCovered(init, i);
      assert arrived == init + [f];
      assert i in Buffer(arrived) <==> i in Buffer(init) || Holds(f, i);
    }
  }

  /** Bytes that arrived are those of d, when every fragment is cut from d. */
  lemma {:induction false} BufferIsOfDatagram(arrived: seq<Fragment>, d: seq<Byte>, i: nat)
    requires forall f :: f in arrived ==> f.offset + |f.data| <= |d| && f.data == d[f.offset..f.offset + |f.data|]
    requires i in Buffer(arrived)
    ensures i < |d| && Buffer(arrived)[i] == d[i]
  {
    var init, f := arrived[..|arrived| - 1], arrived[|arrived| - 1];
    assert arrived == init + [f];
    assert f in arrived;
    if !Holds(f, i) { BufferIsOfDatagram(init, d, i); }
  }

  lemma {:induction false} LengthFromLast(arrived: seq<Fragment>, n: nat)
    requires forall f :: f in arrived && !f.more ==> f.offset + |f.data| == n
    ensures Length(arrived) == if exists f :: f in arrived && !f.more then Some(n) else None
  {
    if arrived != [] {
      var init, f := arrived[..|arrived| - 1], arrived[|arrived| - 1];
      assert arrived == init + [f];
      LengthFromLast(init, n);
    }
  }

  /** Fragments that hold the same byte are the same. */
  lemma PiecesAreDisjoint(d: seq<Byte>, max: nat, id: Word, j: nat, k: nat, i: nat)
    requires d != [] && 0 < max
    requires j < |Pieces(d, 0, max, id)| && k < |Pieces(d, 0, max, id)|
    requires Holds(Pieces(d, 0, max, id)[j], i) && Holds(Pieces(d, 0, max, id)[k], i)
    ensures j == k
  {
    PieceAt(d, 0, max, id, j);
    PieceAt(d, 0, max, id, k);
    OneBlock(max, j, k, i);
  }

  lemma OneBlock(max: nat, j: nat, k: nat, i: nat)
    requires Start(j, max) <= i < Start(j, max) + max && Start(k, max) <= i < Start(k, max) + max
    ensures j == k
  {
    if j < k {
      LaterBlock(max, j, k);
    } else if k < j {
      LaterBlock(max, k, j);
    }
  }

  lemma {:induction false} LaterBlock(max: nat, j: nat, k: nat)
    requires j < k
    ensures Start(j, max) + max <= Start(k, max)
  {
    if j + 1 < k { LaterBlock(max, j, k - 1); }
  }

  lemma {:induction false} PiecesCover(d: seq<Byte>, offset: nat, max: nat, id: Word, i: nat)
    requires offset <= i < |d| && 0 < max
    ensures exists f :: f in Pieces(d, offset, max, id) && Holds(f, i)
    decreases |d| - offset
  {
    var p := Pieces(d, offset, max, id);
    if i < offset + max || |d| - offset <= max {
      assert p[0] in p && Holds(p[0], i);
    } else {
      PiecesCover(d, offset + max, max, id, i);
      var f :| f in Pieces(d, offset + max, max, id) && Holds(f, i);
      assert f in p;
    }
  }

  predicate AllArrived(sent: seq<Fragment>, arrived: seq<Fragment>)
  {
    forall f :: f in sent ==> f in arrived
  }

  /** In whatever order and however often fragments arrive: the receiver has a datagram exactly when no
      fragment is missing, and then it is the one that was sent. */
  lemma ReassembledIffAllArrived(d: seq<Byte>, max: nat, id: Word, arrived: seq<Fragment>)
    requires d != [] && 0 < max
    requires forall f :: f in arrived ==> f in Pieces(d, 0, max, id)
    ensures Assembled(arrived) == if AllArrived(Pieces(d, 0, max, id), arrived) then Some(d) else None
  {
    var p := Pieces(d, 0, max, id);
    ArrivedAreCut(d, max, id, arrived);
    LengthFromLast(arrived, |d|);
    if AllArrived(p, arrived) {
      AllArrivedAssembles(d, max, id, arrived);
    } else {
      var f :| f in p && f !in arrived;
      var k: nat :| k < |p| && p[k] == f;
      MissingByte(d, max, id, arrived, k);
    }
  }

  /** The first byte of a fragment that did not arrive is missing. */
  lemma MissingByte(d: seq<Byte>, max: nat, id: Word, arrived: seq<Fragment>, k: nat)
    requires d != [] && 0 < max && k < |Pieces(d, 0, max, id)|
    requires forall f :: f in arrived ==> f in Pieces(d, 0, max, id)
    requires Pieces(d, 0, max, id)[k] !in arrived
    ensures var i := Pieces(d, 0, max, id)[k].offset; i < |d| && i !in Buffer(arrived)
  {
    var p := Pieces(d, 0, max, id);
    var i := p[k].offset;
    PieceAt(d, 0, max, id, k);
    assert Holds(p[k], i);
    BufferIsCovered(arrived, i);
    forall g | g in arrived ensures !Holds(g, i) {
      var j: nat :| j < |p| && p[j] == g;
      if Holds(g, i) { PiecesAreDisjoint(d, max, id, j, k, i); }
    }
  }

  lemma AllArrivedAssembles(d: seq<Byte>, max: nat, id: Word, arrived: seq<Fragment>)
    requires d != [] && 0 < max
    requires AllArrived(Pieces(d, 0, max, id), arrived)
    requires forall f :: f in arrived ==> f.offset + |f.data| <= |d| && f.data == d[f.offset..f.offset + |f.data|]
    requires Length(arrived) == if exists f :: f in arrived && !f.more then Some(|d|) else None
    ensures Assembled(arrived) == Some(d)
  {
    var p := Pieces(d, 0, max, id);
    PieceAt(d, 0, max, id, |p| - 1);
    assert p[|p| - 1] in p && !p[|p| - 1].more;
    forall i: nat | i < |d| ensures i in Buffer(arrived) && Buffer(arrived)[i] == d[i] {
      PiecesCover(d, 0, max, id, i);
      BufferIsCovered(arrived, i);
      BufferIsOfDatagram(arrived, d, i);
    }
    FullBuffer(arrived, d);
  }

  lemma FullBuffer(arrived: seq<Fragment>, d: seq<Byte>)
    requires Length(arrived) == Some(|d|)
    requires forall i: nat :: i < |d| ==> i in Buffer(arrived) && Buffer(arrived)[i] == d[i]
    ensures Assembled(arrived) == Some(d)
  {
    assert seq(|d|, i requires 0 <= i < |d| => Buffer(arrived)[i]) == d;
  }

  // ----- frames on the wire

  /** What a receiver reads from an Ethernet frame without VLAN and with a 20-byte IPv4 header: only frames
      whose header verifies, and only as many bytes as the header says. */
  function Parse(frame: seq<Byte>): Option<Fragment>
  {
    if |frame| < 34 || Get16(frame, 12) != 0x0800 || frame[14] != 0x45 then None
    else
      var length: nat, flags: nat := Get16(frame, 16), Get16(frame, 20);
      if length < 20 || 14 + length > |frame| || OnesSum(WordsAt(frame, 14, 10)) != 0xFFFF then None
      else Some(Fragment(Get16(frame, 18), flags % 0x2000 * 8, flags / 0x2000 % 2 == 1, frame[34..14 + length]))
  }

  function Parsed(frames: seq<seq<Byte>>): (p: seq<Option<Fragment>>)
    ensures |p| == |frames|
    ensures forall k: nat :: k < |p| ==> p[k] == Parse(frames[k])
  {
    seq(|frames|, k requires 0 <= k < |frames| => Parse(frames[k]))
  }

  /** A frame as the words of its header. */
  lemma ParseHeader(hdr: seq<Byte>, w: seq<Word>, data: seq<Byte>)
    requires 34 <= |hdr| && |w| >= 17 && WordsAt(hdr, 0, 17) == w[..17]
    requires w[6] == 0x0800 && w[7] == 0x4500 && w[8] == 20 + |data|
    requires OnesSum(w[7..17]) == 0xFFFF
    ensures Parse(hdr[..34] + data)
         == Some(Fragment(w[9], w[10] as nat % 0x2000 * 8, w[10] as nat / 0x2000 % 2 == 1, data))
  {
    var frame := hdr[..34] + data;
    forall k: nat | k < 17 ensures Get16(frame, 2 * k) == w[k] {
      assert Get16(hdr, 2 * k) == WordsAt(hdr, 0, 17)[k] == w[..17][k];
    }
    assert WordsAt(frame, 14, 10) == w[7..17];
    assert Get16(frame, 2 * 6) == w[6] && Get16(frame, 2 * 7) == w[7] && Get16(frame, 2 * 8) == w[8];
    assert Get16(frame, 2 * 9) == w[9] && Get16(frame, 2 * 10) == w[10];
    assert frame[34..14 + w[8] as nat] == data;
  }
}
