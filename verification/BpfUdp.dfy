/** `l2_udp_packet` and the sending of datagrams, in fragments where needed, of `bpf_socket.cpp`. */
module BpfUdp {
  import opened Wrappers
  import opened Checksum
  import opened UdpHeaders
  import opened Fragments

  const IP_WORD := 7

  predicate Framed(w: seq<Word>)
  {
    |w| == 21 && w[6] == 0x0800 && w[7] == 0x4500 && w[11] == 0x0111
  }

  /** The header with the part of the payload that follows it in a frame. */
  datatype View = View(hdrSize: nat, payloadLen: nat)

  /** The flags and the offset field of a fragment from byte `offset` of the datagram. */
  function FlagsOf(offset: nat, more: bool): (f: Word)
    requires offset < 65536
  {
    offset / 8 + if more then 0x2000 else 0
  }

  function RoundedTo8(n: nat): (r: nat)
    ensures r <= n < r + 8 && r % 8 == 0
  {
    n - n % 8
  }

  /** The data a full fragment holds. */
  function MaxLen(mtu: nat): (r: nat)
    requires 68 <= mtu <= 65535
    ensures 48 <= r <= mtu - 20 && r % 8 == 0
  {
    RoundedTo8(mtu - 20)
  }

  lemma FirstLen(mtu: nat)
    requires 68 <= mtu <= 65535
    ensures RoundedTo8(mtu - 28) == MaxLen(mtu) - 8
  {
    assert mtu - 20 == mtu - 28 + 8;
  }

  class Packet {
    var hdr: seq<Byte>
    var id: Word

    /** The words of the header. */
    ghost function Now(): (w: seq<Word>)
      reads this
      requires |hdr| == 42
      ensures |w| == 21
    {
      WordsAt(hdr, 0, 21)
    }

    ghost predicate Valid()
      reads this
    {
      |hdr| == 42 && Framed(Now())
    }

    constructor ()
      ensures Valid() && id == 0
      ensures Now() == Template(Ends([0, 0, 0], [0, 0, 0], [0, 0], [0, 0], 0, 0), 1)
    {
      var zeros: seq<Byte> := seq(42, _ => 0);
      hdr := Put16(zeros, 12, 0x0800)[14 := 0x45][15 := 0][22 := 1][23 := 17];
      id := 0;
    }

    method Write16(at: nat, v: Word)
      requires |hdr| == 42 && at % 2 == 0 && at < 42
      modifies `hdr
      ensures |hdr| == 42 && Now() == old(Now())[at / 2 := v]
    {
      PutWord(hdr, at / 2, v);
      hdr := Put16(hdr, at, v);
    }

    /** `write_src_mac`, `write_dest_mac`: six bytes, as three words. */
    method WriteMac(at: nat, mac: seq<Word>)
      requires |hdr| == 42 && |mac| == 3 && (at == 0 || at == 6)
      modifies `hdr
      ensures |hdr| == 42 && Now() == old(Now())[..at / 2] + mac + old(Now())[at / 2 + 3..]
    {
      Write16(at, mac[0]);
      Write16(at + 2, mac[1]);
      Write16(at + 4, mac[2]);
    }

    /** `write_src_ip`, `write_dest_ip`: an address of two words, and a port. */
    method WriteIp(at: nat, addr: seq<Word>, portAt: nat, port: Word)
      requires |hdr| == 42 && |addr| == 2 && ((at == 26 && portAt == 34) || (at == 30 && portAt == 36))
      modifies `hdr
      ensures |hdr| == 42
      ensures Now() == old(Now())[at / 2 := addr[0]][at / 2 + 1 := addr[1]][portAt / 2 := port]
    {
      Write16(at, addr[0]);
      Write16(at + 2, addr[1]);
      Write16(portAt, port);
    }

    method SealIpHeader()
      requires |hdr| == 42
      modifies `hdr
      ensures |hdr| == 42 && Now() == old(Now())[12 := IpCheck(old(Now()), IP_WORD)]
    {
      Write16(24, 0);
      var c := Ipv4Sum(hdr, 14, 10);
      IpWordsInMemory(hdr, IP_WORD);
      Write16(24, c);
    }

    method SealUdpHeader(payload: seq<Byte>)
      requires |hdr| == 42 && |payload| <= MAX_PAYLOAD && Now()[19] == |payload| + 8
      modifies `hdr
      ensures |hdr| == 42 && Now() == old(Now())[20 := UdpCheck(old(Now()), IP_WORD, PaddedWords(payload))]
    {
      ghost var w := Now();
      Write16(40, 0);
      ghost var z := Now();
      var c := UdpSumOf(hdr, z, IP_WORD, payload, |payload| + 8);
      assert z[20 := 0] == w[20 := 0];
      Write16(40, c);
      assert Now() == w[20 := c];
    }

    /** What both forms of `get_header` write for a datagram or its first fragment. */
    method Lay(length: Word, flags: Word, payload: seq<Byte>)
      requires Valid() && |payload| <= MAX_PAYLOAD
      modifies `hdr
      ensures Valid() && IsHeader(Now(), old(Now()), IP_WORD, length, id, flags)
      ensures HasUdp(Now(), IP_WORD, |payload| + 8, PaddedWords(payload))
    {
      ghost var w := Now();
      Write16(16, length);
      Write16(18, id);
      Write16(20, flags);
      ghost var h := Now();
      SealIpHeader();
      ghost var s := Now();
      Write16(38, |payload| + 8);
      ghost var u := Now();
      SealUdpHeader(payload);
      LaidParts(h, s, u, Now(), |payload| + 8, PaddedWords(payload));
    }

    /** `get_header` of an unfragmented datagram. */
    method GetHeader(payload: seq<Byte>) returns (v: View)
      requires Valid() && |payload| <= MAX_PAYLOAD
      modifies `hdr
      ensures Valid() && v == View(42, |payload|)
      ensures IsHeader(Now(), old(Now()), IP_WORD, (|payload| + 28) % 0x1_0000, id, 0)
      ensures HasUdp(Now(), IP_WORD, |payload| + 8, PaddedWords(payload))
    {
      Lay((|payload| + 28) % 0x1_0000, 0, payload);
      v := View(42, |payload|);
    }

    /** `get_header` of the fragment at `offset`. */
    method GetFragment(payload: seq<Byte>, offset: nat, mtu: nat) returns (v: View)
      requires Valid() && 68 <= mtu <= 65535 && mtu - 28 < |payload| <= MAX_PAYLOAD
      requires offset < |payload| && offset % 8 == 0
      modifies `hdr
      ensures Valid()
      ensures offset == 0 ==>
        && v == View(42, MaxLen(mtu) - 8)
        && IsHeader(Now(), old(Now()), IP_WORD, v.payloadLen + 28, id, 0x2000)
        && HasUdp(Now(), IP_WORD, |payload| + 8, PaddedWords(payload))
      ensures offset != 0 ==>
        var rest := |payload| - offset;
        var flags := FlagsOf(offset + 8, rest > MaxLen(mtu));
        && v == View(34, if rest > MaxLen(mtu) then MaxLen(mtu) else rest)
        && IsHeader(Now(), old(Now()), IP_WORD, v.payloadLen + 20, old(Now())[9], flags)
    {
      if offset == 0 {
        v := GetFirst(payload, mtu);
      } else {
        v := GetNext(payload, offset, mtu);
      }
    }

    /** Lines 211 to 241. */
    method GetFirst(payload: seq<Byte>, mtu: nat) returns (v: View)
      requires Valid() && 68 <= mtu <= 65535 && |payload| <= MAX_PAYLOAD
      modifies `hdr
      ensures Valid() && v == View(42, MaxLen(mtu) - 8)
      ensures IsHeader(Now(), old(Now()), IP_WORD, v.payloadLen + 28, id, 0x2000)
      ensures HasUdp(Now(), IP_WORD, |payload| + 8, PaddedWords(payload))
    {
      var len := RoundedTo8(mtu - 28);
      assert len == MaxLen(mtu) - 8 by { FirstLen(mtu); }
      Lay(len + 28, 0x2000, payload);
      v := View(42, len);
    }

    /** Lines 247 to 271. */
    method GetNext(payload: seq<Byte>, offset: nat, mtu: nat) returns (v: View)
      requires Valid() && 68 <= mtu <= 65535
      requires 0 < offset < |payload| <= MAX_PAYLOAD && offset % 8 == 0
      modifies `hdr
      ensures Valid()
      ensures var rest := |payload| - offset;
              && v == View(34, if rest > MaxLen(mtu) then MaxLen(mtu) else rest)
              && IsHeader(Now(), old(Now()), IP_WORD, v.payloadLen + 20, old(Now())[9],
                          FlagsOf(offset + 8, rest > MaxLen(mtu)))
    {
      var len, flags := 0, 0;
      var max := RoundedTo8(mtu - 20);
      if |payload| - offset > max {
        len, flags := max, 0x2000;
      } else {
        len := |payload| - offset;
      }
      Write16(16, len + 20);
      assert (offset + 8) / 8 < 0x2000;   // so `|` is `+`
      Write16(20, flags + (offset + 8) / 8);
      ghost var h := Now();
      SealIpHeader();
      SealedIp(h, Now());
      v := View(34, len);
    }
  }

  /** The IPv4 checksum is that of the sealed header too. */
  lemma SealedIp(h: seq<Word>, s: seq<Word>)
    requires |h| == 21 && s == h[12 := IpCheck(h, IP_WORD)]
    ensures s[12] == IpCheck(s, IP_WORD)
  {
    assert s[12 := 0] == h[12 := 0];
  }

  lemma LaidParts(h: seq<Word>, s: seq<Word>, u: seq<Word>, l: seq<Word>, n: Word, pad: seq<Word>)
    requires |h| == 21 && s == h[12 := IpCheck(h, IP_WORD)] && u == s[19 := n]
    requires l == u[20 := UdpCheck(u, IP_WORD, pad)]
    ensures |l| == 21 && l[12] == IpCheck(l, IP_WORD) && HasUdp(l, IP_WORD, n, pad)
  {
    assert IpWords(l[12 := 0], IP_WORD) == IpWords(h[12 := 0], IP_WORD);
    assert l[20 := 0] == u[20 := 0];
  }

  // ----- sending

  /** The bytes of words, in network order. */
  function Bytes(w: seq<Word>): (b: seq<Byte>)
    ensures |b| == 2 * |w|
  {
    if w == [] then [] else Bytes(w[..|w| - 1]) + [w[|w| - 1] as nat / 0x100, w[|w| - 1] as nat % 0x100]
  }

  lemma {:induction false} BytesOfWords(b: seq<Byte>, at: nat, n: nat)
    requires at + 2 * n <= |b|
    ensures Bytes(WordsAt(b, at, n)) == b[at..at + 2 * n]
  {
    if n > 0 {
      var m: nat, last: nat := n - 1, at + 2 * (n - 1);
      BytesOfWords(b, at, m);
      WordsNext(b, at, n, m, last);
      WordBytes(b, last);
      assert b[at..last + 2] == b[at..last] + b[last..last + 2];
    }
  }

  lemma WordsNext(b: seq<Byte>, at: nat, n: nat, m: nat, last: nat)
    requires n == m + 1 && last == at + 2 * m && last + 2 <= |b|
    ensures WordsAt(b, at, n)[..m] == WordsAt(b, at, m) && WordsAt(b, at, n)[m] == Get16(b, last)
  {
  }

  lemma WordBytes(b: seq<Byte>, at: nat)
    requires at + 2 <= |b|
    ensures [Get16(b, at) as nat / 0x100, Get16(b, at) as nat % 0x100] == b[at..at + 2]
  {
  }

  lemma {:induction false} WordsOfBytes(w: seq<Word>)
    ensures WordsAt(Bytes(w), 0, |w|) == w
  {
    if w != [] {
      var init := w[..|w| - 1];
      WordsOfBytes(init);
      var b := Bytes(w);
      assert b[..2 * |init|] == Bytes(init);
      forall k: nat | k < |init| ensures Get16(b, 2 * k) == w[k] {
        assert Get16(b, 2 * k) == Get16(Bytes(init), 2 * k) == WordsAt(Bytes(init), 0, |init|)[k];
      }
    }
  }

  /** The UDP header that goes with the addresses in w. */
  function UdpHeader(w: seq<Word>, length: Word, pad: seq<Word>): (u: seq<Word>)
    requires |w| == 21
    ensures |u| == 4
  {
    [w[17], w[18], length, UdpCheck(w[19 := length], IP_WORD, pad)]
  }

  /** The datagram to send: UDP header and payload. */
  function DatagramOf(w: seq<Word>, payload: seq<Byte>): (d: seq<Byte>)
    requires |w| == 21 && |payload| <= MAX_PAYLOAD
    ensures |d| == |payload| + 8
  {
    Bytes(UdpHeader(w, |payload| + 8, PaddedWords(payload))) + payload
  }

  /** The fragments of a datagram d, its UDP header included; one, if it fits. */
  function Expected(d: seq<Byte>, mtu: nat, id: Word): (p: seq<Fragment>)
    requires 8 <= |d| && 68 <= mtu <= 65535
    ensures p != []
  {
    Pieces(d, 0, PieceSize(|d|, mtu), id)
  }

  function PieceSize(n: nat, mtu: nat): (max: nat)
    requires 8 <= n && 68 <= mtu <= 65535
    ensures 8 <= max <= mtu - 20
  {
    if n <= mtu - 20 then n else MaxLen(mtu)
  }

  /** What a receiver asks of a datagram with its UDP header, given the addresses of the IPv4 header. */
  predicate UdpAccepts(addrs: seq<Word>, d: seq<Byte>)
  {
    && 8 <= |d| <= 65535
    && Get16(d, 4) == |d|
    && Get16(d, 6) != 0
    && OnesSum(Listed(addrs, 17, |d|, PaddedWords(d))) == 0xFFFF
  }

  lemma UdpHeaderVerifies(w: seq<Word>, length: Word, pad: seq<Word>)
    requires |w| == 21 && w[11] == 0x0111
    ensures var u := UdpHeader(w, length, pad);
            u[3] != 0 && OnesSum(Listed(w[13..17], 17, length, u + pad)) == 0xFFFF
  {
    var v: seq<Word> := w[19 := length];
    var h := v[20 := UdpCheck(v, IP_WORD, pad)];
    assert h[20 := 0] == v[20 := 0];
    UdpVerifies(h, IP_WORD, pad);
    HeaderParts(w, length, UdpCheck(v, IP_WORD, pad));
  }

  lemma HeaderParts(w: seq<Word>, n: Word, c: Word)
    requires |w| == 21
    ensures var h := w[19 := n][20 := c];
            h[13..17] == w[13..17] && h[17..21] == [w[17], w[18], n, c]
  {
  }

  /** The UDP checksum holds for the whole datagram. */
  lemma DatagramAccepted(w: seq<Word>, payload: seq<Byte>)
    requires |w| == 21 && w[11] == 0x0111 && |payload| <= MAX_PAYLOAD
    ensures UdpAccepts(w[13..17], DatagramOf(w, payload))
  {
    var pad := PaddedWords(payload);
    var u := UdpHeader(w, |payload| + 8, pad);
    UdpHeaderVerifies(w, |payload| + 8, pad);
    WordsOfBytes(u);
    PaddedAfter(Bytes(u), payload, 4);
    FieldsAfter(u, payload);
  }

  lemma FieldsAfter(u: seq<Word>, payload: seq<Byte>)
    requires |u| == 4 && WordsAt(Bytes(u), 0, 4) == u
    ensures Get16(Bytes(u) + payload, 4) == u[2] && Get16(Bytes(u) + payload, 6) == u[3]
  {
    assert WordsAt(Bytes(u), 0, 4)[2] == Get16(Bytes(u), 4) && WordsAt(Bytes(u), 0, 4)[3] == Get16(Bytes(u), 6);
  }

  lemma WordInFirst(a: seq<Byte>, b: seq<Byte>, at: nat)
    requires at + 2 <= |a|
    ensures Get16(a + b, at) == Get16(a, at)
  {
    var d := a + b;
    assert d[at] == a[at] && d[at + 1] == a[at + 1];
  }

  lemma WordInSecond(a: seq<Byte>, b: seq<Byte>, at: nat, k: nat)
    requires at == |a| + k && k + 2 <= |b|
    ensures Get16(a + b, at) == Get16(b, k)
  {
    var d := a + b;
    assert d[at] == b[k] && d[at + 1] == b[k + 1];
  }

  lemma JoinedWords(a: seq<Byte>, b: seq<Byte>, h: nat, n: nat)
    requires |a| == 2 * h && 2 * n <= |b|
    ensures WordsAt(a + b, 0, h + n) == WordsAt(a, 0, h) + WordsAt(b, 0, n)
  {
    forall k: nat | k < h ensures Get16(a + b, 2 * k) == Get16(a, 2 * k) { WordInFirst(a, b, 2 * k); }
    forall k: nat | k < n ensures Get16(a + b, 2 * (h + k)) == Get16(b, 2 * k) {
      WordInSecond(a, b, 2 * (h + k), 2 * k);
    }
    var l := WordsAt(a, 0, h) + WordsAt(b, 0, n);
    forall k: nat | k < h + n ensures WordsAt(a + b, 0, h + n)[k] == l[k] {
      if h <= k { assert k == h + (k - h); }
    }
  }

  lemma PaddedAs(d: seq<Byte>, n: nat)
    requires n == |d| / 2
    ensures PaddedWords(d) == if |d| % 2 == 0 then WordsAt(d, 0, n) else WordsAt(d, 0, n) + [d[|d| - 1] as nat * 0x100]
  {
  }

  lemma PaddedAfter(a: seq<Byte>, b: seq<Byte>, h: nat)
    requires |a| == 2 * h
    ensures PaddedWords(a + b) == WordsAt(a, 0, h) + PaddedWords(b)
  {
    var n: nat := |b| / 2;
    var m: nat := h + n;
    HalfLength(h, |b|, |a + b|);
    PaddedAs(b, n);
    PaddedAs(a + b, m);
    JoinedWords(a, b, h, n);
  }

  lemma HalfLength(h: nat, n: nat, m: nat)
    requires m == 2 * h + n
    ensures m / 2 == h + n / 2 && m % 2 == n % 2
  {
  }

  // ----- frames

  lemma EndsStay(a: seq<Word>, b: seq<Word>, c: seq<Word>)
    requires |a| == |b| == |c| == 21 && SameEnds(b, a, IP_WORD) && SameEnds(c, b, IP_WORD)
    ensures SameEnds(c, a, IP_WORD)
  {
  }

  lemma UdpPart(l: seq<Word>, w: seq<Word>, length: Word, pad: seq<Word>)
    requires |l| == |w| == 21 && SameEnds(l, w, IP_WORD) && HasUdp(l, IP_WORD, length, pad)
    ensures l[17..21] == UdpHeader(w, length, pad)
  {
    UdpCheckOnEnds(l, w[19 := length], IP_WORD, pad);
  }

  /** No offset reaches the flag bits. */
  lemma FlagBits(offset: nat, more: bool)
    requires offset % 8 == 0 && offset < 65536
    ensures var flags: nat := FlagsOf(offset, more);
            flags % 0x2000 * 8 == offset && (flags / 0x2000 % 2 == 1 <==> more)
  {
  }

  /** A frame with the headers of l, which a receiver reads back. */
  lemma FrameIsRead(hdr: seq<Byte>, l: seq<Word>, offset: nat, more: bool, data: seq<Byte>)
    requires |hdr| == 42 && l == WordsAt(hdr, 0, 21) && Framed(l) && OnesSum(IpWords(l, IP_WORD)) == 0xFFFF
    requires offset % 8 == 0 && offset < 65536
    requires l[8] == 20 + |data| && l[10] == FlagsOf(offset, more)
    ensures Parse(hdr[..34] + data) == Some(Fragment(l[9], offset, more, data))
  {
    assert WordsAt(hdr, 0, 17) == l[..17];
    ParseHeader(hdr, l, data);
    FlagBits(offset, more);
  }

  lemma FirstIsRead(hdr: seq<Byte>, l: seq<Word>, w: seq<Word>, more: bool, payload: seq<Byte>, len: nat)
    requires |hdr| == 42 && l == WordsAt(hdr, 0, 21) && Framed(l) && OnesSum(IpWords(l, IP_WORD)) == 0xFFFF
    requires |w| == 21 && |payload| <= MAX_PAYLOAD && len <= |payload|
    requires l[8] == 28 + len && l[10] == FlagsOf(0, more)
    requires l[17..21] == UdpHeader(w, |payload| + 8, PaddedWords(payload))
    ensures Parse(hdr[..42] + payload[0..len])
         == Some(Fragment(l[9], 0, more, DatagramOf(w, payload)[0..8 + len]))
  {
    var d := DatagramOf(w, payload);
    assert WordsAt(hdr, 34, 4) == l[17..21] by { SliceInMemory(hdr, 17, 4, 21); }
    assert hdr[34..42] == Bytes(l[17..21]) by { BytesOfWords(hdr, 34, 4); }
    FrameIsRead(hdr, l, 0, more, d[0..8 + len]);
    SplitFrame(hdr, l[17..21], payload, len);
  }

  lemma SplitFrame(hdr: seq<Byte>, u: seq<Word>, payload: seq<Byte>, len: nat)
    requires |hdr| == 42 && |u| == 4 && hdr[34..42] == Bytes(u) && len <= |payload|
    ensures hdr[..42] + payload[0..len] == hdr[..34] + (Bytes(u) + payload)[0..8 + len]
  {
    assert (Bytes(u) + payload)[0..8 + len] == Bytes(u) + payload[0..len];
    assert hdr[..42] == hdr[..34] + hdr[34..42];
  }

  /** A receiver reads f from the frame, and nothing is left over. */
  predicate IsFrameOf(frame: seq<Byte>, f: Fragment)
  {
    Parse(frame) == Some(f) && |frame| == 34 + |f.data|
  }

  /** The frame holds bytes `at` to `end` of d, at most `max`. */
  ghost predicate Carries(frame: seq<Byte>, id: Word, d: seq<Byte>, at: nat, max: nat, end: nat)
  {
    && at <= end <= |d|
    && IsFrameOf(frame, Fragment(id, at, |d| - at > max, d[at..end]))
  }

  /** The first fragment, as made from the header before. */
  lemma FirstMade(hdr: seq<Byte>, w: seq<Word>, id: Word, data: seq<Byte>, len: nat, max: nat)
    requires |hdr| == 42 && Framed(w) && len + 8 == max < |data| + 8 && |data| <= MAX_PAYLOAD
    requires var l := WordsAt(hdr, 0, 21);
             && IsHeader(l, w, IP_WORD, len + 28, id, 0x2000)
             && HasUdp(l, IP_WORD, |data| + 8, PaddedWords(data))
    ensures Carries(hdr[..42] + data[0..len], id, DatagramOf(w, data), 0, max, max)
  {
    var l := WordsAt(hdr, 0, 21);
    IpVerifies(l, IP_WORD);
    UdpPart(l, w, |data| + 8, PaddedWords(data));
    FirstIsRead(hdr, l, w, true, data, len);
  }

  /** A later fragment, as made from the header before. */
  lemma NextMade(hdr: seq<Byte>, before: seq<Word>, w: seq<Word>, data: seq<Byte>, offset: nat, len: nat, max: nat,
                 at: nat, end: nat)
    requires |hdr| == 42 && Framed(before) && |w| == 21 && |data| <= MAX_PAYLOAD
    requires offset % 8 == 0 && offset + len <= |data| && len <= 65515 && at == offset + 8 && end == at + len
    requires var flags := FlagsOf(offset + 8, |data| - offset > max);
             IsHeader(WordsAt(hdr, 0, 21), before, IP_WORD, len + 20, before[9], flags)
    ensures Carries(hdr[..34] + data[offset..offset + len], before[9], DatagramOf(w, data), at, max, end)
  {
    var l := WordsAt(hdr, 0, 21);
    var more := |data| - offset > max;
    IpVerifies(l, IP_WORD);
    NextUnit(offset);
    FrameIsRead(hdr, l, at, more, data[offset..offset + len]);
    assert DatagramOf(w, data)[at..end] == data[offset..offset + len] by {
      SlicePast(Bytes(UdpHeader(w, |data| + 8, PaddedWords(data))), data, offset, len, at, end);
    }
  }

  lemma NextUnit(offset: nat)
    requires offset % 8 == 0
    ensures (offset + 8) % 8 == 0
    ensures offset < 65536 ==> offset + 8 <= 65536
  {
  }

  lemma SlicePast(u: seq<Byte>, data: seq<Byte>, offset: nat, len: nat, at: nat, end: nat)
    requires |u| == 8 && offset + len <= |data| && at == offset + 8 && end == at + len
    ensures (u + data)[at..end] == data[offset..offset + len]
  {
  }

  // ----- fragments sent

  /** Whether the first n frames are read by a receiver as the first n fragments. */
  predicate ReadAs(frames: seq<seq<Byte>>, p: seq<Fragment>, n: nat)
    requires n <= |frames| && n <= |p|
  {
    forall k: nat :: k < n ==> IsFrameOf(frames[k], p[k])
  }

  /** What is left to send from byte `offset` of d. */
  function Left(d: seq<Byte>, offset: nat, max: nat, id: Word): seq<Fragment>
    requires 0 < max
  {
    if offset < |d| then Pieces(d, offset, max, id) else []
  }

  /** The frames carry d up to byte `offset`. */
  ghost predicate SentUpTo(frames: seq<seq<Byte>>, d: seq<Byte>, offset: nat, max: nat, id: Word)
    requires d != [] && 0 < max
  {
    var p := Pieces(d, 0, max, id);
    |frames| <= |p| && ReadAs(frames, p, |frames|) && p[|frames|..] == Left(d, offset, max, id)
  }

  function Least(x: nat, y: nat): nat { if x <= y then x else y }

  /** One more frame, with the next fragment. */
  lemma SentStep(frames: seq<seq<Byte>>, frame: seq<Byte>, d: seq<Byte>, offset: nat, max: nat, id: Word, end: nat)
    requires offset < |d| && 0 < max && SentUpTo(frames, d, offset, max, id)
    requires end == Least(offset + max, |d|) && Carries(frame, id, d, offset, max, end)
    ensures |frames| < |Pieces(d, 0, max, id)|
    ensures SentUpTo(frames + [frame], d, end, max, id)
  {
    var p := Pieces(d, 0, max, id);
    var l := Left(d, offset, max, id);
    assert l == Pieces(d, offset, max, id) && l[0] == p[|frames|];
    assert l[1..] == Left(d, end, max, id);
    assert p[|frames| + 1..] == p[|frames|..][1..];
    assert end == |d| ==> d[offset..end] == d[offset..];
    assert IsFrameOf(frame, p[|frames|]);
    assert forall k: nat :: k < |frames| ==> (frames + [frame])[k] == frames[k];
  }

  lemma SentNothing(d: seq<Byte>, max: nat, id: Word)
    requires d != [] && 0 < max
    ensures SentUpTo([], d, 0, max, id)
  {
    assert Pieces(d, 0, max, id)[0..] == Left(d, 0, max, id);
  }

  class Socket {
    const pkt: Packet
    const mtu: nat
    const isOpen: bool

    ghost predicate Valid()
      reads this, pkt
    {
      68 <= mtu <= 65535 && pkt.Valid()
    }

    constructor (pkt: Packet, mtu: nat, isOpen: bool)
      requires 68 <= mtu <= 65535 && pkt.Valid()
      ensures Valid() && this.pkt == pkt && this.mtu == mtu && this.isOpen == isOpen
    {
      this.pkt := pkt;
      this.mtu := mtu;
      this.isOpen := isOpen;
    }

    method FirstFragment(data: seq<Byte>, ghost w: seq<Word>) returns (frame: seq<Byte>, len: nat)
      requires Valid() && mtu - 28 < |data| <= MAX_PAYLOAD && pkt.Now() == w
      modifies pkt
      ensures Valid() && pkt.id == old(pkt.id) && pkt.Now()[9] == pkt.id
      ensures SameEnds(pkt.Now(), w, IP_WORD)
      ensures len == MaxLen(mtu) - 8
      ensures Carries(frame, pkt.id, DatagramOf(w, data), 0, MaxLen(mtu), MaxLen(mtu))
    {
      var v := pkt.GetFragment(data, 0, mtu);
      len := v.payloadLen;
      frame := pkt.hdr[..v.hdrSize] + data[0..len];
      FirstMade(pkt.hdr, w, pkt.id, data, len, MaxLen(mtu));
    }

    method NextFragment(data: seq<Byte>, offset: nat, ghost w: seq<Word>, ghost at: nat)
      returns (frame: seq<Byte>, len: nat, ghost end: nat)
      requires at == offset + 8
      requires Valid() && mtu - 28 < |data| <= MAX_PAYLOAD && 0 < offset < |data| && offset % 8 == 0
      requires |w| == 21 && pkt.Now()[9] == pkt.id
      modifies pkt
      ensures Valid() && pkt.id == old(pkt.id) && pkt.Now()[9] == pkt.id
      ensures SameEnds(pkt.Now(), old(pkt.Now()), IP_WORD)
      ensures len == Least(MaxLen(mtu), |data| - offset) && end == at + len
      ensures Carries(frame, pkt.id, DatagramOf(w, data), at, MaxLen(mtu), end)
    {
      ghost var before := pkt.Now();
      var v := pkt.GetFragment(data, offset, mtu);
      len := v.payloadLen;
      frame := pkt.hdr[..v.hdrSize] + data[offset..offset + len];
      end := at + len;
      NextMade(pkt.hdr, before, w, data, offset, len, MaxLen(mtu), at, end);
    }

    /** The body of the loop of `send`, up to `writev`: the frame with bytes `at` to `end` of the datagram. */
    method MakeFrame(data: seq<Byte>, offset: nat, ghost w: seq<Word>, ghost at: nat)
      returns (frame: seq<Byte>, next: nat, ghost end: nat)
      requires Valid() && mtu - 28 < |data| <= MAX_PAYLOAD && offset < |data| && offset % 8 == 0
      requires |w| == 21 && Position(offset, at)
      requires if offset == 0 then pkt.Now() == w else pkt.Now()[9] == pkt.id
      modifies pkt
      ensures Valid() && pkt.id == old(pkt.id) && pkt.Now()[9] == pkt.id
      ensures SameEnds(pkt.Now(), old(pkt.Now()), IP_WORD)
      ensures offset < next <= |data| && (next < |data| ==> next % 8 == 0) && Position(next, end)
      ensures end == Least(at + MaxLen(mtu), |data| + 8)
      ensures Carries(frame, pkt.id, DatagramOf(w, data), at, MaxLen(mtu), end)
    {
      var len;
      if offset == 0 {
        assert at == 0;
        frame, len := FirstFragment(data, w);
        end := MaxLen(mtu);
      } else {
        frame, len, end := NextFragment(data, offset, w, at);
      }
      next := offset + len;
      NextPosition(offset, at, len, MaxLen(mtu), |data|, next, end);
    }

    /** The loop of `send`; the operating system accepts the first `accepted` frames and then fails. */
    method SendFragments(data: seq<Byte>, accepted: nat) returns (ok: bool, frames: seq<seq<Byte>>)
      requires Valid() && mtu - 28 < |data| <= MAX_PAYLOAD
      modifies pkt
      ensures Valid() && pkt.id == old(pkt.id) && SameEnds(pkt.Now(), old(pkt.Now()), IP_WORD)
      ensures var p := Pieces(DatagramOf(old(pkt.Now()), data), 0, MaxLen(mtu), pkt.id);
              && |frames| == (if ok then |p| else accepted) <= |p|
              && ReadAs(frames, p, |frames|)
              && ok == (|p| <= accepted)
    {
      ghost var w, max := pkt.Now(), MaxLen(mtu);
      ghost var d, at := DatagramOf(w, data), 0;
      frames := [];
      var offset := 0;
      SentNothing(d, max, pkt.id);
      while offset < |data|
        invariant Valid() && pkt.id == old(pkt.id) && SameEnds(pkt.Now(), w, IP_WORD)
        invariant 0 <= offset <= |data| && (offset < |data| ==> offset % 8 == 0) && Position(offset, at)
        invariant if offset == 0 then pkt.Now() == w else pkt.Now()[9] == pkt.id
        invariant |frames| <= accepted && SentUpTo(frames, d, at, max, pkt.id)
        decreases |data| - offset
      {
        ghost var before := pkt.Now();
        var frame, next;
        ghost var end;
        frame, next, end := MakeFrame(data, offset, w, at);
        EndsStay(w, before, pkt.Now());
        SentStep(frames, frame, d, at, max, pkt.id, end);
        if |frames| == accepted { return false, frames; }
        frames := frames + [frame];
        offset, at := next, end;
      }
      ok := true;
    }

    /** `send`, the whole of it: the frames carry the fragments of the datagram, in order, up to the first
        that is not accepted. */
    method Send(data: seq<Byte>, accepted: nat) returns (ok: bool, frames: seq<seq<Byte>>)
      requires Valid() && |data| <= MAX_PAYLOAD
      modifies pkt
      ensures Valid() && pkt.id == old(pkt.id) && SameEnds(pkt.Now(), old(pkt.Now()), IP_WORD)
      ensures !isOpen ==> !ok && frames == [] && pkt.Now() == old(pkt.Now())
      ensures isOpen ==>
        var p := Expected(DatagramOf(old(pkt.Now()), data), mtu, pkt.id);
        && ok == (|p| <= accepted)
        && |frames| == (if ok then |p| else accepted) <= |p|
        && ReadAs(frames, p, |frames|)
    {
      if !isOpen { return false, []; }
      if |data| <= mtu - 28 {
        var frame := SendWhole(data);
        if accepted == 0 { return false, []; }
        return true, [frame];
      }
      ok, frames := SendFragments(data, accepted);
    }

    /** Lines 128 to 148. */
    method SendWhole(data: seq<Byte>) returns (frame: seq<Byte>)
      requires Valid() && |data| <= mtu - 28 && |data| <= MAX_PAYLOAD
      modifies pkt
      ensures Valid() && pkt.id == old(pkt.id) && SameEnds(pkt.Now(), old(pkt.Now()), IP_WORD)
      ensures var p := Expected(DatagramOf(old(pkt.Now()), data), mtu, pkt.id);
              |p| == 1 && IsFrameOf(frame, p[0])
    {
      ghost var w := pkt.Now();
      var v := pkt.GetHeader(data);
      frame := pkt.hdr[..v.hdrSize] + data[..v.payloadLen];
      WholeExpected(pkt.hdr, w, pkt.id, data, mtu);
    }
  }

  lemma WholeMade(hdr: seq<Byte>, w: seq<Word>, id: Word, data: seq<Byte>)
    requires |hdr| == 42 && Framed(w) && |data| + 28 <= 65535
    requires var l := WordsAt(hdr, 0, 21);
             && IsHeader(l, w, IP_WORD, |data| + 28, id, 0)
             && HasUdp(l, IP_WORD, |data| + 8, PaddedWords(data))
    ensures IsFrameOf(hdr[..42] + data[..|data|], Fragment(id, 0, false, DatagramOf(w, data)))
  {
    var l := WordsAt(hdr, 0, 21);
    IpVerifies(l, IP_WORD);
    UdpPart(l, w, |data| + 8, PaddedWords(data));
    FirstIsRead(hdr, l, w, false, data, |data|);
    WholeSlices(DatagramOf(w, data), data);
  }

  lemma WholeExpected(hdr: seq<Byte>, w: seq<Word>, id: Word, data: seq<Byte>, mtu: nat)
    requires |hdr| == 42 && Framed(w) && 68 <= mtu <= 65535 && |data| <= mtu - 28
    requires var l := WordsAt(hdr, 0, 21);
             && IsHeader(l, w, IP_WORD, (|data| + 28) % 0x1_0000, id, 0)
             && HasUdp(l, IP_WORD, |data| + 8, PaddedWords(data))
    ensures SameEnds(WordsAt(hdr, 0, 21), w, IP_WORD)
    ensures var p := Expected(DatagramOf(w, data), mtu, id);
            |p| == 1 && IsFrameOf(hdr[..42] + data[..|data|], p[0])
  {
    FitsInWord(|data| + 28);
    var d := DatagramOf(w, data);
    assert Expected(d, mtu, id) == [Fragment(id, 0, false, d)] by { ExpectedWhole(d, mtu, id); }
    WholeMade(hdr, w, id, data);
  }

  lemma FitsInWord(n: nat)
    requires n < 0x1_0000
    ensures n % 0x1_0000 == n
  {
  }

  lemma ExpectedWhole(d: seq<Byte>, mtu: nat, id: Word)
    requires 8 <= |d| <= mtu - 20 && 68 <= mtu <= 65535
    ensures Expected(d, mtu, id) == [Fragment(id, 0, false, d)]
  {
    assert d[0..] == d;
  }

  lemma WholeSlices(d: seq<Byte>, data: seq<Byte>)
    requires |d| == |data| + 8
    ensures d[0..8 + |data|] == d && data[..|data|] == data[0..|data|]
  {
  }

  /** Byte `offset` of the data is byte `at` of the datagram; the UDP header goes with the first byte. */
  predicate Position(offset: nat, at: nat)
  {
    at == if offset == 0 then 0 else offset + 8
  }

  lemma NextPosition(offset: nat, at: nat, len: nat, max: nat, size: nat, next: nat, end: nat)
    requires max % 8 == 0 && 8 < max < size + 8 && offset % 8 == 0 && offset < size && Position(offset, at)
    requires if offset == 0 then len == max - 8 && end == max
             else len == Least(max, size - offset) && end == at + len
    requires next == offset + len
    ensures offset < next <= size && (next < size ==> next % 8 == 0)
    ensures Position(next, end) && end == Least(at + max, size + 8)
  {
  }

  // ----- the receiver's side

  /** No fragment is too long for the link, and none but the last is so short that eight more bytes would
      fit; a datagram that fits is not fragmented; no offset collides with the flags, and only the last
      fragment says that it is the last. */
  lemma FragmentsFit(d: seq<Byte>, mtu: nat, id: Word, k: nat)
    requires 8 <= |d| <= 65535 && 68 <= mtu <= 65535 && k < |Expected(d, mtu, id)|
    ensures var p := Expected(d, mtu, id);
            && 20 + |p[k].data| <= mtu && p[k].data != [] && p[k].id == id
            && p[k].offset % 8 == 0 && p[k].offset / 8 < 0x2000
            && (p[k].more <==> k < |p| - 1)
            && (p[k].more ==> |p[k].data| % 8 == 0 && mtu < 20 + |p[k].data| + 8)
            && (|p| == 1 <==> |d| + 20 <= mtu)
  {
    var max := PieceSize(|d|, mtu);
    PieceAt(d, 0, max, id, k);
    if |d| <= mtu - 20 {
      if 0 < k { StartGrows(max, k); }
    } else {
      StartInUnits(max, k);
    }
  }

  lemma {:induction false} StartInUnits(max: nat, k: nat)
    requires max % 8 == 0
    ensures Start(k, max) % 8 == 0
  {
    if 0 < k { StartInUnits(max, k - 1); }
  }

  lemma StartGrows(max: nat, k: nat)
    requires 0 < k
    ensures max <= Start(k, max)
  {
    LaterBlock(max, 0, k);
  }

  /** What the receiver reads from the frames that reach it. */
  function Read(frames: seq<seq<Byte>>): (p: seq<Fragment>)
    requires forall a :: a in frames ==> Parse(a).Some?
    ensures |p| == |frames| && forall k: nat :: k < |p| ==> Parse(frames[k]) == Some(p[k])
  {
    seq(|frames|, k requires 0 <= k < |frames| => Parse(frames[k]).value)
  }

  /** The datagram, if no frame is missing. */
  function Delivery(frames: seq<seq<Byte>>, arrived: seq<seq<Byte>>, d: seq<Byte>): Option<seq<Byte>>
  {
    if forall a :: a in frames ==> a in arrived then Some(d) else None
  }

  /** Frames of one datagram, in whatever order and number they arrive: the receiver has the datagram that
      was sent, with a valid UDP checksum, exactly when every frame has arrived; else it has none. */
  lemma DeliveredIffAllArrive(w: seq<Word>, data: seq<Byte>, mtu: nat, id: Word, frames: seq<seq<Byte>>,
                              arrived: seq<seq<Byte>>)
    requires Framed(w) && |data| <= MAX_PAYLOAD && 68 <= mtu <= 65535
    requires var p := Expected(DatagramOf(w, data), mtu, id); |frames| == |p| && ReadAs(frames, p, |p|)
    requires forall a :: a in arrived ==> a in frames
    ensures forall a :: a in arrived ==> Parse(a).Some?
    ensures Assembled(Read(arrived)) == Delivery(frames, arrived, DatagramOf(w, data))
    ensures UdpAccepts(w[13..17], DatagramOf(w, data))
  {
    var d := DatagramOf(w, data);
    var p := Expected(d, mtu, id);
    DatagramAccepted(w, data);
    AllRead(frames, p, arrived);
    forall j: nat, k: nat | j < |p| && k < |p| && p[j] == p[k] ensures j == k {
      DistinctPieces(d, PieceSize(|d|, mtu), id, j, k);
    }
    ArrivedAsFrames(frames, p, arrived);
    ReassembledIffAllArrived(d, PieceSize(|d|, mtu), id, Read(arrived));
  }

  /** Sending and receiving: the network delivers some of the frames, in any order and number. */
  method SendAndReceive(s: Socket, data: seq<Byte>, accepted: nat, network: seq<seq<Byte>> -> seq<seq<Byte>>)
    returns (ok: bool, frames: seq<seq<Byte>>, received: Option<seq<Byte>>)
    requires s.Valid() && s.isOpen && |data| <= MAX_PAYLOAD
    requires forall sent: seq<seq<Byte>>, a :: a in network(sent) ==> a in sent
    modifies s.pkt
    ensures s.Valid() && SameEnds(s.pkt.Now(), old(s.pkt.Now()), IP_WORD)
    ensures ok ==> received == Delivery(frames, network(frames), DatagramOf(old(s.pkt.Now()), data))
    ensures UdpAccepts(old(s.pkt.Now())[13..17], DatagramOf(old(s.pkt.Now()), data))
  {
    ghost var w := s.pkt.Now();
    ok, frames := s.Send(data, accepted);
    received := None;
    DatagramAccepted(w, data);
    if ok {
      DeliveredIffAllArrive(w, data, s.mtu, s.pkt.id, frames, network(frames));
      received := Assembled(Read(network(frames)));
    }
  }

  lemma DistinctPieces(d: seq<Byte>, max: nat, id: Word, j: nat, k: nat)
    requires d != [] && 0 < max && j < |Pieces(d, 0, max, id)| && k < |Pieces(d, 0, max, id)|
    requires Pieces(d, 0, max, id)[j] == Pieces(d, 0, max, id)[k]
    ensures j == k
  {
    PieceAt(d, 0, max, id, k);
    PiecesAreDisjoint(d, max, id, j, k, Pieces(d, 0, max, id)[k].offset);
  }

  lemma AllRead(frames: seq<seq<Byte>>, p: seq<Fragment>, arrived: seq<seq<Byte>>)
    requires |frames| == |p| && ReadAs(frames, p, |p|) && forall a :: a in arrived ==> a in frames
    ensures forall a :: a in arrived ==> Parse(a).Some?
    ensures forall f :: f in Read(arrived) ==> f in p
  {
    forall a | a in arrived ensures Parse(a).Some? && Parse(a).value in p {
      var k: nat :| k < |frames| && frames[k] == a;
      assert IsFrameOf(frames[k], p[k]);
    }
    forall f | f in Read(arrived) ensures f in p {
      var k: nat :| k < |arrived| && Read(arrived)[k] == f;
      assert arrived[k] in arrived;
    }
  }

  lemma ArrivedAsFrames(frames: seq<seq<Byte>>, p: seq<Fragment>, arrived: seq<seq<Byte>>)
    requires |frames| == |p| && ReadAs(frames, p, |p|) && forall a :: a in arrived ==> a in frames
    requires forall j: nat, k: nat :: j < |p| && k < |p| && p[j] == p[k] ==> j == k
    ensures forall a :: a in arrived ==> Parse(a).Some?
    ensures AllArrived(p, Read(arrived)) <==> forall a :: a in frames ==> a in arrived
  {
    AllRead(frames, p, arrived);
    forall k: nat | k < |p| ensures p[k] in Read(arrived) <==> frames[k] in arrived {
      OneArrived(frames, p, arrived, k);
    }
    assert AllArrived(p, Read(arrived)) <==> forall k: nat :: k < |p| ==> p[k] in Read(arrived);
  }

  lemma OneArrived(frames: seq<seq<Byte>>, p: seq<Fragment>, arrived: seq<seq<Byte>>, k: nat)
    requires |frames| == |p| && ReadAs(frames, p, |p|) && forall a :: a in arrived ==> a in frames
    requires forall j: nat, k: nat :: j < |p| && k < |p| && p[j] == p[k] ==> j == k
    requires forall a :: a in arrived ==> Parse(a).Some?
    requires k < |p|
    ensures p[k] in Read(arrived) <==> frames[k] in arrived
  {
    assert IsFrameOf(frames[k], p[k]);
    if frames[k] in arrived {
      var i: nat :| i < |arrived| && arrived[i] == frames[k];
      assert Read(arrived)[i] == p[k];
    }
    if p[k] in Read(arrived) {
      var i: nat :| i < |arrived| && Read(arrived)[i] == p[k];
      assert arrived[i] in arrived;
      var j: nat :| j < |frames| && frames[j] == arrived[i];
      assert IsFrameOf(frames[j], p[j]);
    }
  }
}
