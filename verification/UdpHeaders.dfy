/** Ethernet, IPv4 and UDP headers as lists of 16-bit words, and what their checksums are for: section 3.1
    of RFC 791 and the "Fields" part of RFC 768. The IPv4 header is at word `ip` of the header. */
module UdpHeaders {
  import opened Checksum

  const MAX_PAYLOAD := 65527

  /** The addresses of a datagram; each list holds words in network order. */
  datatype Ends = Ends(dstMac: seq<Word>, srcMac: seq<Word>, srcIp: seq<Word>, dstIp: seq<Word>,
                       srcPort: Word, dstPort: Word)
  {
    predicate Valid() { |dstMac| == 3 && |srcMac| == 3 && |srcIp| == 2 && |dstIp| == 2 }
  }

  /** A header whose lengths, identification, flags and checksums are still 0. */
  function Template(e: Ends, ttl: Byte): (w: seq<Word>)
    requires e.Valid()
    ensures |w| == 21
  {
    e.dstMac + e.srcMac + [0x0800]
    + [0x4500, 0, 0, 0, 0x100 * (ttl as nat) + 17, 0] + e.srcIp + e.dstIp
    + [e.srcPort, e.dstPort, 0, 0]
  }

  // ----- sealing with checksums

  function IpWords(w: seq<Word>, ip: nat): (h: seq<Word>)
    requires ip + 10 <= |w|
    ensures |h| == 10
  {
    w[ip..ip + 10]
  }

  /** The pseudo header, the UDP header and the words of the data. */
  function UdpWords(w: seq<Word>, ip: nat, pad: seq<Word>): (u: seq<Word>)
    requires ip + 14 <= |w|
  {
    Listed(w[ip + 6..ip + 10], w[ip + 4] % 0x100, w[ip + 12], w[ip + 10..ip + 14] + pad)
  }

  /** A pseudo header and the words it covers. */
  function Listed(addrs: seq<Word>, proto: Word, length: Word, words: seq<Word>): seq<Word>
  {
    addrs + [proto, length] + words
  }

  /** The checksum of the IPv4 header, its own field taken as 0. */
  function IpCheck(w: seq<Word>, ip: nat): Word
    requires ip + 10 <= |w|
  {
    0xFFFF - OnesSum(IpWords(w[ip + 5 := 0], ip))
  }

  function UdpChecksum(sum: Word): Word
  {
    if sum == 0xFFFF then sum else 0xFFFF - sum
  }

  /** The checksum of the UDP datagram, its own field taken as 0. */
  function UdpCheck(w: seq<Word>, ip: nat, pad: seq<Word>): Word
    requires ip + 14 <= |w|
  {
    UdpChecksum(OnesSum(UdpWords(w[ip + 13 := 0], ip, pad)))
  }

  lemma IpVerifies(w: seq<Word>, ip: nat)
    requires ip + 10 <= |w| && w[ip + 5] == IpCheck(w, ip)
    ensures OnesSum(IpWords(w, ip)) == 0xFFFF
  {
    var z := IpWords(w[ip + 5 := 0], ip);
    ChecksumVerifies(z, 5, IpCheck(w, ip));
    assert IpWords(w, ip) == z[5 := IpCheck(w, ip)];
  }

  lemma UdpVerifies(w: seq<Word>, ip: nat, pad: seq<Word>)
    requires ip + 14 <= |w| && w[ip + 13] == UdpCheck(w, ip, pad)
    ensures OnesSum(UdpWords(w, ip, pad)) == 0xFFFF && w[ip + 13] != 0
  {
    var z := w[ip + 13 := 0];
    var u := UdpWords(z, ip, pad);
    UdpWordsUpdate(z, ip, pad, w[ip + 13]);
    ChecksumVerifies(u, 9, w[ip + 13]);
    assert z[ip + 13 := w[ip + 13]] == w;
  }

  lemma UdpWordsUpdate(z: seq<Word>, ip: nat, pad: seq<Word>, c: Word)
    requires ip + 14 <= |z|
    ensures var u := UdpWords(z, ip, pad);
            9 < |u| && u[9] == z[ip + 13] && UdpWords(z[ip + 13 := c], ip, pad) == u[9 := c]
  {
    var y := z[ip + 13 := c];
    var a := z[ip + 6..ip + 10] + [z[ip + 4] as nat % 0x100, z[ip + 12]];
    assert y[ip + 10..ip + 14] == z[ip + 10..ip + 14][3 := c];
    assert y[ip + 6..ip + 10] == z[ip + 6..ip + 10];
    UpdateInside(a, z[ip + 10..ip + 14], pad, 3, c);
  }

  lemma UpdateInside(a: seq<Word>, b: seq<Word>, pad: seq<Word>, k: nat, c: Word)
    requires k < |b|
    ensures (a + (b + pad))[|a| + k] == b[k]
    ensures (a + (b + pad))[|a| + k := c] == a + (b[k := c] + pad)
  {
  }

  /** Everything but lengths, identification, flags and checksums. */
  ghost predicate SameEnds(v: seq<Word>, w: seq<Word>, ip: nat)
    requires |v| == |w| == ip + 14
  {
    forall k: nat :: k <= ip || k == ip + 4 || ip + 6 <= k < ip + 12 ==> v[k] == w[k]
  }

  /** The header w with these fields and their IPv4 checksum. */
  ghost predicate IsHeader(l: seq<Word>, w: seq<Word>, ip: nat, length: int, id: Word, flags: Word)
  {
    && |l| == |w| == ip + 14 && SameEnds(l, w, ip)
    && l[ip + 1] == length && l[ip + 2] == id && l[ip + 3] == flags
    && l[ip + 5] == IpCheck(l, ip)
  }

  /** With the UDP length and checksum. */
  ghost predicate HasUdp(l: seq<Word>, ip: nat, length: int, pad: seq<Word>)
    requires |l| == ip + 14
  {
    l[ip + 12] == length && l[ip + 13] == UdpCheck(l, ip, pad)
  }

  /** The fields and the payload determine the header. */
  lemma HeaderIsUnique(l: seq<Word>, m: seq<Word>, w: seq<Word>, ip: nat, length: int, id: Word, flags: Word,
                       udpLength: int, pad: seq<Word>)
    requires IsHeader(l, w, ip, length, id, flags) && HasUdp(l, ip, udpLength, pad)
    requires IsHeader(m, w, ip, length, id, flags) && HasUdp(m, ip, udpLength, pad)
    ensures l == m
  {
    SameEndsAsOther(l, m, w, ip);
    SameIpCheck(l, m, ip);
    UdpCheckOnEnds(l, m, ip, pad);
    SameWordList(l, m, ip);
  }

  lemma SameWordList(l: seq<Word>, m: seq<Word>, ip: nat)
    requires |l| == |m| == ip + 14 && SameEnds(l, m, ip)
    requires l[ip + 1..ip + 4] == m[ip + 1..ip + 4] && l[ip + 5] == m[ip + 5]
    requires l[ip + 12] == m[ip + 12] && l[ip + 13] == m[ip + 13]
    ensures l == m
  {
    forall k: nat | k < |l| ensures l[k] == m[k] {
      if ip + 1 <= k < ip + 4 { assert l[k] == l[ip + 1..ip + 4][k - ip - 1]; }
    }
  }

  lemma SameEndsAsOther(l: seq<Word>, m: seq<Word>, w: seq<Word>, ip: nat)
    requires |l| == |m| == |w| == ip + 14 && SameEnds(l, w, ip) && SameEnds(m, w, ip)
    ensures SameEnds(l, m, ip)
  {
  }

  lemma SameIpCheck(l: seq<Word>, m: seq<Word>, ip: nat)
    requires |l| == |m| == ip + 14
    requires forall k: nat :: k <= ip + 4 || ip + 6 <= k < ip + 12 ==> l[k] == m[k]
    ensures IpCheck(l, ip) == IpCheck(m, ip)
  {
    assert IpWords(l[ip + 5 := 0], ip) == IpWords(m[ip + 5 := 0], ip);
  }

  /** The UDP checksum does not depend on the fragmentation fields. */
  lemma UdpCheckOnEnds(l: seq<Word>, m: seq<Word>, ip: nat, pad: seq<Word>)
    requires |l| == |m| == ip + 14 && SameEnds(l, m, ip) && l[ip + 12] == m[ip + 12]
    ensures UdpCheck(l, ip, pad) == UdpCheck(m, ip, pad)
  {
    var y, z := l[ip + 13 := 0], m[ip + 13 := 0];
    assert y[ip + 6..ip + 10] == z[ip + 6..ip + 10];
    assert y[ip + 10..ip + 14] == z[ip + 10..ip + 14];
  }

  // ----- headers in memory

  lemma PutWord(b: seq<Byte>, k: nat, v: Word)
    requires 2 * k + 2 <= |b|
    ensures WordsAt(Put16(b, 2 * k, v), 0, |b| / 2) == WordsAt(b, 0, |b| / 2)[k := v]
  {
    var r := Put16(b, 2 * k, v);
    forall j: nat | j < |b| / 2 && j != k ensures Get16(r, 2 * j) == Get16(b, 2 * j) {
      assert 2 * j + 1 < 2 * k || 2 * j > 2 * k + 1;
    }
  }

  lemma IpWordsInMemory(hdr: seq<Byte>, ip: nat)
    requires 2 * (ip + 10) <= |hdr|
    ensures WordsAt(hdr, 2 * ip, 10) == IpWords(WordsAt(hdr, 0, |hdr| / 2), ip)
  {
  }

  lemma UdpWordsInMemory(hdr: seq<Byte>, w: seq<Word>, ip: nat, pad: seq<Word>)
    requires 2 * (ip + 14) <= |hdr| && w == WordsAt(hdr, 0, ip + 14)
    ensures Summed(hdr, 2 * ip, hdr[2 * ip + 9], w[ip + 12], pad) == UdpWords(w, ip, pad)
  {
    var a, p, b := w[ip + 6..ip + 10], w[ip + 4] % 0x100, w[ip + 10..ip + 14];
    assert WordsAt(hdr, 2 * ip + 12, 4) == a by { SliceInMemory(hdr, ip + 6, 4, ip + 14); }
    assert WordsAt(hdr, 2 * ip + 20, 4) == b by { SliceInMemory(hdr, ip + 10, 4, ip + 14); }
    assert p == hdr[2 * ip + 9] by { LowByte(hdr, 2 * (ip + 4)); }
  }

  lemma SliceInMemory(hdr: seq<Byte>, k: nat, n: nat, all: nat)
    requires k + n <= all && 2 * all <= |hdr|
    ensures WordsAt(hdr, 2 * k, n) == WordsAt(hdr, 0, all)[k..k + n]
  {
  }

  lemma LowByte(b: seq<Byte>, at: nat)
    requires at + 2 <= |b|
    ensures Get16(b, at) % 0x100 == b[at + 1]
  {
  }

  // ----- the checksum functions

  /** `calc_ipv4_cs`, for a header of n words. */
  method Ipv4Sum(hdr: seq<Byte>, at: nat, n: nat) returns (c: Word)
    requires n <= 30 && at + 2 * n <= |hdr|
    ensures c == 0xFFFF - OnesSum(WordsAt(hdr, at, n))
  {
    var cs := AddWords(0, hdr, at, n);
    cs := FoldCarries(cs);
    OnesSumIsFolded(WordsAt(hdr, at, n));
    c := 0xFFFF - cs;
  }

  /** What `calc_udp4_cs` sums, in its order, read from the bytes of the header. */
  function Summed(hdr: seq<Byte>, at: nat, proto: Word, length: Word, pad: seq<Word>): (w: seq<Word>)
    requires at + 28 <= |hdr|
  {
    Listed(WordsAt(hdr, at + 12, 4), proto, length, WordsAt(hdr, at + 20, 4) + pad)
  }

  lemma TotalOfListed(a: seq<Word>, proto: Word, length: Word, b: seq<Word>, pad: seq<Word>)
    ensures Total(Listed(a, proto, length, b + pad)) == Total(a) + proto + length + Total(b) + Total(pad)
  {
    var two := [proto, length];
    TotalOfParts(a + two, b + pad);
    TotalOfParts(b, pad);
    TotalOfParts(a, two);
    TotalOfParts([proto], [length]);
    TotalOfSingle(proto);
    TotalOfSingle(length);
    assert [proto] + [length] == two;
  }

  lemma TotalOfPadded(payload: seq<Byte>)
    ensures Total(PaddedWords(payload))
         == Total(WordsAt(payload, 0, |payload| / 2))
            + if |payload| % 2 == 1 then payload[|payload| - 1] as nat * 0x100 else 0
  {
    if |payload| % 2 == 1 {
      TotalOfParts(WordsAt(payload, 0, |payload| / 2), [payload[|payload| - 1] as nat * 0x100]);
      TotalOfSingle(payload[|payload| - 1] as nat * 0x100);
    }
  }

  /** `calc_udp4_cs` and `calc_udp_cs` once the length is known. */
  method UdpSum(hdr: seq<Byte>, at: nat, payload: seq<Byte>, length: Word) returns (c: Word)
    requires at + 28 <= |hdr| && |payload| <= MAX_PAYLOAD && length == |payload| + 8
    ensures c == UdpChecksum(OnesSum(Summed(hdr, at, hdr[at + 9], length, PaddedWords(payload))))
  {
    ghost var pad := PaddedWords(payload);
    var cs := AddHeader(hdr, at, hdr[at + 9], length);
    cs := AddPayload(cs, payload, length % 2 == 1);
    TotalOfListed(WordsAt(hdr, at + 12, 4), hdr[at + 9], length, WordsAt(hdr, at + 20, 4), pad);
    OnesSumIsFolded(Summed(hdr, at, hdr[at + 9], length, pad));
    cs := FoldCarries(cs);
    c := if cs == 0xFFFF then cs else 0xFFFF - cs;
  }

  /** The same, on the words of a header with the length in place and the checksum 0. */
  method UdpSumOf(hdr: seq<Byte>, ghost w: seq<Word>, ip: nat, payload: seq<Byte>, length: Word) returns (c: Word)
    requires |hdr| == 2 * (ip + 14) && |payload| <= MAX_PAYLOAD
    requires w == WordsAt(hdr, 0, ip + 14) && w[ip + 12] == length == |payload| + 8 && w[ip + 13] == 0
    ensures c == UdpCheck(w, ip, PaddedWords(payload))
  {
    c := UdpSum(hdr, 2 * ip, payload, length);
    UdpWordsInMemory(hdr, w, ip, PaddedWords(payload));
    ZeroStays(w, ip + 13);
  }

  lemma ZeroStays(w: seq<Word>, k: nat)
    requires k < |w| && w[k] == 0
    ensures w[k := 0] == w
  {
  }

  method AddHeader(hdr: seq<Byte>, at: nat, proto: Word, length: Word) returns (cs: Uint32)
    requires at + 28 <= |hdr|
    ensures cs == Total(WordsAt(hdr, at + 12, 4)) + proto + length + Total(WordsAt(hdr, at + 20, 4))
    ensures cs <= 10 * 0xFFFF
  {
    cs := AddWords(0, hdr, at + 12, 4);
    cs := cs + proto;
    cs := cs + length;
    cs := AddWords(cs, hdr, at + 20, 4);
  }

  method AddPayload(before: Uint32, payload: seq<Byte>, odd: bool) returns (cs: Uint32)
    requires before <= 10 * 0xFFFF && |payload| <= MAX_PAYLOAD && odd == (|payload| % 2 == 1)
    ensures cs == before + Total(PaddedWords(payload))
  {
    var n := |payload| / 2;
    assert n <= 32763;
    assert n * 0xFFFF <= 32763 * 0xFFFF;
    cs := AddWords(before, payload, 0, n);
    TotalOfPadded(payload);
    if odd {
      cs := cs + payload[|payload| - 1] as nat * 0x100;
    }
  }
}
