/** `l2_eth_udp_pkt`: the other builder of headers, with or without a VLAN tag, and its agreement with
    `l2_udp_packet`. */
module EthUdp {
  import opened Checksum
  import opened UdpHeaders
  import BpfUdp

  /** The first words of a frame, up to the IPv4 header. */
  function LinkWords(e: Ends, vlan: Word): (w: seq<Word>)
    requires e.Valid()
    ensures |w| == IpAt(vlan)
  {
    e.dstMac + e.srcMac + (if vlan < 4096 then [0x8100, vlan] else []) + [0x0800]
  }

  /** The word where the IPv4 header starts; VLAN numbers from 4096 stand for none. */
  function IpAt(vlan: Word): nat
  {
    if vlan < 4096 then 9 else 7
  }

  /** A header before lengths, identification and checksums are written. */
  function Blank(e: Ends, ttl: Byte, vlan: Word): (w: seq<Word>)
    requires e.Valid()
    ensures |w| == IpAt(vlan) + 14
  {
    LinkWords(e, vlan) + IpBlank(e, ttl, 0, 0) + [e.srcPort, e.dstPort, 0, 0]
  }

  function IpBlank(e: Ends, ttl: Byte, length: Word, id: Word): (w: seq<Word>)
    requires e.Valid()
    ensures |w| == 10
  {
    [0x4500, length, id, 0, 0x100 * (ttl as nat) + 17, 0] + e.srcIp + e.dstIp
  }

  lemma BlankIsTemplate(e: Ends, ttl: Byte, vlan: Word)
    requires e.Valid()
    ensures var t := Template(e, ttl);
            Blank(e, ttl, vlan) == if vlan < 4096 then t[..6] + [0x8100, vlan] + t[6..] else t
  {
    var t, macs, rest := Template(e, ttl), e.dstMac + e.srcMac, TemplateRest(e, ttl);
    assert t == macs + rest;
    assert t[..6] == macs && t[6..] == rest;
    assert Blank(e, ttl, vlan) == macs + (if vlan < 4096 then [0x8100, vlan] else []) + rest;
  }

  /** What follows the addresses of the link. */
  function TemplateRest(e: Ends, ttl: Byte): seq<Word>
    requires e.Valid()
  {
    [0x0800] + IpBlank(e, ttl, 0, 0) + [e.srcPort, e.dstPort, 0, 0]
  }

  lemma TwoRuns(w: seq<Word>, k: nat, run: seq<Word>)
    requires |run| == 10 && k + 10 <= |w|
    ensures var h := w[..k] + run[..5] + w[k + 5..];
            h[..k + 5] + run[5..] + h[k + 10..] == w[..k] + run + w[k + 10..]
  {
    assert run == run[..5] + run[5..];
  }

  /** Three words written over others. */
  function Replaced(w: seq<Word>, k: nat, mac: seq<Word>): (r: seq<Word>)
    requires k + 3 <= |w| && |mac| == 3
    ensures |r| == |w|
  {
    w[k := mac[0]][k + 1 := mac[1]][k + 2 := mac[2]]
  }

  lemma MacsWritten(w: seq<Word>, e: Ends)
    requires 6 <= |w| && e.Valid()
    ensures Replaced(Replaced(w, 0, e.dstMac), 3, e.srcMac) == e.dstMac + e.srcMac + w[6..]
  {
  }

  lemma LinkWritten(w: seq<Word>, e: Ends, vlan: Word)
    requires 9 <= |w| && e.Valid()
    ensures var m := e.dstMac + e.srcMac + w[6..];
            && (vlan < 4096 ==> m[6 := 0x8100][7 := vlan][8 := 0x0800] == LinkWords(e, vlan) + w[9..])
            && (vlan >= 4096 ==> m[6 := 0x0800] == LinkWords(e, vlan) + w[7..])
  {
  }

  /** `resize`: new bytes are 0. */
  function Resized(b: seq<Byte>, n: nat): (r: seq<Byte>)
    ensures |r| == n
  {
    if |b| >= n then b[..n] else b + seq(n - |b|, _ => 0)
  }

  /** The header that goes with the fields, for data of the given lengths and padded words. */
  ghost predicate Built(hdr: seq<Byte>, e: Ends, ttl: Byte, vlan: Word, id: Word, length: int, udpLength: int,
                        pad: seq<Word>)
    requires e.Valid()
  {
    var ip := IpAt(vlan);
    && |hdr| == 2 * (ip + 14)
    && IsHeader(WordsAt(hdr, 0, ip + 14), Blank(e, ttl, vlan), ip, length, id, 0)
    && HasUdp(WordsAt(hdr, 0, ip + 14), ip, udpLength, pad)
  }

  class EthPacket {
    var reset: bool
    var ends: Ends
    var vlan: Word
    var id: Word
    var ttl: Byte
    var data: seq<Byte>
    var hdr: seq<Byte>

    /** The words of the header. */
    ghost function Now(n: nat): (w: seq<Word>)
      reads `hdr
      requires |hdr| == 2 * n
    {
      WordsAt(hdr, 0, n)
    }

    constructor (ends: Ends, vlan: Word, id: Word, ttl: Byte, data: seq<Byte>)
      ensures reset && this.ends == ends && this.vlan == vlan && this.id == id && this.ttl == ttl
      ensures this.data == data && hdr == []
    {
      reset, hdr := true, [];
      this.ends, this.vlan, this.id, this.ttl, this.data := ends, vlan, id, ttl, data;
    }

    method Write16(at: nat, v: Word, ghost n: nat)
      requires |hdr| == 2 * n && at % 2 == 0 && at + 2 <= |hdr|
      modifies `hdr
      ensures |hdr| == 2 * n && Now(n) == old(Now(n))[at / 2 := v]
    {
      PutWord(hdr, at / 2, v);
      hdr := Put16(hdr, at, v);
    }

    /** Lines 144 to 162. */
    method WriteLink(ghost n: nat) returns (ip: nat)
      requires ends.Valid() && n == IpAt(vlan) + 14 && |hdr| == 2 * n
      modifies `hdr
      ensures |hdr| == 2 * n && ip == IpAt(vlan)
      ensures Now(n) == LinkWords(ends, vlan) + old(Now(n))[ip..]
    {
      ghost var w := Now(n);
      WriteMac(0, ends.dstMac, n);
      WriteMac(6, ends.srcMac, n);
      MacsWritten(w, ends);
      ip := 6;
      if vlan < 4096 {
        Write16(12, 0x8100, n);
        Write16(14, vlan, n);
        ip := ip + 2;
      }
      Write16(2 * ip, 0x0800, n);
      ip := ip + 1;
      LinkWritten(w, ends, vlan);
    }

    method WriteMac(at: nat, mac: seq<Word>, ghost n: nat)
      requires |hdr| == 2 * n && at % 2 == 0 && at + 6 <= |hdr| && |mac| == 3
      modifies `hdr
      ensures |hdr| == 2 * n && Now(n) == Replaced(old(Now(n)), at / 2, mac)
    {
      Write16(at, mac[0], n);
      Write16(at + 2, mac[1], n);
      Write16(at + 4, mac[2], n);
    }

    /** Lines 165 to 176. */
    method WriteIp(ip: nat, used: Word, length: Word, ghost n: nat)
      requires ends.Valid() && n == ip + 14 && |hdr| == 2 * n
      modifies `hdr
      ensures |hdr| == 2 * n
      ensures Now(n) == old(Now(n))[..ip] + IpBlank(ends, ttl, length, used) + old(Now(n))[ip + 10..]
    {
      ghost var w, i := Now(n), IpBlank(ends, ttl, length, used);
      WriteFive(ip, 0x45 * 0x100 + 0, length, used, 0, 0x100 * (ttl as nat) + 17, n);
      assert i[..5] == [0x4500, length, used, 0, 0x100 * (ttl as nat) + 17];
      WriteFive(ip + 5, 0, ends.srcIp[0], ends.srcIp[1], ends.dstIp[0], ends.dstIp[1], n);
      assert i[5..] == [0, ends.srcIp[0], ends.srcIp[1], ends.dstIp[0], ends.dstIp[1]];
      TwoRuns(w, ip, i);
    }

    method WriteFive(k: nat, a: Word, b: Word, c: Word, d: Word, e: Word, ghost n: nat)
      requires |hdr| == 2 * n && k + 5 <= n
      modifies `hdr
      ensures |hdr| == 2 * n
      ensures Now(n) == old(Now(n))[..k] + [a, b, c, d, e] + old(Now(n))[k + 5..]
    {
      var at := 2 * k;
      Write16(at, a, n);
      Write16(at + 2, b, n);
      Write16(at + 4, c, n);
      Write16(at + 6, d, n);
      Write16(at + 8, e, n);
    }

    /** Lines 179 to 184. */
    method WriteUdp(ip: nat, length: Word, ghost n: nat)
      requires n == ip + 14 && |hdr| == 2 * n
      modifies `hdr
      ensures |hdr| == 2 * n
      ensures Now(n) == old(Now(n))[..ip + 10] + [ends.srcPort, ends.dstPort, length, 0]
    {
      var at := 2 * ip + 20;
      Write16(at, ends.srcPort, n);
      Write16(at + 2, ends.dstPort, n);
      Write16(at + 4, length, n);
      Write16(at + 6, 0, n);
    }

    /** Lines 137 to 191: a header is built again only when that was asked for. */
    method BuildPktHdr() returns (h: seq<Byte>)
      requires ends.Valid() && |data| <= MAX_PAYLOAD
      modifies `hdr, `id, `reset
      ensures !reset && h == hdr
      ensures !old(reset) ==> hdr == old(hdr) && id == old(id)
      ensures old(reset) ==> id == (old(id) + 1) % 0x1_0000
      ensures old(reset) ==>
        Built(hdr, ends, ttl, vlan, old(id), (|data| + 28) % 0x1_0000, |data| + 8, PaddedWords(data))
    {
      if reset {
        var used: Word, length: Word := id, (|data| + 28) % 0x1_0000;
        ghost var n := IpAt(vlan) + 14;
        id := (id + 1) % 0x1_0000;
        reset := false;
        Rebuild(used, length, n);
      }
      h := hdr;
    }

    method Rebuild(used: Word, length: Word, ghost n: nat)
      requires ends.Valid() && |data| <= MAX_PAYLOAD && n == IpAt(vlan) + 14
      modifies `hdr
      ensures Built(hdr, ends, ttl, vlan, used, length, |data| + 8, PaddedWords(data))
    {
      hdr := Resized(hdr, 42 + if vlan < 4096 then 4 else 0);
      var ip := WriteFields(used, length, n);
      SealFields(ip, used, length, n);
    }

    /** Lines 144 to 184. */
    method WriteFields(used: Word, length: Word, ghost n: nat) returns (ip: nat)
      requires ends.Valid() && n == IpAt(vlan) + 14 && |hdr| == 2 * n && |data| <= MAX_PAYLOAD
      modifies `hdr
      ensures |hdr| == 2 * n && ip == IpAt(vlan)
      ensures Now(n) == LinkWords(ends, vlan) + IpBlank(ends, ttl, length, used)
                        + [ends.srcPort, ends.dstPort, |data| + 8, 0]
    {
      ip := WriteLink(n);
      WriteIp(ip, used, length, n);
      WriteUdp(ip, |data| + 8, n);
    }

    method SealFields(ip: nat, used: Word, length: Word, ghost n: nat)
      requires ends.Valid() && ip == IpAt(vlan) && n == ip + 14 && |hdr| == 2 * n && |data| <= MAX_PAYLOAD
      requires Now(n) == LinkWords(ends, vlan) + IpBlank(ends, ttl, length, used)
                         + [ends.srcPort, ends.dstPort, |data| + 8, 0]
      modifies `hdr
      ensures |hdr| == 2 * n
      ensures IsHeader(Now(n), Blank(ends, ttl, vlan), ip, length, used, 0)
      ensures HasUdp(Now(n), ip, |data| + 8, PaddedWords(data))
    {
      ghost var h := Now(n);
      BlankParts(ends, ttl, vlan, length, used, |data| + 8, h);
      Seal(ip, n);
      SealedParts(Blank(ends, ttl, vlan), h, Now(n), ip, PaddedWords(data));
    }

    /** Lines 187 to 190; the size of the IPv4 header is read back. */
    method Seal(ip: nat, ghost n: nat)
      requires n == ip + 14 && |hdr| == 2 * n && |data| <= MAX_PAYLOAD
      requires Now(n)[ip] == 0x4500 && Now(n)[ip + 5] == 0 && Now(n)[ip + 12] == |data| + 8 && Now(n)[ip + 13] == 0
      modifies `hdr
      ensures |hdr| == 2 * n
      ensures var w := old(Now(n));
              var s := w[ip + 5 := IpCheck(w, ip)];
              Now(n) == s[ip + 13 := UdpCheck(s, ip, PaddedWords(data))]
    {
      SealIpHeader(ip, n);
      SealUdpHeader(ip, n);
    }

    method SealIpHeader(ip: nat, ghost n: nat)
      requires n == ip + 14 && |hdr| == 2 * n && Now(n)[ip] == 0x4500 && Now(n)[ip + 5] == 0
      modifies `hdr
      ensures |hdr| == 2 * n && Now(n) == old(Now(n))[ip + 5 := IpCheck(old(Now(n)), ip)]
    {
      ghost var w := Now(n);
      ReadBack(hdr, w, ip);
      var c := Ipv4Sum(hdr, 2 * ip, HeaderSize(hdr, 2 * ip) / 2);
      assert WordsAt(hdr, 2 * ip, 10) == IpWords(w, ip) by { SliceInMemory(hdr, ip, 10, n); }
      assert w[ip + 5 := 0] == w;
      Write16(2 * (ip + 5), c, n);
    }

    method SealUdpHeader(ip: nat, ghost n: nat)
      requires n == ip + 14 && |hdr| == 2 * n && |data| <= MAX_PAYLOAD
      requires Now(n)[ip] == 0x4500 && Now(n)[ip + 12] == |data| + 8 && Now(n)[ip + 13] == 0
      modifies `hdr
      ensures |hdr| == 2 * n && Now(n) == old(Now(n))[ip + 13 := UdpCheck(old(Now(n)), ip, PaddedWords(data))]
    {
      ReadBack(hdr, Now(n), ip);
      var length := Get16(hdr, 2 * ip + HeaderSize(hdr, 2 * ip) + 4);
      var c := UdpSumOf(hdr, Now(n), ip, data, length);
      Write16(2 * (ip + 13), c, n);
    }
  }

  /** The size of the IPv4 header at byte `at`, as the header says. */
  function HeaderSize(b: seq<Byte>, at: nat): nat
    requires at < |b|
  {
    b[at] as nat % 0x10 * 4
  }

  lemma ReadBack(b: seq<Byte>, w: seq<Word>, ip: nat)
    requires |b| == 2 * (ip + 14) && w == WordsAt(b, 0, ip + 14) && w[ip] == 0x4500
    ensures HeaderSize(b, 2 * ip) == 20 && Get16(b, 2 * ip + 20 + 4) == w[ip + 12]
  {
    HighByte(b, 2 * ip);
    assert 2 * ip + 24 == 2 * (ip + 12);
  }

  lemma HighByte(b: seq<Byte>, at: nat)
    requires at + 2 <= |b| && Get16(b, at) == 0x4500
    ensures b[at] == 0x45
  {
  }

  /** The words before sealing. */
  lemma BlankParts(e: Ends, ttl: Byte, vlan: Word, length: Word, id: Word, udpLength: Word, h: seq<Word>)
    requires e.Valid()
    requires h == LinkWords(e, vlan) + IpBlank(e, ttl, length, id) + [e.srcPort, e.dstPort, udpLength, 0]
    ensures var ip := IpAt(vlan);
            && |h| == ip + 14 && SameEnds(h, Blank(e, ttl, vlan), ip)
            && h[ip] == 0x4500 && h[ip + 1] == length && h[ip + 2] == id && h[ip + 3] == 0
            && h[ip + 5] == 0 && h[ip + 12] == udpLength && h[ip + 13] == 0
  {
  }

  lemma SealedParts(b: seq<Word>, h: seq<Word>, l: seq<Word>, ip: nat, pad: seq<Word>)
    requires |b| == |h| == ip + 14 && SameEnds(h, b, ip)
    requires var s := h[ip + 5 := IpCheck(h, ip)]; l == s[ip + 13 := UdpCheck(s, ip, pad)]
    ensures IsHeader(l, b, ip, h[ip + 1], h[ip + 2], h[ip + 3]) && HasUdp(l, ip, h[ip + 12], pad)
  {
    SameIpCheck(h, l, ip);
    UdpCheckOnEnds(h[ip + 5 := IpCheck(h, ip)], l, ip, pad);
  }

  // ----- the layout

  /** Every field is where the link, IPv4 and UDP have it, by its byte, in network order. */
  lemma FieldsInPlace(hdr: seq<Byte>, e: Ends, ttl: Byte, vlan: Word, id: Word, length: int, udpLength: int,
                      pad: seq<Word>, o: nat)
    requires e.Valid() && Built(hdr, e, ttl, vlan, id, length, udpLength, pad)
    requires o == if vlan < 4096 then 18 else 14
    ensures |hdr| == o + 28
    ensures WordsAt(hdr, 0, 3) == e.dstMac && WordsAt(hdr, 6, 3) == e.srcMac
    ensures vlan < 4096 ==> Get16(hdr, 12) == 0x8100 && Get16(hdr, 14) == vlan
    ensures Get16(hdr, o - 2) == 0x0800 && hdr[o] == 0x45 && hdr[o + 1] == 0 && Get16(hdr, o + 2) == length
    ensures Get16(hdr, o + 4) == id && Get16(hdr, o + 6) == 0 && hdr[o + 8] == ttl && hdr[o + 9] == 17
    ensures WordsAt(hdr, o + 12, 2) == e.srcIp && WordsAt(hdr, o + 16, 2) == e.dstIp
    ensures Get16(hdr, o + 20) == e.srcPort && Get16(hdr, o + 22) == e.dstPort && Get16(hdr, o + 24) == udpLength
  {
    var ip, b := IpAt(vlan), Blank(e, ttl, vlan);
    var l := WordsAt(hdr, 0, ip + 14);
    BlankFields(e, ttl, vlan, b);
    assert o == 2 * ip;
    assert forall k: nat :: k < ip + 14 ==> l[k] == Get16(hdr, 2 * k);
    TwoBytes(hdr, o, l[ip]);
    TwoBytes(hdr, o + 8, l[ip + 4]);
  }

  lemma TwoBytes(b: seq<Byte>, at: nat, w: Word)
    requires at + 2 <= |b| && Get16(b, at) == w
    ensures b[at] as nat == w as nat / 0x100 && b[at + 1] as nat == w as nat % 0x100
  {
  }

  lemma BlankFields(e: Ends, ttl: Byte, vlan: Word, b: seq<Word>)
    requires e.Valid() && b == Blank(e, ttl, vlan)
    ensures var ip := IpAt(vlan);
            && b[0..3] == e.dstMac && b[3..6] == e.srcMac && b[ip - 1] == 0x0800 && b[ip] == 0x4500
            && (vlan < 4096 ==> b[6] == 0x8100 && b[7] == vlan)
            && b[ip + 4] == 0x100 * (ttl as nat) + 17
            && b[ip + 6] == e.srcIp[0] && b[ip + 7] == e.srcIp[1] && b[ip + 8] == e.dstIp[0] && b[ip + 9] == e.dstIp[1]
            && b[ip + 10] == e.srcPort && b[ip + 11] == e.dstPort
  {
  }

  // ----- agreement

  /** For the same fields, without VLAN and with the one TTL that `l2_udp_packet` knows, both builders give
      the same 42 bytes. */
  lemma BuildersAgree(bpf: seq<Byte>, w: seq<Word>, eth: seq<Byte>, e: Ends, vlan: Word, id: Word, length: int,
                      udpLength: int, pad: seq<Word>)
    requires e.Valid() && 4096 <= vlan && |bpf| == 42 && |w| == 21 && SameEnds(w, Template(e, 1), 7)
    requires IsHeader(WordsAt(bpf, 0, 21), w, 7, length, id, 0) && HasUdp(WordsAt(bpf, 0, 21), 7, udpLength, pad)
    requires Built(eth, e, 1, vlan, id, length, udpLength, pad)
    ensures bpf == eth
  {
    var l, m := WordsAt(bpf, 0, 21), WordsAt(eth, 0, 21);
    BlankIsTemplate(e, 1, vlan);
    HeaderIsUnique(l, m, w, 7, length, id, 0, udpLength, pad);
    SameWords(bpf, eth);
  }

  /** `l2_udp_packet` with all its addresses written. */
  method Addressed(e: Ends) returns (p: BpfUdp.Packet)
    requires e.Valid()
    ensures fresh(p) && p.Valid() && p.id == 0 && p.Now() == Template(e, 1)
  {
    p := new BpfUdp.Packet();
    ghost var w := p.Now();
    p.WriteMac(6, e.srcMac);
    p.WriteMac(0, e.dstMac);
    ghost var m := p.Now();
    MacsJoined(e, w, m);
    p.WriteIp(26, e.srcIp, 34, e.srcPort);
    p.WriteIp(30, e.dstIp, 36, e.dstPort);
    AddressedWords(e, w, m, p.Now());
  }

  lemma MacsJoined(e: Ends, w: seq<Word>, m: seq<Word>)
    requires e.Valid() && |w| == 21
    requires var s := w[..3] + e.srcMac + w[6..]; m == s[..0] + e.dstMac + s[3..]
    ensures m == e.dstMac + e.srcMac + w[6..]
  {
  }

  lemma AddressedWords(e: Ends, w: seq<Word>, m: seq<Word>, l: seq<Word>)
    requires e.Valid() && w == Template(Ends([0, 0, 0], [0, 0, 0], [0, 0], [0, 0], 0, 0), 1)
    requires m == e.dstMac + e.srcMac + w[6..]
    requires l == m[13 := e.srcIp[0]][14 := e.srcIp[1]][17 := e.srcPort]
                   [15 := e.dstIp[0]][16 := e.dstIp[1]][18 := e.dstPort]
    ensures l == Template(e, 1)
  {
    forall k: nat | k < 21 ensures l[k] == Template(e, 1)[k] {
    }
  }

  method BuildEth(e: Ends, id: Word, data: seq<Byte>) returns (eth: seq<Byte>)
    requires e.Valid() && |data| <= MAX_PAYLOAD
    ensures Built(eth, e, 1, 65535, id, (|data| + 28) % 0x1_0000, |data| + 8, PaddedWords(data))
  {
    var q := new EthPacket(e, 65535, id, 1, data);
    eth := q.BuildPktHdr();
    assert q.ends == e && q.ttl == 1 && q.vlan == 65535 && q.data == data;
  }

  method BuildBpf(e: Ends, id: Word, data: seq<Byte>) returns (bpf: seq<Byte>)
    requires e.Valid() && |data| <= MAX_PAYLOAD
    ensures |bpf| == 42
    ensures IsHeader(WordsAt(bpf, 0, 21), Template(e, 1), 7, (|data| + 28) % 0x1_0000, id, 0)
    ensures HasUdp(WordsAt(bpf, 0, 21), 7, |data| + 8, PaddedWords(data))
  {
    var p := Addressed(e);
    p.id := id;
    assert p.Now() == Template(e, 1);
    var v := p.GetHeader(data);
    bpf := p.hdr;
  }

  /** Both builders at work on the same fields. */
  method BuildBoth(e: Ends, id: Word, data: seq<Byte>) returns (bpf: seq<Byte>, eth: seq<Byte>)
    requires e.Valid() && |data| <= MAX_PAYLOAD
    ensures |bpf| == 42 && bpf == eth
  {
    ghost var length, pad := (|data| + 28) % 0x1_0000, PaddedWords(data);
    eth := BuildEth(e, id, data);
    bpf := BuildBpf(e, id, data);
    BuildersAgree(bpf, Template(e, 1), eth, e, 65535, id, length, |data| + 8, pad);
  }

  /** A frame with a tag put in. */
  function Tagged(plain: seq<Byte>, vlan: Word): (b: seq<Byte>)
    requires |plain| == 42
    ensures |b| == 46
  {
    plain[..12] + [0x81, 0x00, vlan / 0x100, vlan % 0x100] + plain[12..]
  }

  /** A VLAN tag is four bytes between the addresses and the rest, which stays as it is. */
  lemma VlanIsInserted(tagged: seq<Byte>, plain: seq<Byte>, e: Ends, ttl: Byte, vlan: Word, none: Word, id: Word,
                       length: int, udpLength: int, pad: seq<Word>)
    requires e.Valid() && vlan < 4096 <= none
    requires Built(tagged, e, ttl, vlan, id, length, udpLength, pad)
    requires Built(plain, e, ttl, none, id, length, udpLength, pad)
    ensures |plain| == 42 && tagged == plain[..12] + [0x81, 0x00, vlan / 0x100, vlan % 0x100] + plain[12..]
  {
    var l, m := WordsAt(tagged, 0, 23), WordsAt(plain, 0, 21);
    TaggedHeader(m, e, ttl, vlan, none, length, id, udpLength, pad);
    HeaderIsUnique(l, m[..6] + [0x8100, vlan] + m[6..], Blank(e, ttl, vlan), 9, length, id, 0, udpLength, pad);
    SameTagged(tagged, plain, vlan);
  }

  lemma SameTagged(tagged: seq<Byte>, plain: seq<Byte>, vlan: Word)
    requires |tagged| == 46 && |plain| == 42
    requires var m := WordsAt(plain, 0, 21); WordsAt(tagged, 0, 23) == m[..6] + [0x8100, vlan] + m[6..]
    ensures tagged == Tagged(plain, vlan)
  {
    TaggedBytes(Tagged(plain, vlan), plain, vlan);
    SameWords(tagged, Tagged(plain, vlan));
  }

  lemma TaggedHeader(m: seq<Word>, e: Ends, ttl: Byte, vlan: Word, none: Word, length: int, id: Word,
                     udpLength: int, pad: seq<Word>)
    requires e.Valid() && vlan < 4096 <= none && |m| == 21
    requires IsHeader(m, Blank(e, ttl, none), 7, length, id, 0) && HasUdp(m, 7, udpLength, pad)
    ensures var v := m[..6] + [0x8100, vlan] + m[6..];
            IsHeader(v, Blank(e, ttl, vlan), 9, length, id, 0) && HasUdp(v, 9, udpLength, pad)
  {
    TaggedEnds(e, ttl, vlan, none, m);
    TaggedChecks(m, vlan, pad);
  }

  lemma TaggedEnds(e: Ends, ttl: Byte, vlan: Word, none: Word, m: seq<Word>)
    requires e.Valid() && vlan < 4096 <= none && |m| == 21 && SameEnds(m, Blank(e, ttl, none), 7)
    ensures SameEnds(m[..6] + [0x8100, vlan] + m[6..], Blank(e, ttl, vlan), 9)
  {
    var t, v := Blank(e, ttl, none), m[..6] + [0x8100, vlan] + m[6..];
    BlankIsTemplate(e, ttl, vlan);
    BlankIsTemplate(e, ttl, none);
    var u := t[..6] + [0x8100, vlan] + t[6..];
    forall k: nat | k <= 9 || k == 13 || 15 <= k < 21 ensures v[k] == u[k] {
      if 8 <= k { assert v[k] == m[k - 2] && u[k] == t[k - 2]; }
    }
  }

  lemma TaggedChecks(m: seq<Word>, vlan: Word, pad: seq<Word>)
    requires |m| == 21
    ensures var v := m[..6] + [0x8100, vlan] + m[6..];
            && IpCheck(v, 9) == IpCheck(m, 7) && UdpCheck(v, 9, pad) == UdpCheck(m, 7, pad)
            && forall k: nat :: 8 <= k < 23 ==> v[k] == m[k - 2]
  {
    var v := m[..6] + [0x8100, vlan] + m[6..];
    assert forall k: nat :: 8 <= k < 23 ==> v[k] == m[k - 2];
    assert IpWords(v[14 := 0], 9) == IpWords(m[12 := 0], 7);
    assert v[22 := 0][15..19] == m[20 := 0][13..17];
    assert v[22 := 0][19..23] == m[20 := 0][17..21];
  }

  lemma TaggedBytes(b: seq<Byte>, plain: seq<Byte>, vlan: Word)
    requires |plain| == 42 && b == plain[..12] + [0x81, 0x00, vlan / 0x100, vlan % 0x100] + plain[12..]
    ensures WordsAt(b, 0, 23) == WordsAt(plain, 0, 21)[..6] + [0x8100, vlan] + WordsAt(plain, 0, 21)[6..]
  {
    var m := WordsAt(plain, 0, 21);
    forall k: nat | k < 23 ensures Get16(b, 2 * k) == (m[..6] + [0x8100, vlan] + m[6..])[k] {
      if 8 <= k { assert Get16(b, 2 * k) == Get16(plain, 2 * (k - 2)); }
    }
  }
}
