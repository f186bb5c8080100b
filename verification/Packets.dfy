/**
  IPv4 packets on their way through the mesh: the time-to-live decrement in place, the ICMP message for
  an expired packet, IP-in-IP wrapping (section 3.1 of RFC 2003) and its removal.
 */
module Packets {
  import opened Basics
  import opened Bytes
  import opened Checksum

  type Packet = seq<byte>

  // ---------------------------------------------------------------- time to live

  predicate IsV4(p: Packet) {
    |p| > 0 && p[0] / 16 == 4
  }

  /** The header bytes the decrement sums up; a nonsensical length field is taken as 20. */
  function HeaderLen(p: Packet): (h: nat)
    requires |p| >= 20
    ensures 20 <= h <= |p| && h % 4 == 0
  {
    var h := 4 * (p[0] % 16);
    if h < 20 || h > |p| then 20 else h
  }

  /** Too short, not IPv4, or out of time already: left alone. */
  predicate Untouched(p: Packet) {
    |p| < 9 || p[0] / 16 != 4 || p[8] == 0
  }

  /** One less to live and no checksum yet. */
  function Aged(p: Packet): (r: Packet)
    requires |p| >= 20 && !Untouched(p)
    ensures |r| == |p|
  {
    p[8 := p[8] - 1][10 := 0][11 := 0]
  }

  function Decremented(p: Packet): (r: Packet)
    requires |p| >= 20
    ensures |r| == |p|
  {
    if Untouched(p) then p else Patched(Aged(p), 10, Complement(Aged(p)[..HeaderLen(p)]))
  }

  /** Decrements in place; the answer is the new time to live, 0 when it was left alone. A packet of 9 to
      19 bytes that is not rejected would make the source index out of range. */
  method DecrementIPTTL(p: array<byte>) returns (ttl: byte)
    requires Untouched(p[..]) || p.Length >= 20
    modifies p
    ensures old(Untouched(p[..])) ==> ttl == 0 && p[..] == old(p[..])
    ensures !old(Untouched(p[..])) ==> p[..] == Decremented(old(p[..])) && ttl == p[8]
  {
    assert forall i :: 0 <= i < p.Length ==> p[..][i] == p[i];
    if p.Length < 9 || p[0] / 16 != 4 { return 0; }
    if p[8] == 0 { return 0; }
    ghost var before := p[..];
    p[8] := p[8] - 1;
    p[10] := 0;
    p[11] := 0;
    assert p[..] == Aged(before);
    var headerLen := 4 * (p[0] % 16);
    if headerLen < 20 || headerLen > p.Length { headerLen := 20; }
    assert p[0..headerLen] == Aged(before)[..HeaderLen(before)];
    StoreChecksum(p, 0, headerLen, 10);
    ttl := p[8];
  }

  /** Of an IPv4 packet that has time to live, only that and the checksum change, the one by one, the other so
      that the header checks over the length its first byte gives, or over 20 bytes if that makes no sense. */
  lemma DecrementIsRight(p: Packet)
    requires |p| >= 20 && p[0] / 16 == 4 && p[8] > 0
    ensures Decremented(p)[8] == p[8] - 1
    ensures forall i :: 0 <= i < |p| && i != 8 && i != 10 && i != 11 ==> Decremented(p)[i] == p[i]
    ensures 20 <= 4 * (p[0] % 16) <= |p| ==> Checks(Decremented(p)[..4 * (p[0] % 16)])
    ensures !(20 <= 4 * (p[0] % 16) <= |p|) ==> Checks(Decremented(p)[..20])
  {
    var a, h := Aged(p), HeaderLen(p);
    StoredComplementChecks(a[..h], 10);
    assert Decremented(p)[..h] == Patched(a[..h], 10, Complement(a[..h]));
  }

  /** Any other packet is left alone. */
  lemma OthersAreLeftAlone(p: Packet)
    requires |p| >= 20 && (p[0] / 16 != 4 || p[8] == 0)
    ensures Decremented(p) == p
  {
  }

  /** The packet after `k` hops. */
  function Hops(p: Packet, k: nat): (r: Packet)
    requires |p| >= 20
    ensures |r| == |p|
  {
    if k == 0 then p else Decremented(Hops(p, k - 1))
  }

  /** A hop forwards when the decrement left some time to live. */
  predicate Forwards(p: Packet)
    requires |p| >= 20
  {
    !Untouched(p) && Decremented(p)[8] != 0
  }

  lemma HopDown(p: Packet)
    requires |p| >= 20 && p[0] / 16 == 4 && p[8] > 0
    ensures Decremented(p)[8] == p[8] - 1 && Decremented(p)[0] == p[0]
    ensures Forwards(p) <==> p[8] > 1
  {
    DecrementIsRight(p);
  }

  /** While there is time to live every hop takes one off. */
  lemma {:induction false} HopsCountDown(p: Packet, k: nat)
    requires |p| >= 20 && p[0] / 16 == 4 && k <= p[8]
    ensures Hops(p, k)[8] == p[8] - k && Hops(p, k)[0] == p[0]
    decreases k
  {
    if k > 0 {
      HopsCountDown(p, k - 1);
      HopDown(Hops(p, k - 1));
    }
  }

  /** An IPv4 packet is forwarded `k` times in a row if and only if `k` is less than its initial time to live;
      nothing else is forwarded at all. */
  lemma ForwardedLessThanTTL(p: Packet, k: nat)
    requires |p| >= 20 && k > 0
    ensures (forall j :: 0 <= j < k ==> Forwards(Hops(p, j))) <==> p[0] / 16 == 4 && k < p[8]
  {
    assert Hops(p, 0) == p;
    if p[0] / 16 == 4 && k < p[8] {
      forall j | 0 <= j < k ensures Forwards(Hops(p, j)) {
        HopsCountDown(p, j);
        HopDown(Hops(p, j));
      }
    } else if p[0] / 16 == 4 && 0 < p[8] <= k {
      HopsCountDown(p, p[8] - 1);
      HopDown(Hops(p, p[8] - 1));
      assert !Forwards(Hops(p, p[8] - 1));
    } else {
      assert !Forwards(Hops(p, 0));
    }
  }

  // ---------------------------------------------------------------- ICMP time exceeded

  /** A net.IP argument: nil, not an IPv4 address, or four bytes. */
  datatype Addr = NilAddr | OtherAddr | V4(bytes: seq<byte>)

  ghost predicate GoodAddr(a: Addr) {
    a.V4? ==> |a.bytes| == 4
  }

  /** What copying the address into a zeroed field leaves there. */
  function Field(a: Addr): (f: seq<byte>)
    requires GoodAddr(a)
    ensures |f| == 4
  {
    if a.V4? then a.bytes else [0, 0, 0, 0]
  }

  /** 576 bytes less the IP and the ICMP header. */
  const MAX_QUOTE := 548

  function Quote(original: Packet): Packet {
    if |original| > MAX_QUOTE then original[..MAX_QUOTE] else original
  }

  /** A 20-byte header with no options and a zero checksum. */
  function PlainHeader(total: nat, protocol: byte, src: seq<byte>, dst: seq<byte>): (h: Packet)
    requires |src| == 4 && |dst| == 4
    ensures |h| == 20
  {
    [0x45, 0] + Be16Bytes(total) + [0, 0, 0, 0, 64, protocol, 0, 0] + src + dst
  }

  /** A header without options, identification or fragmentation, of time to live 64, that checks. */
  ghost predicate IsHeader(h: Packet, total: nat, protocol: byte, src: seq<byte>, dst: seq<byte>) {
    && |h| == 20 && h[0] == 0x45 && h[1] == 0 && Be16(h[2], h[3]) == total % 0x1_0000
    && h[4] == 0 && h[5] == 0 && h[6] == 0 && h[7] == 0 && h[8] == 64 && h[9] == protocol
    && h[12..16] == src && h[16..20] == dst && Checks(h)
  }

  /** Type 11 code 0, four unused bytes and the quote; it checks, an odd last byte included. */
  ghost predicate IsExpiry(t: Packet, quote: Packet) {
    |t| == 8 + |quote| && t[..2] == [11, 0] && t[4..8] == [0, 0, 0, 0] && t[8..] == quote && Checks(t)
  }

  /** What the message must be: at most 576 bytes, a header from the local address to the sender, and the start
      of the original packet, all of it when it fits. */
  ghost predicate IsTimeExceeded(icmp: Packet, vip: Addr, original: Packet)
    requires GoodAddr(vip) && |original| >= 20
  {
    && |icmp| == (if 28 + |original| <= 576 then 28 + |original| else 576)
    && IsHeader(icmp[..20], |icmp|, 1, Field(vip), original[12..16])
    && IsExpiry(icmp[20..], original[..|icmp| - 28])
    && (vip.V4? ==> icmp[12..16] == vip.bytes)
  }

  method CopyInto(p: array<byte>, at: nat, b: seq<byte>)
    requires at + |b| <= p.Length
    modifies p
    ensures p[..at] == old(p[..at]) && p[at..at + |b|] == b && p[at + |b|..] == old(p[at + |b|..])
  {
    forall i | 0 <= i < |b| { p[at + i] := b[i]; }
  }

  method WriteFixedFields(p: array<byte>, total: nat, protocol: byte)
    requires p.Length >= 20
    modifies p
    ensures p[..12] == [0x45, 0] + Be16Bytes(total) + [0, 0, 0, 0, 64, protocol, 0, 0] && p[12..] == old(p[12..])
  {
    p[0], p[1] := 0x45, 0;
    p[2], p[3] := total / 256 % 256, total % 256;
    p[4], p[5], p[6], p[7] := 0, 0, 0, 0;
    p[8], p[9], p[10], p[11] := 64, protocol, 0, 0;
    assert p[..2] == [0x45, 0] && p[2..4] == Be16Bytes(total);
    assert p[4..12] == [0, 0, 0, 0, 64, protocol, 0, 0];
    assert p[..12] == p[..2] + p[2..4] + p[4..12];
  }

  /** The header fields one by one, with a zero checksum. */
  method WriteHeader(p: array<byte>, total: nat, protocol: byte, src: seq<byte>, dst: seq<byte>)
    requires p.Length >= 20 && |src| == 4 && |dst| == 4
    modifies p
    ensures p[..20] == PlainHeader(total, protocol, src, dst) && p[20..] == old(p[20..])
  {
    WriteFixedFields(p, total, protocol);
    ghost var fixed, rest := p[..12], p[20..];
    assert rest == p[12..][8..];
    CopyInto(p, 12, src);
    assert p[20..] == p[16..][4..] == rest;
    assert p[..16] == fixed + src by { assert p[..16] == p[..12] + p[12..16]; }
    CopyInto(p, 16, dst);
    assert p[..20] == p[..16] + p[16..20];
  }

  /** The ICMP part behind a header: type, code, no checksum yet, four unused bytes and the quote. */
  method WriteICMP(p: array<byte>, payload: seq<byte>)
    requires p.Length == 28 + |payload| && p[24] == 0 && p[25] == 0 && p[26] == 0 && p[27] == 0
    modifies p
    ensures p[20..] == [11, 0, 0, 0, 0, 0, 0, 0] + payload && p[..20] == old(p[..20])
  {
    p[20], p[21], p[22], p[23] := 11, 0, 0, 0;
    CopyInto(p, 28, payload);
    assert p[20..28] == [11, 0, 0, 0, 0, 0, 0, 0] && p[28..] == payload;
    assert p[20..] == p[20..28] + p[28..];
  }

  method GenerateICMPTimeExceeded(vip: Addr, original: Packet) returns (r: Option<Packet>)
    requires GoodAddr(vip)
    ensures r.None? <==> |original| < 20 || vip.NilAddr?
    ensures r.Some? ==> IsTimeExceeded(r.value, vip, original)
  {
    if |original| < 20 || vip.NilAddr? { return None; }
    var payload := Quote(original);
    var icmp := new byte[28 + |payload|](_ => 0);
    WriteHeader(icmp, icmp.Length, 1, Field(vip), original[12..16]);
    assert icmp[0..20] == icmp[..20];
    StoreChecksum(icmp, 0, 20, 10);
    ghost var head := icmp[0..20];
    WriteICMP(icmp, payload);
    assert icmp[20..icmp.Length] == icmp[20..];
    StoreChecksum(icmp, 20, icmp.Length, 22);
    ghost var tail := icmp[20..icmp.Length];
    assert icmp[..20] == head && icmp[..] == icmp[..20] + icmp[20..];
    TimeExceededParts(icmp[..], vip, original, head, tail);
    return Some(icmp[..]);
  }

  lemma HeaderIsRight(total: nat, protocol: byte, src: seq<byte>, dst: seq<byte>)
    requires |src| == 4 && |dst| == 4
    ensures var h := PlainHeader(total, protocol, src, dst);
            IsHeader(Patched(h, 10, Complement(h)), total, protocol, src, dst)
  {
    var h := PlainHeader(total, protocol, src, dst);
    StoredComplementChecks(h, 10);
    Be16Inverse(total);
    var r := Patched(h, 10, Complement(h));
    assert r[..10] == h[..10] && r[12..16] == h[12..16] == src && r[16..20] == h[16..20] == dst;
  }

  lemma ExpiryIsRight(quote: Packet)
    ensures var body := [11, 0, 0, 0, 0, 0, 0, 0] + quote;
            IsExpiry(Patched(body, 2, Complement(body)), quote)
  {
    var body := [11, 0, 0, 0, 0, 0, 0, 0] + quote;
    StoredComplementChecks(body, 2);
    var r := Patched(body, 2, Complement(body));
    assert r[..2] == body[..2] && r[4..8] == body[4..8] && r[8..] == body[8..] == quote;
  }

  /** A message put together from a finished header and a finished ICMP part. */
  lemma TimeExceededParts(icmp: Packet, vip: Addr, original: Packet, head: Packet, tail: Packet)
    requires GoodAddr(vip) && |original| >= 20 && icmp == head + tail && |head| == 20
    requires var header := PlainHeader(|icmp|, 1, Field(vip), original[12..16]);
             head == Patched(header, 10, Complement(header))
    requires var body := [11, 0, 0, 0, 0, 0, 0, 0] + Quote(original);
             tail == Patched(body, 2, Complement(body))
    ensures IsTimeExceeded(icmp, vip, original)
  {
    HeaderIsRight(|icmp|, 1, Field(vip), original[12..16]);
    ExpiryIsRight(Quote(original));
    assert icmp[..20] == head && icmp[20..] == tail && icmp[12..16] == head[12..16];
    assert Quote(original) == original[..|icmp| - 28];
  }

  // ---------------------------------------------------------------- IP in IP

  const IPIP: byte := 4

  function OuterHeader(src: seq<byte>, dst: seq<byte>, innerLen: nat): (h: Packet)
    requires |src| == 4 && |dst| == 4
    ensures |h| == 20
  {
    var h := PlainHeader(20 + innerLen, IPIP, src, dst);
    Patched(h, 10, Complement(h))
  }

  class IPIPTunnel {
    var localEIP: Addr
    var enabled: bool

    /** The tunnel is enabled exactly while a local egress address is set. */
    ghost predicate Valid()
      reads this
    {
      enabled <==> !localEIP.NilAddr?
    }

    constructor ()
      ensures Valid() && localEIP == NilAddr
    {
      localEIP, enabled := NilAddr, false;
    }

    method SetLocalEIP(eip: Addr)
      modifies this
      ensures Valid() && localEIP == eip
    {
      localEIP, enabled := eip, !eip.NilAddr?;
    }

    /** A packet if and only if the address set last was not nil. */
    method Encapsulate(src: Addr, dst: Addr, inner: Packet) returns (r: Option<Packet>)
      requires Valid() && GoodAddr(src) && GoodAddr(dst)
      ensures r.Some? <==> !localEIP.NilAddr?
      ensures r.Some? ==> r.value == OuterHeader(Field(src), Field(dst), |inner|) + inner
      ensures r.Some? && src.V4? && dst.V4? ==> r.value[12..16] == src.bytes && r.value[16..20] == dst.bytes
    {
      if !enabled { return None; }
      var header := new byte[20](_ => 0);
      WriteHeader(header, 20 + |inner|, IPIP, Field(src), Field(dst));
      assert header[0..20] == header[..20];
      StoreChecksum(header, 0, 20, 10);
      var result := new byte[20 + |inner|];
      CopyInto(result, 0, header[0..20]);
      CopyInto(result, 20, inner);
      assert result[..] == result[..20] + result[20..20 + |inner|];
      return Some(result[..]);
    }
  }

  lemma OuterHeaderIsRight(src: seq<byte>, dst: seq<byte>, innerLen: nat)
    requires |src| == 4 && |dst| == 4
    ensures IsHeader(OuterHeader(src, dst, innerLen), 20 + innerLen, 4, src, dst)
  {
    HeaderIsRight(20 + innerLen, IPIP, src, dst);
  }

  lemma Be16Inverse(n: nat)
    ensures Be16(Be16Bytes(n)[0], Be16Bytes(n)[1]) == n % 0x1_0000
  {
    var m := n / 256;
    var r := 256 * (m % 256) + n % 256;
    assert n == 0x1_0000 * (m / 256) + r && 0 <= r < 0x1_0000;
  }

  /** Strips the outer header, whose length field is believed. */
  function Decapsulate(packet: Packet): (r: Option<Packet>) {
    if |packet| < 20 || packet[0] / 16 != 4 || packet[9] != IPIP then None
    else if |packet| < 4 * (packet[0] % 16) then None
    else Some(packet[4 * (packet[0] % 16)..])
  }

  /** Unwrapping what was wrapped gives back the inner packet, of any length and content. */
  lemma DecapsulateInverts(src: seq<byte>, dst: seq<byte>, inner: Packet)
    requires |src| == 4 && |dst| == 4
    ensures Decapsulate(OuterHeader(src, dst, |inner|) + inner) == Some(inner)
  {
    OuterHeaderIsRight(src, dst, |inner|);
    assert (OuterHeader(src, dst, |inner|) + inner)[20..] == inner;
  }

  /** A header of any length, options included, is stripped as a whole. */
  lemma DecapsulateStrips(h: Packet, inner: Packet)
    requires |h| >= 20 && h[0] / 16 == 4 && h[9] == 4 && 4 * (h[0] % 16) == |h|
    ensures Decapsulate(h + inner) == Some(inner)
  {
    assert (h + inner)[|h|..] == inner;
  }

  /** And nothing is stripped from a packet that is too short, not IPv4, not IP-in-IP or shorter than its own
      header. */
  lemma DecapsulateRefuses(p: Packet)
    ensures Decapsulate(p).None? <==> |p| < 20 || p[0] / 16 != 4 || p[9] != 4 || |p| < 4 * (p[0] % 16)
  {
  }
}
