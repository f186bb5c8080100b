/**
  The flow key that pins a flow to one worker, and why it is the same at every hop: neither the time to
  live, nor the header checksum, nor one level of IP-in-IP is part of it.
 */
module FlowKeys {
  import opened Basics
  import opened Bytes
  import opened Packets

  /** More fragments follow (bit 0x20 of byte 6), or this one has an offset (the 13 bits below it). */
  predicate Fragmented(p: Packet)
    requires |p| >= 20
  {
    p[6] / 0x20 % 2 != 0 || p[6] % 0x20 != 0 || p[7] != 0
  }

  /** The inner packet of an unfragmented IP-in-IP packet with an IPv4 packet inside; else the packet. */
  function InnerPacket(p: Packet): Packet {
    if |p| < 20 || p[0] / 16 != 4 || p[9] != IPIP then p
    else if Fragmented(p) then p
    else
      var ihl := 4 * (p[0] % 16);
      if ihl < 20 || |p| < ihl + 20 then p
      else if p[ihl] / 16 != 4 then p
      else p[ihl..]
  }

  /** A fragment: in the 16 bits of flags and offset, one is set below the reserved and the do-not-fragment bit. */
  lemma FragmentedExactly(p: Packet)
    requires |p| >= 20
    ensures Fragmented(p) <==> Be16(p[6], p[7]) % 0x4000 != 0
  {
    var hi: int, lo: int := p[6], p[7];
    assert (256 * hi + lo) % 0x4000 == 256 * (hi % 0x40) + lo;
    assert hi % 0x40 == 0x20 * (hi / 0x20 % 2) + hi % 0x20;
  }

  /** An unfragmented IP-in-IP header of any length in front of an IPv4 packet is seen through. */
  lemma TunnelIsSeenThrough(h: Packet, inner: Packet)
    requires |h| >= 20 && h[0] / 16 == 4 && h[9] == 4 && 4 * (h[0] % 16) == |h| && Be16(h[6], h[7]) % 0x4000 == 0
    requires |inner| >= 20 && inner[0] / 16 == 4
    ensures InnerPacket(h + inner) == inner
  {
    var p := h + inner;
    FragmentedExactly(p);
    assert p[|h|..] == inner;
  }

  /** Nothing else is: a packet of another version or protocol, or a fragment, stays as it is. */
  lemma OthersAreTakenAsTheyAre(p: Packet)
    requires |p| < 20 || p[0] / 16 != 4 || p[9] != 4 || Be16(p[6], p[7]) % 0x4000 != 0
    ensures InnerPacket(p) == p
  {
    if |p| >= 20 { FragmentedExactly(p); }
  }

  // ---------------------------------------------------------------- the hash

  /** One byte of Jenkins' one-at-a-time hash. */
  function Mix(h: bv32, b: byte): bv32 {
    var x := h + b as bv32;
    var y := x + (x << 10);
    y ^ (y >> 6)
  }

  /** A hash taken byte by byte, whatever the mixing step is. */
  function MixAll<H>(mix: (H, byte) -> H, h: H, bytes: seq<byte>): H {
    if bytes == [] then h else mix(MixAll(mix, h, bytes[..|bytes| - 1]), bytes[|bytes| - 1])
  }

  function Finish(h: bv32): bv32 {
    var x := h + (h << 3);
    var y := x ^ (x >> 11);
    y + (y << 15)
  }

  function PortOffset(p: Packet): nat
    requires |p| >= 20
  {
    var ihl := 4 * (p[0] % 16);
    if ihl < 20 then 20 else ihl
  }

  predicate HasPorts(p: Packet)
    requires |p| >= 20
  {
    (p[9] == 6 || p[9] == 17) && |p| >= PortOffset(p) + 4
  }

  /** The bytes that identify a flow: addresses, protocol and, for TCP and UDP, both ports. */
  function FlowBytes(p: Packet): seq<byte>
    requires |p| >= 20
  {
    p[12..20] + [p[9]] + if HasPorts(p) then p[PortOffset(p)..PortOffset(p) + 4] else []
  }

  /** Two packets name the same flow if and only if they agree in both addresses, the protocol and, for TCP and
      UDP, both ports. */
  lemma FlowIsFiveTuple(p: Packet, q: Packet)
    requires WholeHeader(p) && WholeHeader(q)
    ensures FlowBytes(p) == FlowBytes(q) <==>
            && p[12..16] == q[12..16] && p[16..20] == q[16..20] && p[9] == q[9]
            && (p[9] == 6 || p[9] == 17 ==>
                  p[4 * (p[0] % 16)..4 * (p[0] % 16) + 4] == q[4 * (q[0] % 16)..4 * (q[0] % 16) + 4])
  {
    FlowParts(p);
    FlowParts(q);
    assert p[12..20] == p[12..16] + p[16..20] && q[12..20] == q[12..16] + q[16..20];
    if FlowBytes(p) == FlowBytes(q) {
      assert p[12..20][..4] == q[12..20][..4] && p[12..20][4..] == q[12..20][4..];
    }
  }

  /** The header is as long as its first byte says, and the ports fit behind it. */
  predicate WholeHeader(p: Packet) {
    |p| >= 24 && 20 <= 4 * (p[0] % 16) && 4 * (p[0] % 16) + 4 <= |p|
  }

  lemma FlowParts(p: Packet)
    requires WholeHeader(p)
    ensures var f, ports := FlowBytes(p), p[4 * (p[0] % 16)..4 * (p[0] % 16) + 4];
            && |f| >= 9 && f[..8] == p[12..20] && f[8] == p[9]
            && f[9..] == (if p[9] == 6 || p[9] == 17 then ports else [])
  {
  }

  /** The hash is Jenkins' one-at-a-time: its published value for the single byte of the letter a. */
  lemma HashOfLetterA()
    ensures Finish(MixAll(Mix, 0, [97])) == 0xca2e_9442
  {
    var a: seq<byte> := [97];
    assert a[..0] == [] && MixAll(Mix, 0, a) == Mix(0, 97);
  }

  function Key(p: Packet): bv32 {
    var q := InnerPacket(p);
    if |q| < 20 || q[0] / 16 != 4 then 0 else Finish(MixAll(Mix, 0, FlowBytes(q)))
  }

  lemma {:induction false} MixAppend<H>(mix: (H, byte) -> H, h: H, a: seq<byte>, b: seq<byte>)
    ensures MixAll(mix, h, a + b) == MixAll(mix, MixAll(mix, h, a), b)
    decreases |b|
  {
    if b == [] {
      assert a + b == a;
    } else {
      assert (a + b)[..|a + b| - 1] == a + b[..|b| - 1];
      MixAppend(mix, h, a, b[..|b| - 1]);
    }
  }

  method FlowKey(payload: Packet) returns (key: bv32)
    ensures key == Key(payload)
  {
    var p := InnerPacket(payload);
    if |p| < 20 { return 0; }
    if p[0] / 16 != 4 { return 0; }
    var h := HashFlow(Mix, 0, p);
    return Finish(h);
  }

  /** The three hash loops: addresses, protocol, ports. */
  method HashFlow<H>(mix: (H, byte) -> H, start: H, p: Packet) returns (h: H)
    requires |p| >= 20
    ensures h == MixAll(mix, start, FlowBytes(p))
  {
    var protocol := p[9];
    var ihl := 4 * (p[0] % 16);
    if ihl < 20 { ihl := 20; }
    h := MixRange(mix, start, p, 12, 20);
    h := mix(h, protocol);
    var a := p[12..20] + [protocol];
    assert a[..|a| - 1] == p[12..20];
    if (protocol == 6 || protocol == 17) && |p| >= ihl + 4 {
      MixAppend(mix, start, a, p[ihl..ihl + 4]);
      h := MixRange(mix, h, p, ihl, ihl + 4);
    } else {
      assert a + [] == a;
    }
  }

  method MixRange<H>(mix: (H, byte) -> H, start: H, p: Packet, lo: nat, hi: nat) returns (h: H)
    requires lo <= hi <= |p|
    ensures h == MixAll(mix, start, p[lo..hi])
  {
    h := start;
    for i := lo to hi
      invariant h == MixAll(mix, start, p[lo..i])
    {
      assert p[lo..i + 1][..i - lo] == p[lo..i];
      h := mix(h, p[i]);
    }
  }

  // ---------------------------------------------------------------- along a path

  /** Equal but for the time to live and the header checksum. */
  ghost predicate Alike(p: Packet, q: Packet) {
    |p| == |q| && forall i :: 0 <= i < |p| && i != 8 && i != 10 && i != 11 ==> p[i] == q[i]
  }

  lemma HopIsAlike(p: Packet)
    requires |p| >= 20
    ensures Alike(p, Decremented(p))
  {
    if !Untouched(p) { DecrementIsRight(p); }
  }

  lemma AlikeInner(p: Packet, q: Packet)
    requires Alike(p, q) && |p| >= 20 && InnerPacket(p) == p
    ensures InnerPacket(q) == q
  {
  }

  /** Packets that are alike have the same key. */
  lemma AlikeSameKey(p: Packet, q: Packet)
    requires Alike(p, q) && |p| >= 20 && IsV4(p) && InnerPacket(p) == p
    ensures Key(q) == Key(p)
  {
    AlikeInner(p, q);
    assert p[12..20] == q[12..20];
    if HasPorts(p) {
      var o := PortOffset(p);
      assert p[o..o + 4] == q[o..o + 4];
    }
  }

  /** An outer header as `Encapsulate` makes it, after any number of hops. */
  ghost predicate IsOuter(h: Packet) {
    |h| == 20 && h[0] == 0x45 && h[6] == 0 && h[7] == 0 && h[9] == IPIP
  }

  /** A wrapped packet is seen through. */
  lemma InnerOfWrapped(h: Packet, inner: Packet)
    requires IsOuter(h) && |inner| >= 20 && IsV4(inner)
    ensures InnerPacket(h + inner) == inner
    ensures Decapsulate(h + inner) == Some(inner)
  {
    var p := h + inner;
    assert p[20] == inner[0];
    assert p[20..] == inner;
  }

  datatype Step = Hop | Wrap(src: seq<byte>, dst: seq<byte>) | Unwrap

  /** Where a packet is on its path: plain, or inside one tunnel. */
  datatype Travel = Plain(packet: Packet) | Tunnelled(packet: Packet)

  /** One step of the path. Packets are only wrapped while plain and unwrapped while tunnelled. */
  ghost predicate Steps(t: Travel, step: Step, u: Travel) {
    match step
    case Hop => |t.packet| >= 20 && u == t.(packet := Decremented(t.packet))
    case Wrap(src, dst) =>
      |src| == 4 && |dst| == 4 && t.Plain? && u == Tunnelled(OuterHeader(src, dst, |t.packet|) + t.packet)
    case Unwrap =>
      t.Tunnelled? && Decapsulate(t.packet).Some? && u == Plain(Decapsulate(t.packet).value)
  }

  /** The travelling packet is `p` but for time to live and checksum, with an outer header while tunnelled. */
  ghost predicate Carries(t: Travel, p: Packet) {
    match t
    case Plain(q) => Alike(p, q)
    case Tunnelled(q) => |q| == 20 + |p| && IsOuter(q[..20]) && Alike(p, q[20..])
  }

  lemma AlikeTransitive(p: Packet, q: Packet, r: Packet)
    requires Alike(p, q) && Alike(q, r)
    ensures Alike(p, r)
  {
  }

  lemma HopCarries(t: Travel, u: Travel, p: Packet)
    requires Steps(t, Hop, u) && Carries(t, p)
    ensures Carries(u, p)
  {
    HopIsAlike(t.packet);
    match t
    case Plain(q) => AlikeTransitive(p, q, u.packet);
    case Tunnelled(q) =>
      assert q[20..] == u.packet[20..];
      assert IsOuter(u.packet[..20]);
  }

  lemma StepCarries(t: Travel, step: Step, u: Travel, p: Packet)
    requires |p| >= 20 && IsV4(p) && Steps(t, step, u) && Carries(t, p)
    ensures Carries(u, p)
  {
    match step
    case Hop => HopCarries(t, u, p);
    case Wrap(src, dst) =>
      var h := OuterHeader(src, dst, |t.packet|);
      OuterHeaderIsRight(src, dst, |t.packet|);
      assert u.packet[..20] == h && u.packet[20..] == t.packet;
    case Unwrap =>
      var q := t.packet;
      assert q == q[..20] + q[20..];
      InnerOfWrapped(q[..20], q[20..]);
  }

  lemma CarriedKey(t: Travel, p: Packet)
    requires |p| >= 20 && IsV4(p) && InnerPacket(p) == p && Carries(t, p)
    ensures Key(t.packet) == Key(p)
  {
    match t
    case Plain(q) => AlikeSameKey(p, q);
    case Tunnelled(q) =>
      var inner := q[20..];
      assert q == q[..20] + inner;
      InnerOfWrapped(q[..20], inner);
      AlikeInner(p, inner);
      AlikeSameKey(p, inner);
  }

  ghost predicate StepAt(path: seq<Travel>, steps: seq<Step>, i: nat)
    requires i < |steps| && i + 1 < |path|
  {
    Steps(path[i], steps[i], path[i + 1])
  }

  /** `path` is how packet `p`, plain at first, goes through `steps`. */
  ghost predicate IsPath(p: Packet, path: seq<Travel>, steps: seq<Step>) {
    && |path| == |steps| + 1 && path[0] == Plain(p)
    && forall i :: 0 <= i < |steps| ==> StepAt(path, steps, i)
  }

  lemma {:induction false} PathCarries(p: Packet, path: seq<Travel>, steps: seq<Step>, n: nat)
    requires |p| >= 20 && IsV4(p) && IsPath(p, path, steps) && n < |path|
    ensures Carries(path[n], p)
    decreases n
  {
    if n > 0 {
      PathCarries(p, path, steps, n - 1);
      assert StepAt(path, steps, n - 1);
      StepCarries(path[n - 1], steps[n - 1], path[n], p);
    }
  }

  /** Along any path of hops, wraps and unwraps, the key of the travelling packet is the key it started
      with, for every IPv4 packet that is not itself a tunnel. */
  lemma KeyIsConstant(p: Packet, path: seq<Travel>, steps: seq<Step>, n: nat)
    requires |p| >= 20 && IsV4(p) && InnerPacket(p) == p
    requires IsPath(p, path, steps) && n < |path|
    ensures Key(path[n].packet) == Key(p)
  {
    PathCarries(p, path, steps, n);
    CarriedKey(path[n], p);
  }

  /** And an unwrapped packet is never a wrong one: what leaves the tunnel is the packet that entered it,
      up to the decrements made outside, which do not touch the inside at all. */
  lemma {:induction false} TunnelKeepsInside(inner: Packet, h: Packet, k: nat)
    requires |inner| >= 20 && IsV4(inner) && IsOuter(h)
    ensures Decapsulate(Hops(h + inner, k)) == Some(inner)
    ensures IsOuter(Hops(h + inner, k)[..20]) && Hops(h + inner, k)[20..] == inner
    decreases k
  {
    if k == 0 {
      assert (h + inner)[..20] == h && (h + inner)[20..] == inner;
      InnerOfWrapped(h, inner);
    } else {
      TunnelKeepsInside(inner, h, k - 1);
      var q, r := Hops(h + inner, k - 1), Hops(h + inner, k);
      HopIsAlike(q);
      assert r[20..] == q[20..] && IsOuter(r[..20]);
      assert r == r[..20] + r[20..];
      InnerOfWrapped(r[..20], inner);
    }
  }

  /** The key of a wrapped packet is the hash of the packet itself, while a packet that is already a tunnel
      has the hash of what is inside it: wrapping keeps the key if both name the same flow. */
  lemma WrappingKeepsKey(h: Packet, inner: Packet)
    requires IsOuter(h) && |inner| >= 20 && IsV4(inner)
    requires FlowBytes(InnerPacket(inner)) == FlowBytes(inner)
    ensures Key(h + inner) == Key(inner)
  {
    InnerOfWrapped(h, inner);
  }

  /** A mixing step without collisions. */
  function Collect(seen: seq<byte>, x: byte): seq<byte> {
    seen + [x]
  }

  lemma {:induction false} CollectAll(a: seq<byte>)
    ensures MixAll(Collect, [], a) == a
    decreases |a|
  {
    if a != [] {
      CollectAll(a[..|a| - 1]);
      assert a == a[..|a| - 1] + [a[|a| - 1]];
    }
  }

  /** Short of hash collisions that is exact: wrapping keeps the hash under every mixing step if and only if
      both name the same flow. */
  lemma WrappingKeepsEveryHash(h: Packet, inner: Packet)
    requires IsOuter(h) && |inner| >= 20 && IsV4(inner)
    ensures FlowBytes(InnerPacket(inner)) == FlowBytes(inner) <==>
            forall mix: (seq<byte>, byte) -> seq<byte> ::
              MixAll(mix, [], FlowBytes(InnerPacket(h + inner))) == MixAll(mix, [], FlowBytes(InnerPacket(inner)))
  {
    InnerOfWrapped(h, inner);
    CollectAll(FlowBytes(inner));
    CollectAll(FlowBytes(InnerPacket(inner)));
  }

  /** A tunnel between zero addresses around a packet of protocol 0 between zero addresses. */
  function Tunnel(): (t: Packet)
    ensures |t| == 40
  {
    seq(40, i => if i == 0 || i == 20 then 0x45 else if i == 9 then IPIP else 0)
  }

  lemma TunnelFlows()
    ensures IsV4(Tunnel()) && InnerPacket(Tunnel()) == Tunnel()[20..]
    ensures FlowBytes(Tunnel()) == seq(8, _ => 0) + [IPIP]
    ensures FlowBytes(Tunnel()[20..]) == seq(8, _ => 0) + [0]
  {
    var t := Tunnel();
    assert t[12..20] == seq(8, _ => 0) && t[20..][12..20] == seq(8, _ => 0);
  }

  lemma {:induction false} ZerosMixToZero(n: nat)
    ensures MixAll(Mix, 0, seq(n, _ => 0)) == 0
    decreases n
  {
    if n > 0 {
      ZerosMixToZero(n - 1);
      var zeros: seq<byte> := seq(n, _ => 0);
      assert zeros[..n - 1] == seq(n - 1, _ => 0);
    }
  }

  lemma ZerosThen(x: byte)
    ensures MixAll(Mix, 0, seq(8, _ => 0) + [x]) == Mix(0, x)
  {
    var zeros: seq<byte> := seq(8, _ => 0);
    assert (zeros + [x])[..8] == zeros;
    ZerosMixToZero(8);
  }

  /** The condition is needed: wrapping a packet that is itself a tunnel can change its key. */
  lemma WrappingATunnelChangesKey(h: Packet)
    requires IsOuter(h)
    ensures Key(h + Tunnel()) != Key(Tunnel())
  {
    TunnelFlows();
    InnerOfWrapped(h, Tunnel());
    ZerosThen(0);
    ZerosThen(IPIP);
  }
}
