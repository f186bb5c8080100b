/** IPv4 addresses as bytes, as numbers and as bits. */
module Addresses {
  import opened Basics
  import opened Shifts
  import opened Bytes

  type Bits = seq<bool>

  function Append(hi: nat, b: byte): nat {
    256 * hi + b
  }

  /** The address as one 32-bit number. */
  function Number(ip: seq<byte>): nat
    requires |ip| == 4
  {
    Append(Append(Append(ip[0], ip[1]), ip[2]), ip[3])
  }

  /** Bit `i` counted from the top, taken from the bytes. */
  function BitOf(ip: seq<byte>, i: nat): bool
    requires |ip| == 4 && i < 32
  {
    Shr(ip[i / 8], 7 - i % 8) % 2 == 1
  }

  /** The first `len` bits. */
  function Leading(ip: seq<byte>, len: nat): (b: Bits)
    requires |ip| == 4 && len <= 32
    ensures |b| == len
  {
    if len == 0 then [] else Leading(ip, len - 1) + [BitOf(ip, len - 1)]
  }

  /** The prefix contains the address: both agree above the lowest 32 - len bits. */
  predicate Contains(net: seq<byte>, len: nat, ip: seq<byte>)
    requires |net| == 4 && |ip| == 4 && len <= 32
  {
    Shr(Number(net), 32 - len) == Shr(Number(ip), 32 - len)
  }

  lemma AppendLow(hi: nat, b: byte, s: nat)
    requires s < 8
    ensures Shr(Append(hi, b), s) % 2 == Shr(b, s) % 2
  {
    LowBit(hi, b, s);
  }

  lemma AppendUpper(hi: nat, b: byte, k: nat)
    ensures Shr(Append(hi, b), 8 + k) == Shr(hi, k)
  {
    UpperBits(hi, b, k);
  }

  /** Bit `s` of each byte is a bit of the number. */
  lemma LastByteBit(hi: nat, b: byte, s: nat, n: nat)
    requires n == Append(hi, b) && s < 8
    ensures Shr(n, s) % 2 == Shr(b, s) % 2
  {
    AppendLow(hi, b, s);
  }

  lemma ThirdByteBit(hi: nat, b: byte, last: byte, s: nat, n: nat)
    requires n == Append(Append(hi, b), last) && s < 8
    ensures Shr(n, 8 + s) % 2 == Shr(b, s) % 2
  {
    AppendUpper(Append(hi, b), last, s);
    AppendLow(hi, b, s);
  }

  lemma SecondByteBit(hi: nat, b: byte, third: byte, last: byte, s: nat, n: nat)
    requires n == Append(Append(Append(hi, b), third), last) && s < 8
    ensures Shr(n, 16 + s) % 2 == Shr(b, s) % 2
  {
    AppendUpper(Append(Append(hi, b), third), last, 8 + s);
    ThirdByteBit(hi, b, third, s, Append(Append(hi, b), third));
  }

  lemma FirstByteBit(b: byte, second: byte, third: byte, last: byte, s: nat, n: nat)
    requires n == Append(Append(Append(b, second), third), last) && s < 8
    ensures Shr(n, 24 + s) % 2 == Shr(b, s) % 2
  {
    AppendUpper(Append(Append(b, second), third), last, 16 + s);
    AppendUpper(Append(b, second), third, 8 + s);
    AppendUpper(b, second, s);
  }

  lemma ByteBit(ip: seq<byte>, j: nat, s: nat)
    requires |ip| == 4 && j < 4 && s < 8
    ensures Shr(Number(ip), 8 * (3 - j) + s) % 2 == Shr(ip[j], s) % 2
  {
    if j == 0 { FirstByteBit(ip[0], ip[1], ip[2], ip[3], s, Number(ip)); }
    else if j == 1 { SecondByteBit(ip[0], ip[1], ip[2], ip[3], s, Number(ip)); }
    else if j == 2 { ThirdByteBit(Append(ip[0], ip[1]), ip[2], ip[3], s, Number(ip)); }
    else { LastByteBit(Append(Append(ip[0], ip[1]), ip[2]), ip[3], s, Number(ip)); }
  }

  /** The byte-wise bit is the bit of the number. */
  lemma BitOfNumber(ip: seq<byte>, i: nat)
    requires |ip| == 4 && i < 32
    ensures BitOf(ip, i) <==> Shr(Number(ip), 31 - i) % 2 == 1
  {
    ByteBit(ip, i / 8, 7 - i % 8);
    assert 8 * (3 - i / 8) + (7 - i % 8) == 31 - i;
  }

  lemma NumberFits(ip: seq<byte>)
    requires |ip| == 4
    ensures Shr(Number(ip), 32) == 0
  {
    AppendUpper(Append(Append(ip[0], ip[1]), ip[2]), ip[3], 24);
    AppendUpper(Append(ip[0], ip[1]), ip[2], 16);
    AppendUpper(ip[0], ip[1], 8);
    ShrInByte(0, ip[0]);
  }

  lemma HalfAndBit(m: nat, n: nat)
    ensures m == n <==> m / 2 == n / 2 && m % 2 == n % 2
  {
  }

  /** One more bit of both sides. */
  lemma ContainsStep(net: seq<byte>, len: nat, ip: seq<byte>)
    requires |net| == 4 && |ip| == 4 && len < 32
    ensures Contains(net, len + 1, ip) <==> Contains(net, len, ip) && BitOf(net, len) == BitOf(ip, len)
  {
    var k := 31 - len;
    assert 32 - len == k + 1;
    assert Shr(Number(net), k + 1) == Shr(Number(net), k) / 2;
    assert Shr(Number(ip), k + 1) == Shr(Number(ip), k) / 2;
    HalfAndBit(Shr(Number(net), k), Shr(Number(ip), k));
    BitOfNumber(net, len);
    BitOfNumber(ip, len);
  }

  lemma {:induction false} LeadingPrefix(ip: seq<byte>, len: nat, k: nat)
    requires |ip| == 4 && k <= len <= 32
    ensures Leading(ip, len)[..k] == Leading(ip, k)
    decreases len
  {
    if k < len {
      LeadingPrefix(ip, len - 1, k);
      assert Leading(ip, len)[..k] == Leading(ip, len - 1)[..k];
    }
  }

  /** Containment of numbers is agreement of the leading bits. */
  lemma {:induction false} ContainsIsLeading(net: seq<byte>, len: nat, ip: seq<byte>)
    requires |net| == 4 && |ip| == 4 && len <= 32
    ensures Contains(net, len, ip) <==> Leading(net, len) == Leading(ip, len)
    decreases len
  {
    if len == 0 {
      NumberFits(net);
      NumberFits(ip);
    } else {
      ContainsIsLeading(net, len - 1, ip);
      ContainsStep(net, len - 1, ip);
      SnocEqual(Leading(net, len - 1), BitOf(net, len - 1), Leading(ip, len - 1), BitOf(ip, len - 1));
    }
  }
}
