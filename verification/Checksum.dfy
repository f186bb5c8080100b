/**
  One's-complement sums (RFC 1071). A stretch of bytes checks when the sum of its 16-bit words, an odd
  last byte padded with zero, folds to all ones.
 */
module Checksum {
  import opened Bytes

  function WordSum(b: seq<byte>): nat
    decreases |b|
  {
    if |b| == 0 then 0
    else if |b| == 1 then Be16(b[0], 0)
    else Be16(b[0], b[1]) + WordSum(b[2..])
  }

  /** End-around carry until the sum fits in 16 bits. */
  function Fold(s: nat): (r: nat)
    ensures r <= 0xffff && r <= s
    ensures s > 0 ==> r > 0
    decreases s
  {
    if s < 0x1_0000 then s else Fold(s % 0x1_0000 + s / 0x1_0000)
  }

  ghost predicate Checks(b: seq<byte>) {
    Fold(WordSum(b)) == 0xffff
  }

  /** What is stored in a checksum field: the complement of the folded sum. */
  function Complement(b: seq<byte>): (c: int)
    ensures 0 <= c <= 0xffff
  {
    0xffff - Fold(WordSum(b))
  }

  // ---------------------------------------------------------------- folding

  /** Folding keeps the value modulo 2^16 - 1; `k` says by how many multiples it went down. */
  lemma {:induction false} FoldKeepsResidue(s: nat) returns (k: nat)
    ensures s == Fold(s) + 0xffff * k
    decreases s
  {
    if s < 0x1_0000 {
      k := 0;
    } else {
      var q := s / 0x1_0000;
      var j := FoldKeepsResidue(s % 0x1_0000 + q);
      k := j + q;
    }
  }

  lemma MultipleHasNoRest(k: nat)
    ensures 0xffff * k % 0xffff == 0
  {
  }

  /** A positive multiple of 2^16 - 1 folds to all ones, and nothing else does. */
  lemma FoldsToAllOnes(s: nat)
    ensures Fold(s) == 0xffff <==> s > 0 && s % 0xffff == 0
  {
    var k := FoldKeepsResidue(s);
    if Fold(s) == 0xffff { MultipleHasNoRest(k + 1); }
  }

  /** Adding the complement of a sum makes it check. */
  lemma ComplementCompletes(s: nat)
    ensures Fold(s + (0xffff - Fold(s))) == 0xffff
  {
    var k := FoldKeepsResidue(s);
    MultipleHasNoRest(k + 1);
    FoldsToAllOnes(0xffff * (k + 1));
    assert s + (0xffff - Fold(s)) == 0xffff * (k + 1);
  }

  // ---------------------------------------------------------------- sums of parts

  lemma {:induction false} WordSumAppend(a: seq<byte>, b: seq<byte>)
    requires |a| % 2 == 0
    ensures WordSum(a + b) == WordSum(a) + WordSum(b)
    decreases |a|
  {
    if |a| == 0 {
      assert a + b == b;
    } else {
      assert (a + b)[2..] == a[2..] + b;
      WordSumAppend(a[2..], b);
    }
  }

  lemma {:induction false} WordSumBound(b: seq<byte>)
    ensures WordSum(b) <= 0xffff * ((|b| + 1) / 2)
    decreases |b|
  {
    if |b| >= 2 { WordSumBound(b[2..]); }
  }

  /** An odd last byte counts as if a zero byte followed it. */
  lemma {:induction false} OddTailIsPadded(b: seq<byte>)
    requires |b| % 2 == 1
    ensures WordSum(b + [0]) == WordSum(b)
    decreases |b|
  {
    if |b| > 1 {
      assert (b + [0])[2..] == b[2..] + [0];
      OddTailIsPadded(b[2..]);
    }
  }

  /** Each pair of bytes counts as one number, high byte first. */
  lemma WordSumOfPair(hi: byte, lo: byte, rest: seq<byte>)
    ensures WordSum([hi, lo] + rest) == Be16(hi, lo) + WordSum(rest)
  {
    assert ([hi, lo] + rest)[2..] == rest;
  }

  /** A 16-bit value stored at `at`, high byte first. */
  function Patched(b: seq<byte>, at: nat, v: int): (r: seq<byte>)
    requires at + 1 < |b| && 0 <= v <= 0xffff
    ensures |r| == |b|
  {
    var hi: byte, lo: byte := v / 256, v % 256;
    b[at := hi][at + 1 := lo]
  }

  lemma WordSumAround(b: seq<byte>, at: nat)
    requires at % 2 == 0 && at + 1 < |b|
    ensures WordSum(b) == WordSum(b[..at]) + Be16(b[at], b[at + 1]) + WordSum(b[at + 2..])
  {
    assert b == b[..at] + b[at..];
    WordSumAppend(b[..at], b[at..]);
    assert b[at..][2..] == b[at + 2..];
  }

  /** Two zero bytes at an even place replaced by a 16-bit value add that value. */
  lemma WordSumPatch(b: seq<byte>, at: nat, v: int)
    requires at % 2 == 0 && at + 1 < |b| && b[at] == 0 && b[at + 1] == 0 && 0 <= v <= 0xffff
    ensures WordSum(Patched(b, at, v)) == WordSum(b) + v
  {
    var c := Patched(b, at, v);
    WordSumAround(b, at);
    WordSumAround(c, at);
    assert c[..at] == b[..at] && c[at + 2..] == b[at + 2..];
    assert Be16(c[at], c[at + 1]) == v;
  }

  /** Storing the complement in a zeroed field makes the bytes check. */
  lemma StoredComplementChecks(b: seq<byte>, at: nat)
    requires at % 2 == 0 && at + 1 < |b| && b[at] == 0 && b[at + 1] == 0
    ensures Checks(Patched(b, at, Complement(b)))
  {
    WordSumPatch(b, at, Complement(b));
    ComplementCompletes(WordSum(b));
  }

  // ---------------------------------------------------------------- the loop

  /** The summing loop, with an odd last byte in the upper half of its word. */
  method SumWords(b: seq<byte>) returns (sum: nat)
    ensures sum == WordSum(b)
  {
    sum := 0;
    var i := 0;
    while i < |b| - 1
      invariant 0 <= i <= |b| && i % 2 == 0
      invariant sum == WordSum(b[..i])
    {
      assert b[..i + 2] == b[..i] + [b[i], b[i + 1]];
      WordSumAppend(b[..i], [b[i], b[i + 1]]);
      sum := sum + Be16(b[i], b[i + 1]);
      i := i + 2;
    }
    if |b| % 2 == 1 {
      assert i == |b| - 1;
      assert b == b[..i] + [b[i]];
      WordSumAppend(b[..i], [b[i]]);
      sum := sum + Be16(b[|b| - 1], 0);
    } else {
      assert b[..i] == b;
    }
  }

  method FoldSum(s: nat) returns (folded: nat)
    ensures folded == Fold(s)
  {
    folded := s;
    while folded > 0xffff
      invariant Fold(folded) == Fold(s)
    {
      folded := folded / 0x1_0000 + folded % 0x1_0000;
    }
  }

  /** The folded sum; the bound on the length is where the source's 32-bit sum would overflow. */
  method Sum(b: seq<byte>) returns (folded: int)
    requires |b| <= 131074
    ensures folded == Fold(WordSum(b))
  {
    var sum := SumWords(b);
    WordSumBound(b);
    assert sum < 0x1_0000_0000;
    folded := FoldSum(sum);
  }

  method IpChecksum(header: seq<byte>) returns (checksum: int)
    requires |header| <= 131074
    ensures checksum == Complement(header)
  {
    var folded := Sum(header);
    checksum := 0xffff - folded;
  }

  /** Computes the checksum of `p[lo..hi]` and stores it at `at`, where zeros were put before. */
  method StoreChecksum(p: array<byte>, lo: nat, hi: nat, at: nat)
    requires lo <= at && at + 1 < hi <= p.Length && (at - lo) % 2 == 0 && hi - lo <= 131074
    requires p[at] == 0 && p[at + 1] == 0
    modifies p
    ensures p[..] == Patched(old(p[..]), at, Complement(old(p[lo..hi])))
    ensures p[lo..hi] == Patched(old(p[lo..hi]), at - lo, Complement(old(p[lo..hi])))
    ensures p[..lo] == old(p[..lo]) && p[hi..] == old(p[hi..])
    ensures Checks(p[lo..hi])
  {
    var part := p[lo..hi];
    var c := IpChecksum(part);
    StoredComplementChecks(part, at - lo);
    p[at] := c / 256;
    p[at + 1] := c % 256;
    assert p[lo..hi] == Patched(part, at - lo, c);
  }
}
