/** Left and right shifts of unbounded integers. */
module Shifts {

  /** One shifted left by `n`. */
  function Pow2(n: nat): (p: nat)
    ensures p >= 1
  {
    if n == 0 then 1 else 2 * Pow2(n - 1)
  }

  /** `n` shifted right by `k`. */
  function Shr(n: nat, k: nat): nat {
    if k == 0 then n else Shr(n, k - 1) / 2
  }

  lemma {:induction false} ShrTwice(n: nat, j: nat, k: nat)
    ensures Shr(n, j + k) == Shr(Shr(n, j), k)
    decreases k
  {
    if k > 0 { ShrTwice(n, j, k - 1); }
  }

  /** Shifting a number by at most a byte shifts its upper part and its lowest byte separately. */
  lemma ShrInByte(hi: nat, b: nat)
    requires b < 256
    ensures Shr(256 * hi + b, 0) == 256 * hi + Shr(b, 0)
    ensures Shr(256 * hi + b, 1) == 128 * hi + Shr(b, 1)
    ensures Shr(256 * hi + b, 2) == 64 * hi + Shr(b, 2)
    ensures Shr(256 * hi + b, 3) == 32 * hi + Shr(b, 3)
    ensures Shr(256 * hi + b, 4) == 16 * hi + Shr(b, 4)
    ensures Shr(256 * hi + b, 5) == 8 * hi + Shr(b, 5)
    ensures Shr(256 * hi + b, 6) == 4 * hi + Shr(b, 6)
    ensures Shr(256 * hi + b, 7) == 2 * hi + Shr(b, 7)
    ensures Shr(256 * hi + b, 8) == hi
  {
    var n := 256 * hi + b;
    assert Shr(n, 1) == Shr(n, 0) / 2 && Shr(b, 1) == Shr(b, 0) / 2;
    assert Shr(n, 2) == Shr(n, 1) / 2 && Shr(b, 2) == Shr(b, 1) / 2;
    assert Shr(n, 3) == Shr(n, 2) / 2 && Shr(b, 3) == Shr(b, 2) / 2;
    assert Shr(n, 4) == Shr(n, 3) / 2 && Shr(b, 4) == Shr(b, 3) / 2;
    assert Shr(n, 5) == Shr(n, 4) / 2 && Shr(b, 5) == Shr(b, 4) / 2;
    assert Shr(n, 6) == Shr(n, 5) / 2 && Shr(b, 6) == Shr(b, 5) / 2;
    assert Shr(n, 7) == Shr(n, 6) / 2 && Shr(b, 7) == Shr(b, 6) / 2;
    assert Shr(n, 8) == Shr(n, 7) / 2 && Shr(b, 8) == Shr(b, 7) / 2;
  }

  lemma EvenPlus(m: nat, x: nat)
    ensures (2 * m + x) % 2 == x % 2
  {
  }

  /** So the bits below the upper part are those of the byte. */
  lemma LowBits(hi: nat, b: nat)
    requires b < 256
    ensures Shr(256 * hi + b, 0) % 2 == Shr(b, 0) % 2 && Shr(256 * hi + b, 1) % 2 == Shr(b, 1) % 2
    ensures Shr(256 * hi + b, 2) % 2 == Shr(b, 2) % 2 && Shr(256 * hi + b, 3) % 2 == Shr(b, 3) % 2
    ensures Shr(256 * hi + b, 4) % 2 == Shr(b, 4) % 2 && Shr(256 * hi + b, 5) % 2 == Shr(b, 5) % 2
    ensures Shr(256 * hi + b, 6) % 2 == Shr(b, 6) % 2 && Shr(256 * hi + b, 7) % 2 == Shr(b, 7) % 2
  {
    ShrInByte(hi, b);
    EvenPlus(128 * hi, Shr(b, 0));
    EvenPlus(64 * hi, Shr(b, 1));
    EvenPlus(32 * hi, Shr(b, 2));
    EvenPlus(16 * hi, Shr(b, 3));
    EvenPlus(8 * hi, Shr(b, 4));
    EvenPlus(4 * hi, Shr(b, 5));
    EvenPlus(2 * hi, Shr(b, 6));
    EvenPlus(hi, Shr(b, 7));
  }

  lemma LowBit(hi: nat, b: nat, s: nat)
    requires b < 256 && s < 8
    ensures Shr(256 * hi + b, s) % 2 == Shr(b, s) % 2
  {
    LowBits(hi, b);
    if s < 4 {
      if s == 0 {} else if s == 1 {} else if s == 2 {} else { assert s == 3; }
    } else {
      if s == 4 {} else if s == 5 {} else if s == 6 {} else { assert s == 7; }
    }
  }

  lemma UpperBits(hi: nat, b: nat, k: nat)
    requires b < 256
    ensures Shr(256 * hi + b, 8 + k) == Shr(hi, k)
  {
    ShrInByte(hi, b);
    ShrTwice(256 * hi + b, 8, k);
  }
}
