/** Prefix masks of 32-bit addresses. */
module Masks {

  /** How many bits a prefix of `len` bits leaves. */
  function Spare(len: nat): (k: bv32)
    requires len <= 32
    ensures k <= 32
  {
    (32 - len) as bv32
  }

  /** The mask that clears the lowest `k` bits. */
  function Mask(k: bv32): bv32
    requires k <= 32
  {
    0xffff_ffff << k
  }

  function Masked(x: bv32, mask: bv32): bv32 {
    x & mask
  }

  /** The number that the bits above the lowest `k` make. */
  function Top(x: bv32, k: bv32): bv32
    requires k <= 32
  {
    x >> k
  }

  lemma MaskedIsShiftedBack(x: bv32, k: bv32)
    requires k <= 32
    ensures Masked(x, Mask(k)) == Top(x, k) << k
  {
  }

  lemma TopOfMasked(x: bv32, k: bv32)
    requires k <= 32
    ensures Top(x, k) == Masked(x, Mask(k)) >> k
  {
  }

  lemma SameMaskedSameTop(a: bv32, b: bv32, k: bv32)
    requires k <= 32 && Masked(a, Mask(k)) == Masked(b, Mask(k))
    ensures Top(a, k) == Top(b, k)
  {
    TopOfMasked(a, k);
    TopOfMasked(b, k);
  }

  lemma SameTopSameMasked(a: bv32, b: bv32, k: bv32)
    requires k <= 32 && Top(a, k) == Top(b, k)
    ensures Masked(a, Mask(k)) == Masked(b, Mask(k))
  {
    MaskedIsShiftedBack(a, k);
    MaskedIsShiftedBack(b, k);
  }

  /** Comparing under the mask of a prefix is comparing the leading bits. */
  lemma MaskComparesTop(a: bv32, b: bv32, k: bv32)
    requires k <= 32
    ensures Masked(a, Mask(k)) == Masked(b, Mask(k)) <==> Top(a, k) == Top(b, k)
  {
    if Masked(a, Mask(k)) == Masked(b, Mask(k)) { SameMaskedSameTop(a, b, k); }
    if Top(a, k) == Top(b, k) { SameTopSameMasked(a, b, k); }
  }

  /** The first 32 bits are the whole address. */
  lemma WholeIsTop(x: bv32)
    ensures Spare(32) == 0 && Top(x, Spare(32)) == x
  {
  }
}
