/** Addresses as the forwarding table sees them: 32-bit words in host order
    (one for IPv4, four for IPv6), read bit by bit and stride by stride. */
module AddressBits {
  import opened Arithmetic

  type Word32 = x: nat | x < 0x1_0000_0000

  type Address = seq<Word32>

  /** Bit k of an address, counted from the most significant bit of word 0. */
  predicate Bit(a: Address, k: nat)
    requires k < 32 * |a|
  {
    (a[k / 32] / Pow2(31 - k % 32)) % 2 == 1
  }

  /** The `width` bits of `a` starting at bit `off`: a shift and a mask on the
      word that holds them. */
  function Index(a: Address, off: nat, width: nat): (r: nat)
    requires off / 32 < |a| && off % 32 + width <= 32
    ensures r < Pow2(width)
  {
    (a[off / 32] / Pow2(32 - (off % 32 + width))) % Pow2(width)
  }

  /** Bit o + l of a word is bit l of the stride that starts at bit o. */
  lemma BitInWord(x: nat, o: nat, width: nat, l: nat)
    requires o + width <= 32 && l < width
    ensures (x / Pow2(31 - (o + l))) % 2
            == (((x / Pow2(32 - (o + width))) % Pow2(width)) / Pow2(width - 1 - l)) % 2
  {
    hide Pow2;
    var s, m := 32 - (o + width), width - 1 - l;
    MaskedBit(x / Pow2(s), m, l);
    ShiftShift(x, s, m);
    assert m + l + 1 == width && s + m == 31 - (o + l);
  }

  /** Bit `off + l` of an address is bit `l` of the stride that contains it. */
  lemma BitOfIndex(a: Address, off: nat, width: nat, l: nat)
    requires off / 32 < |a| && off % 32 + width <= 32 && l < width
    ensures (off + l) / 32 == off / 32
    ensures Bit(a, off + l) <==> (Index(a, off, width) / Pow2(width - 1 - l)) % 2 == 1
  {
    hide Pow2;
    BitInWord(a[off / 32], off % 32, width, l);
    assert (off + l) / 32 == off / 32 && (off + l) % 32 == off % 32 + l;
  }

  /** The leading `l` bits of a stride, as a number, one bit at a time. */
  lemma LeadingStep(i: nat, width: nat, l: nat)
    requires l < width
    ensures i / Pow2(width - 1 - l) == 2 * (i / Pow2(width - l)) + (i / Pow2(width - 1 - l)) % 2
  {
    assert Pow2(width - l) == Pow2(width - 1 - l) * 2;
    DivDiv(i, Pow2(width - 1 - l), 2);
  }

  /** Two strides have the same leading `l` bits, as numbers, exactly when the
      addresses agree bit by bit there. */
  lemma {:induction false} LeadingBits(a: Address, b: Address, off: nat, width: nat, l: nat)
    requires off / 32 < |a| && off / 32 < |b| && off % 32 + width <= 32 && l <= width
    ensures Index(a, off, width) / Pow2(width - l) == Index(b, off, width) / Pow2(width - l)
            <==> forall k | off <= k < off + l :: Bit(a, k) == Bit(b, k)
  {
    hide Pow2, Index, Bit;
    var i: int, j: int := Index(a, off, width), Index(b, off, width);
    if l == 0 {
      DivModUnique(i, Pow2(width), 0, i);
      DivModUnique(j, Pow2(width), 0, j);
    } else {
      var p: int, q: int := Pow2(width - l), Pow2(width - (l - 1));
      LeadingBits(a, b, off, width, l - 1);
      BitOfIndex(a, off, width, l - 1);
      BitOfIndex(b, off, width, l - 1);
      LeadingStep(i, width, l - 1);
      LeadingStep(j, width, l - 1);
      LastDigit(i / p, j / p, i / q, j / q);
    }
  }

  lemma LastDigit(x: int, y: int, u: int, v: int)
    requires x == 2 * u + x % 2 && y == 2 * v + y % 2
    ensures x == y <==> u == v && (x % 2 == 1 <==> y % 2 == 1)
  {
  }
}
