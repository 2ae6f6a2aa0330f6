/** The 64-bit mask of relation kinds: bit k stands for kind k. */
module KindMask {
  function Bit(k: bv6): bv64 {
    (1 as bv64) << k
  }

  predicate MaskHas(mask: bv64, k: bv6) {
    mask & Bit(k) != 0
  }

  lemma BitsAreDisjoint(k: bv6, j: bv6)
    ensures Bit(k) & Bit(j) == if k == j then Bit(k) else 0
    ensures Bit(k) != 0
  {
  }

  lemma AndDistributes(mask: bv64, a: bv64, b: bv64)
    ensures (mask | a) & b == (mask & b) | (a & b)
  {
  }

  lemma OrZero(x: bv64, y: bv64)
    ensures x | y != 0 <==> x != 0 || y != 0
  {
  }

  lemma SetBit(mask: bv64, kind: bv6, k: bv6)
    ensures MaskHas(mask | Bit(kind), k) <==> k == kind || MaskHas(mask, k)
  {
    BitsAreDisjoint(kind, k);
    AndDistributes(mask, Bit(kind), Bit(k));
    OrZero(mask & Bit(k), Bit(kind) & Bit(k));
  }

  lemma ClearBit(mask: bv64, kind: bv6, k: bv6)
    ensures MaskHas(mask & !Bit(kind), k) <==> k != kind && MaskHas(mask, k)
  {
  }

  lemma CastBack(k: nat)
    requires k < 64
    ensures (k as bv6) as nat == k
  {
  }

  lemma CastIsInjective(k: nat, j: nat)
    requires k < 64 && j < 64
    ensures k as bv6 == j as bv6 <==> k == j
  {
    CastBack(k);
    CastBack(j);
  }
}
