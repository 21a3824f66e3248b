/** Single bits of a byte. */
module BitBytes {

  function Mask(k: nat): bv8
    requires k < 8
  {
    if k == 0 then 1 else if k == 1 then 2 else if k == 2 then 4 else if k == 3 then 8
    else if k == 4 then 16 else if k == 5 then 32 else if k == 6 then 64 else 128
  }

  /** Bit k is the k-th from the least significant one. */
  lemma {:induction false} MaskDoubles(k: nat)
    requires k < 7
    ensures Mask(0) == 1 && Mask(k + 1) == Mask(k) << 1
  {
  }

  predicate Has(b: bv8, k: nat)
    requires k < 8
  {
    b & Mask(k) != 0
  }

  /** The byte with bit k set to v, as |= and &= ~ do it. */
  function With(b: bv8, k: nat, v: bool): bv8
    requires k < 8
  {
    if v then b | Mask(k) else b & !Mask(k)
  }

  lemma {:induction false} WithHas(b: bv8, k: nat, v: bool, j: nat)
    requires k < 8 && j < 8
    ensures Has(With(b, k, v), j) <==> if j == k then v else Has(b, j)
  {
  }

  lemma {:induction false} SameBits(b: bv8, c: bv8)
    requires forall j :: 0 <= j < 8 ==> (Has(b, j) <==> Has(c, j))
    ensures b == c
  {
    assert Has(b, 0) <==> Has(c, 0);
    assert Has(b, 1) <==> Has(c, 1);
    assert Has(b, 2) <==> Has(c, 2);
    assert Has(b, 3) <==> Has(c, 3);
    assert Has(b, 4) <==> Has(c, 4);
    assert Has(b, 5) <==> Has(c, 5);
    assert Has(b, 6) <==> Has(c, 6);
    assert Has(b, 7) <==> Has(c, 7);
  }
}
