/** Division by a number that is not a constant. */
module Division {

  lemma {:induction false} DivMod(d: nat, q: nat, r: nat)
    requires r < d
    ensures (q * d + r) / d == q && (q * d + r) % d == r
  {
    var x := q * d + r;
    var e := x / d - q;
    assert x == d * (x / d) + x % d;
    assert d * e == r - x % d;
  }

  lemma {:induction false} Product(d: nat, a: nat, b: nat)
    requires a <= b
    ensures a * d <= b * d
  {
  }

  /** Dividing in two steps. */
  lemma {:induction false} DivDiv(x: nat, d: nat)
    requires d > 0
    ensures x / 8 / d == x / (8 * d)
  {
    var q, r := x / 8 / d, x / 8 % d;
    assert x / 8 == q * d + r;
    assert x == q * (8 * d) + (8 * r + x % 8);
    DivMod(8 * d, q, 8 * r + x % 8);
  }

  lemma {:induction false} DivNat(x: nat, d: nat)
    requires d > 0
    ensures x / d >= 0 && 0 <= x % d < d && x == x / d * d + x % d
  {
  }

  /** Numbers with different quotients are at least a divisor apart, but for their remainders. */
  lemma {:induction false} Further(d: nat, a: nat, b: nat)
    requires a < b
    ensures a * d + d <= b * d
  {
    Product(d, a + 1, b);
    assert (a + 1) * d == a * d + d;
  }

  lemma {:induction false} DivOrder(x: nat, y: nat, d: nat)
    requires d > 0 && x <= y
    ensures x / d <= y / d
  {
    DivNat(x, d);
    DivNat(y, d);
    if x / d > y / d { Further(d, y / d, x / d); }
  }

  /** Division that rounds up. */
  lemma {:induction false} DivUp(x: nat, d: nat)
    requires d > 0
    ensures var k := (x + d - 1) / d; 0 <= k && x <= k * d < x + d
  {
    DivNat(x + d - 1, d);
  }
}
