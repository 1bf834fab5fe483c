/** Facts about products, quotients and their order. */
module Arithmetic {

  /** Cancels a positive factor. */
  lemma FactorOrder(a: int, b: int, c: int)
    requires c > 0 && a * c < b * c + c
    ensures a <= b
  {
    var d := a - b - 1;
    assert d * c == a * c - b * c - c;
    if d >= 0 {
      ProductSign(d, c);
    }
  }

  lemma ProductSign(d: nat, c: nat)
    ensures d * c >= 0
  {
  }

  lemma QuotientUnique(x: nat, span: nat, q: nat, r: nat)
    requires span > 0 && r < span && x == q * span + r
    ensures x / span == q && x % span == r
  {
    var q', r' := x / span, x % span;
    assert x == q' * span + r';
    FactorOrder(q, q', span);
    FactorOrder(q', q, span);
  }

  lemma QuotientOrder(a: nat, b: nat, g: nat)
    requires g > 0 && a <= b
    ensures a / g <= b / g
  {
    var p, q := a / g, b / g;
    assert a == p * g + a % g && b == q * g + b % g;
    FactorOrder(p, q, g);
  }

  /** A multiple lies between two numbers if its factor lies between their quotients. */
  lemma MultipleBetween(a: nat, b: nat, g: nat, c: nat)
    requires g > 0 && a / g < c <= b / g
    ensures a <= c * g <= b && (c * g) / g == c
  {
    var p, q := a / g, b / g;
    assert a == p * g + a % g && b == q * g + b % g;
    ProductOrder(p + 1, c, g);
    assert (p + 1) * g == p * g + g;
    ProductOrder(c, q, g);
    QuotientUnique(c * g, g, c, 0);
  }

  lemma ProductOrder(a: nat, b: nat, c: nat)
    requires a <= b
    ensures a * c <= b * c
  {
    var d := b - a;
    assert b * c == a * c + d * c;
    ProductSign(d, c);
  }

  /** Dividing twice is dividing by the product. */
  lemma QuotientBy256(v: nat, b: nat)
    requires b > 0
    ensures v / 256 / b == v / (256 * b)
  {
    var q, r := v / 256, v % 256;
    var p, t := q / b, q % b;
    assert q == p * b + t;
    ProductBy256(p, b);
    QuotientUnique(v, 256 * b, p, t * 256 + r);
  }

  lemma ProductBy256(p: nat, b: nat)
    ensures p * (256 * b) == 256 * (p * b)
  {
  }
}
