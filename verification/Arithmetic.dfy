/** What the modules share: machine words, optional values, and facts about products and quotients. */
module Arithmetic {
  /** A 32-bit unsigned integer. */
  type Word = w: nat | w < 0x1_0000_0000

  const WORD: nat := 0x1_0000_0000

  datatype Option<T> = None | Some(value: T)

  function Min(a: nat, b: nat): nat
  {
    if a < b then a else b
  }

  /** A product that a proof can hide. */
  function Times(a: nat, b: nat): (r: nat)
  {
    a * b
  }

  lemma Ordered(x: nat, y: nat, k: nat)
    requires x <= y
    ensures x * k <= y * k
  {
  }

  lemma Quotient(x: nat, q: nat, p: nat, r: nat)
    requires x == q * p + r && r < p
    ensures x / p == q && x % p == r
  {
    var q', r' := x / p, x % p;
    assert (q' - q) * p == r - r';
    if q < q' {
      Ordered(1, q' - q, p);
      assert false;
    }
    if q' < q {
      Ordered(1, q - q', p);
      assert false;
    }
  }
}
