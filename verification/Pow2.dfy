/** Powers of two and the base-2 logarithm of src/nxt_mp.c. */
module Pow2 {

  function Pow(n: nat): (p: nat)
    ensures p >= 1
  {
    if n == 0 then 1 else 2 * Pow(n - 1)
  }

  lemma {:induction false} PowSum(a: nat, b: nat)
    ensures Pow(a + b) == Pow(a) * Pow(b)
  {
    if a > 0 {
      PowSum(a - 1, b);
      assert Pow(a + b) == 2 * Pow(a + b - 1);
      Twice(Pow(a - 1), Pow(b));
    }
  }

  lemma Twice(x: nat, y: nat)
    ensures 2 * x * y == 2 * (x * y)
  {
  }

  lemma {:induction false} PowMono(a: nat, b: nat)
    requires a <= b
    ensures Pow(a) <= Pow(b)
  {
    if a < b {
      PowMono(a, b - 1);
    }
  }

  lemma PowStrict(a: nat, b: nat)
    requires a < b
    ensures Pow(a) < Pow(b)
  {
    PowMono(a, b - 1);
  }

  lemma PowInjective(a: nat, b: nat)
    requires Pow(a) == Pow(b)
    ensures a == b
  {
    if a < b {
      PowStrict(a, b);
    } else if b < a {
      PowStrict(b, a);
    }
  }

  ghost predicate Multiple(x: nat, m: nat) {
    exists q: nat :: x == q * m
  }

  lemma MultipleSum(x: nat, y: nat, m: nat)
    requires Multiple(x, m) && Multiple(y, m)
    ensures Multiple(x + y, m)
  {
    var a: nat :| x == a * m;
    var b: nat :| y == b * m;
    assert x + y == (a + b) * m;
  }

  lemma MultipleTimes(k: nat, x: nat, m: nat)
    requires Multiple(x, m)
    ensures Multiple(k * x, m)
  {
    var a: nat :| x == a * m;
    Assoc(k, a, m);
    assert k * x == (k * a) * m;
  }

  lemma Assoc(x: nat, y: nat, z: nat)
    ensures x * (y * z) == (x * y) * z
  {
  }

  /** A larger power of two is a multiple of a smaller one. */
  lemma PowMultiple(a: nat, b: nat)
    requires a <= b
    ensures Multiple(Pow(b), Pow(a))
  {
    PowSum(b - a, a);
  }

  lemma MultipleTrans(x: nat, y: nat, z: nat)
    requires Multiple(x, y) && Multiple(y, z)
    ensures Multiple(x, z)
  {
    var a: nat :| x == a * y;
    MultipleTimes(a, y, z);
  }

  /** nxt_lg2: the position of the highest bit. */
  function Lg2(v: nat): (n: nat)
    requires v > 0
    ensures Pow(n) <= v < Pow(n + 1)
  {
    if v == 1 then 0 else Lg2(v / 2) + 1
  }
}
