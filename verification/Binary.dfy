/** Bytes, the hash as a parameter, and the small arithmetic the other modules share. */
module Binary {
  type byte = x: int | 0 <= x < 256
  type Bytes = seq<byte>

  type Digest = d: Bytes | |d| == 32 witness seq(32, _ => 0)

  // SHA-256 is a parameter of every definition that hashes. Nothing is assumed of it: results that
  // need collision-freedom name the two colliding inputs instead.
  type Hash = Bytes -> Digest

  predicate Collides<D(==)>(h: Bytes -> D, x: Bytes, y: Bytes) {
    x != y && h(x) == h(y)
  }

  datatype Option<+T> = None | Some(value: T)

  function Min(a: int, b: int): int {
    if a < b then a else b
  }

  function Pow2(j: nat): (p: nat)
    ensures p >= 1
  {
    if j == 0 then 1 else 2 * Pow2(j - 1)
  }

  // The exponent of the highest set bit.
  function Lg(n: nat): (j: nat)
    requires n >= 1
    ensures Pow2(j) <= n < Pow2(j + 1)
  {
    if n == 1 then 0 else 1 + Lg(n / 2)
  }

  predicate IsPow2(n: nat) {
    n == 1 || (n > 1 && n % 2 == 0 && IsPow2(n / 2))
  }

  lemma {:induction false} IsPow2Lg(n: nat)
    requires n >= 1
    ensures IsPow2(n) <==> n == Pow2(Lg(n))
  {
    if n > 1 {
      IsPow2Lg(n / 2);
      if n % 2 == 1 {
        assert Pow2(Lg(n)) == 2 * Pow2(Lg(n / 2));
      }
    }
  }

  lemma {:induction false} Pow2IsPow2(j: nat)
    ensures IsPow2(Pow2(j)) && Lg(Pow2(j)) == j
  {
    if j > 0 {
      Pow2IsPow2(j - 1);
      assert Pow2(j) / 2 == Pow2(j - 1);
    }
  }

  lemma {:induction false} LgUnique(n: nat, j: nat)
    requires Pow2(j) <= n < Pow2(j + 1)
    ensures Lg(n) == j
  {
    if j > 0 {
      LgUnique(n / 2, j - 1);
    }
  }

  // Python's `&` on non-negative integers.
  function BitAnd(a: nat, b: nat): nat {
    if a == 0 || b == 0 then 0
    else 2 * BitAnd(a / 2, b / 2) + if a % 2 == 1 && b % 2 == 1 then 1 else 0
  }

  lemma {:induction false} BitAndSelf(a: nat)
    ensures BitAnd(a, a) == a
  {
    if a > 0 {
      BitAndSelf(a / 2);
    }
  }

  // The usual bit test for a power of two says what it is meant to say.
  lemma {:induction false} PowerOfTwoTest(n: nat)
    requires n >= 1
    ensures BitAnd(n, n - 1) == 0 <==> IsPow2(n)
  {
    if n > 1 {
      if n % 2 == 1 {
        BitAndSelf(n / 2);
        assert (n - 1) / 2 == n / 2;
      } else {
        PowerOfTwoTest(n / 2);
        assert (n - 1) / 2 == n / 2 - 1;
      }
    }
  }
}
