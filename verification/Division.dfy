// Division by a variable.

module Division {
  import opened Bits

  /** x / n and x % n by repeated subtraction, so that proofs about cells and clusters need no
      division by a variable. */
  function Whole(x: nat, n: nat): nat
    requires n > 0
  {
    if x < n then 0 else 1 + Whole(x - n, n)
  }

  function Part(x: nat, n: nat): (r: nat)
    requires n > 0
    ensures r < n
  {
    if x < n then x else Part(x - n, n)
  }

  lemma {:induction false} WholeAndPart(x: nat, n: nat)
    requires n > 0
    ensures x / n == Whole(x, n) && x % n == Part(x, n)
  {
    if x >= n {
      WholeAndPart(x - n, n);
      var q, r := Whole(x - n, n), Part(x - n, n);
      assert x - n == q * n + r by {
        assert x - n == (x - n) / n * n + (x - n) % n;
      }
      assert (q + 1) * n == q * n + n;
      ModUnique(x, n, q + 1, r);
      QuotientUnique(x, n, q + 1, r);
    } else {
      ModUnique(x, n, 0, x);
      QuotientUnique(x, n, 0, x);
    }
  }

  lemma {:induction false} QuotientUnique(x: nat, n: nat, q: nat, r: nat)
    requires n > 0 && x == q * n + r && r < n && x % n == r
    ensures x / n == q
  {
    assert x == x / n * n + x % n;
    assert (x / n - q) * n == 0;
  }

  method Split(x: nat, n: nat) returns (q: nat, r: nat)
    requires n > 0
    ensures q == Whole(x, n) && r == Part(x, n)
  {
    WholeAndPart(x, n);
    q, r := x / n, x % n;
  }
}
