/** Arithmetic modulo a prime: no zero divisors, and Fermat's little theorem. */
module Primes {
  import opened Words

  predicate Prime(q: int) {
    q >= 2 && forall d :: 2 <= d < q ==> q % d != 0
  }

  ghost predicate Divides(q: int, a: int) {
    exists k :: a == q * k
  }

  lemma DividesIff(q: nat, a: int)
    requires q > 0
    ensures Divides(q, a) <==> a % q == 0
  {
    if a % q == 0 {
      assert a == q * (a / q);
    }
    if Divides(q, a) {
      var k :| a == q * k;
      DivModUnique(a, q, k, 0);
    }
  }

  lemma DividesScaled(q: nat, a: int, b: int)
    requires Divides(q, a)
    ensures Divides(q, a * b) && Divides(q, b * a)
  {
    var k :| a == q * k;
    assert a * b == q * (k * b);
    assert b * a == q * (k * b);
  }

  lemma DividesSum(q: nat, a: int, b: int)
    requires Divides(q, a) && Divides(q, b)
    ensures Divides(q, a + b) && Divides(q, a - b)
  {
    var k :| a == q * k;
    var l :| b == q * l;
    assert a + b == q * (k + l) && a - b == q * (k - l);
  }

  lemma DividesRest(q: nat, a: int)
    requires q > 0
    ensures Divides(q, a - a % q)
  {
    assert a - a % q == q * (a / q);
  }

  /** The least positive multiplier that takes b to 0 divides q, so a prime has no zero divisors. */
  lemma Euclid(q: nat, a: int, b: int)
    requires Prime(q) && Divides(q, a * b) && !Divides(q, a)
    ensures Divides(q, b)
  {
    var r := a % q;
    DividesIff(q, a);
    ResidueKills(q, a, b);
    hide Divides, Prime;
    var m: nat := 1;
    while !Divides(q, m * b)
      invariant 1 <= m <= r && forall k :: 1 <= k < m ==> !Divides(q, k * b)
      decreases r - m
    {
      m := m + 1;
    }
    Remainder(q, m, b);
    LeastDivides(q, m);
  }

  lemma ResidueKills(q: nat, a: int, b: int)
    requires q > 0 && Divides(q, a * b)
    ensures Divides(q, (a % q) * b)
  {
    hide Divides;
    DividesRest(q, a);
    DividesScaled(q, a - a % q, b);
    DividesSum(q, a * b, (a - a % q) * b);
    assert a * b - (a - a % q) * b == (a % q) * b;
  }

  lemma Remainder(q: nat, m: nat, b: int)
    requires m > 0 && Divides(q, m * b)
    ensures Divides(q, (q % m) * b)
  {
    var n := q / m;
    assert q == m * n + q % m;
    assert (q % m) * b == q * b - n * (m * b);
    hide Divides;
    DividesScaled(q, m * b, n);
    assert Divides(q, q * b) by {
      DividesSelf(q);
      DividesScaled(q, q, b);
    }
    DividesSum(q, q * b, n * (m * b));
  }

  lemma DividesSelf(q: nat)
    ensures Divides(q, q)
  {
    assert q == q * 1;
  }

  lemma LeastDivides(q: nat, m: nat)
    requires Prime(q) && 1 <= m < q
    ensures m == 1 || 1 <= q % m < m
  {
  }

  // ---- products ----

  function Product(s: seq<int>): int {
    if s == [] then 1 else Product(s[..|s| - 1]) * s[|s| - 1]
  }

  function Factorial(n: nat): int {
    if n == 0 then 1 else Factorial(n - 1) * n
  }

  function Without(s: seq<int>, k: nat): seq<int>
    requires k < |s|
  {
    s[..k] + s[k + 1..]
  }

  lemma {:induction false} ProductWithout(s: seq<int>, k: nat)
    requires k < |s|
    ensures Product(s) == Product(Without(s, k)) * s[k]
    decreases |s|
  {
    var front, last := s[..|s| - 1], s[|s| - 1];
    if k == |s| - 1 {
      assert Without(s, k) == front;
    } else {
      ProductWithout(front, k);
      var w := Without(s, k);
      assert w[..|w| - 1] == Without(front, k) && w[|w| - 1] == last && front[k] == s[k];
      Swap(Product(Without(front, k)), s[k], last);
    }
  }

  lemma Swap(a: int, b: int, c: int)
    ensures (a * b) * c == (a * c) * b
  {
  }

  predicate Distinct(s: seq<int>) {
    forall i, j :: 0 <= i < j < |s| ==> s[i] != s[j]
  }

  predicate Within(s: seq<int>, n: nat) {
    forall i :: 0 <= i < |s| ==> 1 <= s[i] <= n
  }

  predicate Between(i: int, n: nat) {
    1 <= i < n
  }

  function Below(n: nat): set<int> {
    set i | 1 <= i < n && Between(i, n)
  }

  /** n distinct numbers from 1 to n include n. */
  lemma Pigeons(s: seq<int>, n: nat)
    requires n > 0 && |s| == n && Distinct(s) && Within(s, n)
    ensures n in s
  {
    if n !in s {
      var all := Below(n);
      Count(n);
      Members(s);
      assert forall x :: x in s ==> Between(x, n);
      assert (set x | x in s) <= all;
      SmallerSet((set x | x in s), all);
    }
  }

  lemma {:induction false} Count(n: nat)
    requires n > 0
    ensures |Below(n)| == n - 1
  {
    var all := Below(n);
    if n == 1 {
      assert all == {};
    } else {
      Count(n - 1);
      forall i ensures i in all <==> i in Below(n - 1) + {n - 1} {
        assert Between(i, n) <==> Between(i, n - 1) || i == n - 1;
      }
      assert all == Below(n - 1) + {n - 1};
    }
  }

  lemma {:induction false} Members(s: seq<int>)
    requires Distinct(s)
    ensures |set x | x in s| == |s|
  {
    if s != [] {
      var front, last := s[..|s| - 1], s[|s| - 1];
      Members(front);
      assert s == front + [last];
      assert (set x | x in s) == (set x | x in front) + {last};
    }
  }

  lemma SmallerSet(a: set<int>, b: set<int>)
    requires a <= b
    ensures |a| <= |b|
  {
    assert b == a + (b - a);
  }

  /** n distinct numbers from 1 to n multiply to n!. */
  lemma {:induction false} Rearranged(s: seq<int>, n: nat)
    requires |s| == n && Distinct(s) && Within(s, n)
    ensures Product(s) == Factorial(n)
  {
    if n > 0 {
      Pigeons(s, n);
      var k :| 0 <= k < |s| && s[k] == n;
      ProductWithout(s, k);
      var w := Without(s, k);
      assert Distinct(w);
      assert Within(w, n - 1);
      Rearranged(w, n - 1);
    }
  }

  // ---- Fermat ----

  function Multiples(a: int, n: nat): (s: seq<int>)
    ensures |s| == n
  {
    seq(n, i => a * (i + 1))
  }

  function Residues(s: seq<int>, q: nat): (r: seq<int>)
    requires q > 0
    ensures |r| == |s|
  {
    seq(|s|, i requires 0 <= i < |s| => s[i] % q)
  }

  lemma {:induction false} MultiplesProduct(a: int, n: nat)
    ensures Product(Multiples(a, n)) == Pow(a, n) * Factorial(n)
  {
    if n > 0 {
      MultiplesProduct(a, n - 1);
      assert Multiples(a, n)[..n - 1] == Multiples(a, n - 1);
      Collect(a, Pow(a, n - 1), Factorial(n - 1), n);
    }
  }

  lemma Collect(a: int, p: int, f: int, n: int)
    ensures (p * f) * (a * n) == (a * p) * (f * n)
  {
  }

  lemma {:induction false} ResidueProduct(s: seq<int>, q: nat)
    requires q > 0
    ensures Divides(q, Product(s) - Product(Residues(s, q)))
  {
    hide Divides;
    if s == [] {
      DividesRest(q, 0);
    } else {
      var front, last := s[..|s| - 1], s[|s| - 1];
      ResidueProduct(front, q);
      assert Residues(s, q)[..|s| - 1] == Residues(front, q);
      ResidueStep(q, Product(front), Product(Residues(front, q)), last);
    }
  }

  lemma ResidueStep(q: nat, a: int, b: int, c: int)
    requires q > 0 && Divides(q, a - b)
    ensures Divides(q, a * c - b * (c % q))
  {
    hide Divides;
    var r := c % q;
    DividesRest(q, c);
    DividesScaled(q, a - b, c);
    DividesScaled(q, c - r, b);
    DividesSum(q, (a - b) * c, b * (c - r));
    assert (a - b) * c + b * (c - r) == a * c - b * r;
  }

  lemma NotBelow(q: nat, n: int)
    requires 0 < n < q
    ensures !Divides(q, n)
  {
    DividesIff(q, n);
    DivModUnique(n, q, 0, n);
  }

  lemma {:induction false} FactorialNonzero(q: nat, n: nat)
    requires Prime(q) && n < q
    ensures !Divides(q, Factorial(n))
  {
    hide Divides, Prime;
    AtLeastTwo(q);
    if n == 0 {
      NotBelow(q, 1);
    } else {
      FactorialNonzero(q, n - 1);
      NotBelow(q, n);
      if Divides(q, Factorial(n)) {
        Euclid(q, Factorial(n - 1), n);
      }
    }
  }

  /** The multiples of a, from 1 to q - 1 times, leave every remainder but 0 once. */
  lemma MultiplesPermute(q: nat, a: int)
    requires Prime(q) && !Divides(q, a)
    ensures var r := Residues(Multiples(a, q - 1), q); Distinct(r) && Within(r, q - 1)
  {
    hide Divides, Prime;
    AtLeastTwo(q);
    var r := Residues(Multiples(a, q - 1), q);
    forall i | 0 <= i < q - 1 ensures 1 <= r[i] <= q - 1 {
      MultipleNonzero(q, a, i + 1);
    }
    forall i, j | 0 <= i < j < q - 1 ensures r[i] != r[j] {
      MultiplesDiffer(q, a, i + 1, j + 1);
    }
  }

  lemma MultipleNonzero(q: nat, a: int, i: int)
    requires Prime(q) && !Divides(q, a) && 0 < i < q
    ensures (a * i) % q != 0
  {
    hide Divides, Prime;
    NotBelow(q, i);
    DividesIff(q, a * i);
    if Divides(q, a * i) {
      Euclid(q, a, i);
    }
  }

  lemma MultiplesDiffer(q: nat, a: int, i: int, j: int)
    requires Prime(q) && !Divides(q, a) && 0 < i < j < q
    ensures (a * i) % q != (a * j) % q
  {
    hide Divides, Prime;
    NotBelow(q, j - i);
    if (a * i) % q == (a * j) % q {
      SameResidue(q, a * j, a * i);
      assert a * j - a * i == a * (j - i);
      Euclid(q, a, j - i);
    }
  }

  lemma AtLeastTwo(q: nat)
    requires Prime(q)
    ensures q >= 2
  {
  }

  lemma SameResidue(q: nat, x: int, y: int)
    requires q > 0 && x % q == y % q
    ensures Divides(q, x - y)
  {
    assert x - y == q * (x / q - y / q);
  }

  lemma Fermat(q: nat, a: int)
    requires Prime(q) && !Divides(q, a)
    ensures Divides(q, Pow(a, q - 1) - 1)
  {
    hide Divides, Prime, Pow, Factorial, Product;
    AtLeastTwo(q);
    var s, f := Multiples(a, q - 1), Factorial(q - 1);
    MultiplesPermute(q, a);
    Rearranged(Residues(s, q), q - 1);
    ResidueProduct(s, q);
    MultiplesProduct(a, q - 1);
    FactorialNonzero(q, q - 1);
    assert Pow(a, q - 1) * f - f == f * (Pow(a, q - 1) - 1);
    Euclid(q, f, Pow(a, q - 1) - 1);
  }
}
