/** Positional (base-n) numerals: powers, digit extraction and digit composition.
    The candidate enumerator is this numeral system with the alphabet as digit set. */
module Radix {

  /** b raised to the e-th power; positive whenever the base is. */
  function Pow(b: nat, e: nat): (p: nat)
    ensures b > 0 ==> p > 0
  {
    if e == 0 then 1 else b * Pow(b, e - 1)
  }

  /** Multiplication by a natural number is monotonic. */
  lemma MulMono(d: nat, x: nat, y: nat)
    requires x <= y
    ensures d * x <= d * y
  {
    assert d * y == d * x + d * (y - x);
  }

  /** Division with remainder has exactly one answer. */
  lemma DivModUnique(a: nat, d: nat, q: nat, r: nat)
    requires d > 0 && r < d && a == d * q + r
    ensures a / d == q && a % d == r
  {
    var q', r' := a / d, a % d;
    assert a == d * q' + r';
    if q' > q {
      MulMono(d, q + 1, q');
    } else if q' < q {
      MulMono(d, q' + 1, q);
    }
  }

  /** Two nested divisions with remainder combine into one. */
  lemma NestedDivision(a: nat, b: nat, c: nat, q1: nat, r1: nat, q2: nat, r2: nat)
    requires b > 0 && c > 0 && r1 < b && r2 < c
    requires a == b * q1 + r1 && q1 == c * q2 + r2
    ensures a == (b * c) * q2 + (b * r2 + r1)
    ensures b * r2 + r1 < b * c
  {
    assert b * q1 == b * (c * q2) + b * r2;
    assert b * (c * q2) == (b * c) * q2;
    MulMono(b, r2, c - 1);
    assert b * (c - 1) == b * c - b;
  }

  /** Dividing by b and then by c is dividing by b * c. */
  lemma DivDiv(a: nat, b: nat, c: nat)
    requires b > 0 && c > 0
    ensures a / b / c == a / (b * c)
  {
    NestedDivision(a, b, c, a / b, a % b, a / b / c, (a / b) % c);
    DivModUnique(a, b * c, a / b / c, b * ((a / b) % c) + a % b);
  }
  /** The remainder modulo n * m splits into the low digit and the next digit modulo m. */
  lemma ModSplit(a: nat, n: nat, m: nat)
    requires n > 0 && m > 0
    ensures a % (n * m) == a % n + n * ((a / n) % m)
    ensures (a % (n * m)) % n == a % n
    ensures (a % (n * m)) / n == (a / n) % m
  {
    var r1, r2 := a % n, (a / n) % m;
    NestedDivision(a, n, m, a / n, r1, a / n / m, r2);
    DivModUnique(a, n * m, a / n / m, n * r2 + r1);
    DivModUnique(n * r2 + r1, n, r2, r1);
  }

  /** The L low base-n digits of i, least significant first. */
  function Digits(i: nat, n: nat, L: nat): (ds: seq<nat>)
    requires n > 0
    ensures |ds| == L
    ensures forall k :: 0 <= k < L ==> ds[k] < n
    decreases L
  {
    if L == 0 then [] else [i % n] + Digits(i / n, n, L - 1)
  }

  /** The value of a base-n numeral written least significant digit first:
      the sum of ds[k] * n^k over all positions k, in Horner form. */
  function ComposeDigits(ds: seq<nat>, n: nat): nat
  {
    if |ds| == 0 then 0 else ds[0] + n * ComposeDigits(ds[1..], n)
  }

  /** Every digit lies below the base. */
  ghost predicate IsNumeral(ds: seq<nat>, n: nat)
  {
    forall k :: 0 <= k < |ds| ==> ds[k] < n
  }

  /** Dividing by n and then by n^(k-1) is dividing by n^k. */
  lemma QuotientStep(i: nat, n: nat, k: nat)
    requires n > 0 && k > 0
    ensures i / n / Pow(n, k - 1) == i / Pow(n, k)
  {
    DivDiv(i, n, Pow(n, k - 1));
  }

  /** Digit k of i is (i / n^k) mod n. */
  lemma {:induction false} DigitFormula(i: nat, n: nat, L: nat, k: nat)
    requires n > 0 && k < L
    ensures Digits(i, n, L)[k] == (i / Pow(n, k)) % n
    decreases k
  {
    if k > 0 {
      DigitFormula(i / n, n, L - 1, k - 1);
      QuotientStep(i, n, k);
    } else {
      assert Pow(n, 0) == 1;
    }
  }

  /** Composing the L low digits of i gives back i modulo n^L. */
  lemma {:induction false} DigitsCompose(i: nat, n: nat, L: nat)
    requires n > 0
    ensures ComposeDigits(Digits(i, n, L), n) == i % Pow(n, L)
    decreases L
  {
    if L > 0 {
      var ds := Digits(i, n, L);
      assert ds[1..] == Digits(i / n, n, L - 1);
      DigitsCompose(i / n, n, L - 1);
      ModSplit(i, n, Pow(n, L - 1));
    }
  }

  /** A numeral of L digits denotes a number below n^L. */
  lemma {:induction false} ComposeDigitsBound(ds: seq<nat>, n: nat)
    requires n > 0 && IsNumeral(ds, n)
    ensures ComposeDigits(ds, n) < Pow(n, |ds|)
  {
    if |ds| > 0 {
      var rest := ComposeDigits(ds[1..], n);
      var p := Pow(n, |ds| - 1);
      ComposeDigitsBound(ds[1..], n);
      MulMono(n, rest, p - 1);
      assert n * (p - 1) == n * p - n;
    }
  }

  /** Reading the digits of a composed numeral gives back the numeral. */
  lemma {:induction false} ComposeDigitsInverse(ds: seq<nat>, n: nat)
    requires n > 0 && IsNumeral(ds, n)
    ensures Digits(ComposeDigits(ds, n), n, |ds|) == ds
  {
    if |ds| > 0 {
      var v := ComposeDigits(ds, n);
      var rest := ComposeDigits(ds[1..], n);
      DivModUnique(v, n, rest, ds[0]);
      ComposeDigitsInverse(ds[1..], n);
    }
  }
}
