/** Positional numerals, most significant digit first. */
module Positional {
  function Pow(b: int, n: nat): int {
    if n == 0 then 1 else b * Pow(b, n - 1)
  }

  function Value(s: seq<int>, b: int): int {
    if s == [] then 0 else Value(s[..|s| - 1], b) * b + s[|s| - 1]
  }

  ghost predicate Digits(s: seq<int>, b: int) {
    forall i :: 0 <= i < |s| ==> 0 <= s[i] < b
  }

  function Zeros(n: nat): (s: seq<int>)
    ensures |s| == n && forall i :: 0 <= i < n ==> s[i] == 0
  {
    seq(n, _ => 0)
  }

  /** Shortest numeral of `n`; zero has the empty one. */
  function Canon(n: int, b: int): (s: seq<int>)
    requires n >= 0 && b >= 2
    ensures forall i :: 0 <= i < |s| ==> 0 <= s[i] < b
    ensures s == [] || s[0] != 0
    ensures n == 0 <==> s == []
    decreases n
  {
    if n == 0 then []
    else
      DivShrinks(n, b);
      Canon(n / b, b) + [n % b]
  }

  lemma DivShrinks(n: int, b: int)
    requires n > 0 && b >= 2
    ensures 0 <= n / b < n && n == n / b * b + n % b && 0 <= n % b < b
    ensures n / b == 0 ==> n % b == n
  {
  }

  lemma SmallMultiple(x: int, b: int)
    requires b > 0 && -b < x * b < b
    ensures x == 0
  {
  }

  lemma DivMod(q: int, r: int, b: int)
    requires b > 0 && 0 <= r < b
    ensures (q * b + r) / b == q && (q * b + r) % b == r
  {
    var n := q * b + r;
    var d, m := n / b, n % b;
    assert n == d * b + m;
    assert (d - q) * b == d * b - q * b;
    SmallMultiple(d - q, b);
  }

  lemma {:induction false} PowPositive(b: int, n: nat)
    requires b > 0
    ensures Pow(b, n) > 0
  {
    if n > 0 { PowPositive(b, n - 1); }
  }

  lemma {:induction false} PowAdd(b: int, m: nat, n: nat)
    ensures Pow(b, m + n) == Pow(b, m) * Pow(b, n)
  {
    if m > 0 {
      PowAdd(b, m - 1, n);
      Assoc(b, Pow(b, m - 1), Pow(b, n));
    }
  }

  lemma Assoc(a: int, b: int, c: int)
    ensures a * (b * c) == (a * b) * c
  {
  }

  lemma {:induction false} PowMonotone(b: int, m: nat, n: nat)
    requires b >= 1 && m <= n
    ensures Pow(b, m) <= Pow(b, n)
  {
    PowAdd(b, m, n - m);
    PowPositive(b, m);
    PowPositive(b, n - m);
    MulUp(Pow(b, m), 1, Pow(b, n - m));
  }

  lemma MulUp(k: int, x: int, y: int)
    requires k >= 0 && x <= y
    ensures k * x <= k * y
  {
  }

  lemma BoundStep(v: int, d: int, b: int, p: int)
    requires b >= 1 && 0 <= v < p && 0 <= d < b
    ensures 0 <= v * b + d < b * p
  {
    MulUp(b, v, p - 1);
    MulUp(b, 0, v);
  }

  lemma {:induction false} ValueBound(s: seq<int>, b: int)
    requires b >= 1 && Digits(s, b)
    ensures 0 <= Value(s, b) < Pow(b, |s|)
  {
    if s != [] {
      var init := s[..|s| - 1];
      ValueBound(init, b);
      BoundStep(Value(init, b), s[|s| - 1], b, Pow(b, |init|));
    }
  }

  lemma {:induction false} ValueConcat(s: seq<int>, t: seq<int>, b: int)
    ensures Value(s + t, b) == Value(s, b) * Pow(b, |t|) + Value(t, b)
  {
    if t == [] {
      assert s + t == s;
    } else {
      var init, d := t[..|t| - 1], t[|t| - 1];
      assert (s + t)[..|s + t| - 1] == s + init;
      assert Value(s + t, b) == Value(s + init, b) * b + d && Value(t, b) == Value(init, b) * b + d;
      assert Pow(b, |t|) == b * Pow(b, |init|);
      hide *;
      ValueConcat(s, init, b);
      ConcatStep(Value(s, b), Pow(b, |init|), Value(init, b), d, b);
    }
  }

  lemma ConcatStep(v: int, p: int, w: int, d: int, b: int)
    ensures (v * p + w) * b + d == v * (b * p) + (w * b + d)
  {
    assert (v * p) * b == v * (b * p) by { Assoc(v, p, b); }
    assert (v * p + w) * b == (v * p) * b + w * b;
  }

  lemma {:induction false} ValueZeros(s: seq<int>, b: int)
    requires forall i :: 0 <= i < |s| ==> s[i] == 0
    ensures Value(s, b) == 0
  {
    if s != [] { ValueZeros(s[..|s| - 1], b); }
  }

  /** Leading zeros do not matter. */
  lemma ValueLeading(z: nat, s: seq<int>, b: int)
    ensures Value(Zeros(z) + s, b) == Value(s, b)
  {
    ValueConcat(Zeros(z), s, b);
    ValueZeros(Zeros(z), b);
  }

  lemma {:induction false} CanonValue(n: int, b: int)
    requires n >= 0 && b >= 2
    ensures Value(Canon(n, b), b) == n
    decreases n
  {
    if n > 0 {
      DivShrinks(n, b);
      CanonValue(n / b, b);
      var s := Canon(n, b);
      assert s[..|s| - 1] == Canon(n / b, b);
    }
  }

  /** A numeral without a leading zero is the shortest one of its value. */
  lemma {:induction false} CanonUnique(s: seq<int>, b: int)
    requires b >= 2 && Digits(s, b) && (s == [] || s[0] != 0)
    ensures Value(s, b) >= 0 && Canon(Value(s, b), b) == s
  {
    if s != [] {
      var init, d := s[..|s| - 1], s[|s| - 1];
      assert Value(s, b) == Value(init, b) * b + d;
      CanonUnique(init, b);
      assert init != [] ==> init[0] == s[0];
      assert Value(init, b) > 0 || d > 0 by {
        if init == [] { assert s[0] == d; } else { assert Canon(Value(init, b), b) != []; }
      }
      hide Value, Canon, Digits;
      CanonStep(Value(init, b), d, b);
      assert s == init + [d];
    }
  }

  lemma CanonStep(q: int, d: int, b: int)
    requires b >= 2 && q >= 0 && 0 <= d < b && (q > 0 || d > 0)
    ensures q * b + d > 0 && Canon(q * b + d, b) == Canon(q, b) + [d]
  {
    DivMod(q, d, b);
    MulUp(b, 0, q);
    if q > 0 { MulUp(b, 1, q); }
  }
}
