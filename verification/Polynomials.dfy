/** Polynomials over GF(2), each as the set of its exponents, and division with remainder. */
module Polynomials {

  type Poly = set<nat>

  function Sum(a: Poly, b: Poly): (r: Poly)
    ensures forall e :: e in r <==> (e in a) != (e in b)
  {
    (a - b) + (b - a)
  }

  /** The polynomial times x. */
  function X(a: Poly): (r: Poly)
    ensures forall e :: e in r <==> e > 0 && e - 1 in a
  {
    set e | e in a :: e + 1
  }

  function If(bit: bool, a: Poly): Poly {
    if bit then a else {}
  }

  /** All powers below that of `n`. */
  function AllBelow(n: nat): (r: Poly)
    ensures forall e: nat :: e in r <==> e < n
  {
    if n == 0 then {} else {n - 1} + AllBelow(n - 1)
  }

  /** `q` times `g`, with the coefficients of `q` listed from the highest to the lowest. */
  function Times(q: seq<bool>, g: Poly): Poly {
    if q == [] then {} else Sum(X(Times(q[..|q| - 1], g)), If(q[|q| - 1], g))
  }

  predicate Below(a: Poly, n: nat) {
    forall e :: e in a ==> e < n
  }

  /** `q` and `r` are a quotient and the remainder of `a` by `g`, whose degree is `n`. */
  ghost predicate IsDivision(a: Poly, g: Poly, n: nat, q: seq<bool>, r: Poly) {
    a == Sum(Times(q, g), r) && Below(r, n)
  }

  lemma XOfSum(a: Poly, b: Poly)
    ensures X(Sum(a, b)) == Sum(X(a), X(b))
  {
  }

  lemma SumOfSums(a: Poly, b: Poly, c: Poly, d: Poly)
    ensures Sum(Sum(a, b), Sum(c, d)) == Sum(Sum(a, c), Sum(b, d))
  {
  }

  /** What is added on both sides cancels. */
  lemma SumCancels(a: Poly, b: Poly, c: Poly, g: Poly)
    ensures Sum(Sum(a, b), c) == Sum(Sum(a, g), Sum(Sum(b, c), g))
  {
  }

  lemma SumOfEqual(a: Poly, b: Poly)
    ensures Sum(a, b) == {} <==> a == b
  {
  }

  /** Leading zeros do not matter. */
  lemma {:induction false} TimesPadded(q: seq<bool>, g: Poly)
    ensures Times([false] + q, g) == Times(q, g)
  {
    var p := [false] + q;
    if q == [] {
      assert p[..0] == [] && Times(p, g) == Sum(X({}), {});
    } else {
      assert p[..|p| - 1] == [false] + q[..|q| - 1] && p[|p| - 1] == q[|q| - 1];
      TimesPadded(q[..|q| - 1], g);
    }
  }

  lemma {:induction false} Padded(q: seq<bool>, g: Poly, n: nat) returns (p: seq<bool>)
    requires |q| <= n
    ensures |p| == n && Times(p, g) == Times(q, g)
    decreases n
  {
    if |q| == n {
      p := q;
    } else {
      p := Padded(q, g, n - 1);
      TimesPadded(p, g);
      p := [false] + p;
    }
  }

  lemma {:induction false} TimesOfSum(p: seq<bool>, q: seq<bool>, g: Poly) returns (s: seq<bool>)
    requires |p| == |q|
    ensures |s| == |p| && Times(s, g) == Sum(Times(p, g), Times(q, g))
  {
    if p == [] {
      s := [];
    } else {
      var n := |p| - 1;
      var tp, tq := Times(p[..n], g), Times(q[..n], g);
      s := TimesOfSum(p[..n], q[..n], g);
      s := s + [p[n] != q[n]];
      assert s[..n] == s[..|s| - 1];
      XOfSum(tp, tq);
      SumOfSums(X(tp), If(p[n], g), X(tq), If(q[n], g));
      assert Sum(If(p[n], g), If(q[n], g)) == If(p[n] != q[n], g);
    }
  }

  /** The degree of `a` is `n`. */
  predicate IsDegree(a: Poly, n: nat) {
    n in a && Below(a, n + 1)
  }

  lemma DegreeOfX(a: Poly, bit: bool, g: Poly, m: nat, n: nat)
    requires IsDegree(a, m) && IsDegree(g, n) && n <= m
    ensures IsDegree(Sum(X(a), If(bit, g)), m + 1)
  {
  }

  /** A multiple of `g` is 0, or its degree is no less than that of `g`. */
  lemma {:induction false} MultipleIsLarge(q: seq<bool>, g: Poly, n: nat) returns (m: nat)
    requires IsDegree(g, n)
    ensures Times(q, g) == {} || (m >= n && IsDegree(Times(q, g), m))
  {
    hide IsDegree;
    m := n;
    if q != [] {
      var before := Times(q[..|q| - 1], g);
      m := MultipleIsLarge(q[..|q| - 1], g, n);
      if before == {} {
        assert X(before) == {};
        assert Times(q, g) == If(q[|q| - 1], g);
        m := n;
      } else {
        DegreeOfX(before, q[|q| - 1], g, m, n);
        m := m + 1;
      }
    }
  }

  /** The remainder is determined. */
  lemma RemainderIsUnique(a: Poly, g: Poly, n: nat, q: seq<bool>, r: Poly, q': seq<bool>, r': Poly)
    requires IsDegree(g, n)
    requires IsDivision(a, g, n, q, r) && IsDivision(a, g, n, q', r')
    ensures r == r'
  {
    var longer := if |q| < |q'| then |q'| else |q|;
    var p := Padded(q, g, longer);
    var p' := Padded(q', g, longer);
    var s := TimesOfSum(p, p', g);
    SumOfSums(Times(q, g), r, Times(q', g), r');
    SumOfEqual(a, a);
    SumOfEqual(Times(s, g), Sum(r, r'));
    var m := MultipleIsLarge(s, g, n);
    SumOfEqual(r, r');
  }
}
