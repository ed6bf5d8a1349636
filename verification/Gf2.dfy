/** Polynomials whose coefficients are bits: a polynomial is the set of its exponents. */
module Gf2 {
  type Poly = set<nat>

  function Plus(a: Poly, b: Poly): (r: Poly)
    ensures forall e :: e in r <==> (e in a) != (e in b)
  {
    (a - b) + (b - a)
  }

  /** Times x to the power `k`. */
  function Shift(a: Poly, k: nat): (r: Poly)
    ensures forall e: nat :: e in r <==> e >= k && e - k in a
  {
    set e | e in a :: e + k
  }

  /** `g` times the polynomial with the coefficients `q`, the highest one first. */
  function Product(q: seq<bool>, g: Poly): Poly {
    if q == [] then {} else
      var last := |q| - 1;
      Plus(Shift(Product(q[..last], g), 1), if q[last] then g else {})
  }

  /** The polynomial with these coefficients, the highest one first. */
  function Value(q: seq<bool>): Poly {
    Product(q, {0})
  }

  /** All exponents are below `n`. */
  predicate Below(a: Poly, n: nat) {
    forall e :: e in a ==> e < n
  }

  predicate HasDegree(g: Poly, n: nat) {
    n in g && Below(g, n + 1)
  }

  /** `r` is what is left of `a` after division by `g`, which has degree `n`. */
  ghost predicate IsRemainder(a: Poly, g: Poly, n: nat, r: Poly) {
    Below(r, n) && exists q :: a == Plus(Product(q, g), r)
  }

  lemma ProductNext(q: seq<bool>, b: bool, g: Poly)
    ensures Product(q + [b], g) == Plus(Shift(Product(q, g), 1), if b then g else {})
  {
    assert (q + [b])[..|q|] == q;
  }

  /** A product is nothing or reaches the degree of its factor. */
  lemma {:induction false} ProductIsHigh(q: seq<bool>, g: Poly, n: nat)
    requires HasDegree(g, n)
    ensures Product(q, g) == {} || exists e :: e in Product(q, g) && e >= n
    decreases |q|
  {
    if q != [] {
      var last := |q| - 1;
      var before := Product(q[..last], g);
      ProductIsHigh(q[..last], g, n);
      if before == {} {
        assert Shift(before, 1) == {};
        if q[last] { assert n in Product(q, g); } else { assert Product(q, g) == {}; }
      } else {
        var e :| e in before && e >= n;
        assert e + 1 in Shift(before, 1) && e + 1 !in g;
        assert e + 1 in Product(q, g);
      }
    }
  }

  /** The sum of two products is a product. */
  lemma {:induction false} SumOfProducts(q: seq<bool>, q': seq<bool>, g: Poly) returns (s: seq<bool>)
    ensures Product(s, g) == Plus(Product(q, g), Product(q', g))
    decreases |q|
  {
    if q == [] {
      s := q';
      assert Plus({}, Product(q', g)) == Product(q', g);
    } else if q' == [] {
      s := q;
      assert Plus(Product(q, g), {}) == Product(q, g);
    } else {
      var a, b := q[|q| - 1], q'[|q'| - 1];
      var t := SumOfProducts(q[..|q| - 1], q'[..|q'| - 1], g);
      s := t + [a != b];
      ProductNext(t, a != b, g);
      assert Product(s, g) == Plus(Product(q, g), Product(q', g));
    }
  }

  /** There is one remainder. */
  lemma RemainderIsUnique(a: Poly, g: Poly, n: nat, r: Poly, r': Poly)
    requires HasDegree(g, n) && IsRemainder(a, g, n, r) && IsRemainder(a, g, n, r')
    ensures r == r'
  {
    var q :| a == Plus(Product(q, g), r);
    var q' :| a == Plus(Product(q', g), r');
    var s := SumOfProducts(q, q', g);
    assert Product(s, g) == Plus(r, r') by {
      forall e
        ensures e in Product(s, g) <==> e in Plus(r, r')
      {
        assert e in a <==> (e in Product(q, g)) != (e in r);
        assert e in a <==> (e in Product(q', g)) != (e in r');
      }
    }
    ProductIsHigh(s, g, n);
    assert Product(s, g) == {};
    forall e
      ensures e in r <==> e in r'
    {
      assert e !in Plus(r, r');
    }
  }
}
