/** Polynomials over GF(2) as coefficient sequences, highest degree first. */
module Polynomial {
  type Poly = seq<bool>

  function Zeros(n: nat): (p: Poly)
    ensures |p| == n && forall i :: 0 <= i < n ==> !p[i]
  {
    seq(n, _ => false)
  }

  function Ones(n: nat): (p: Poly)
    ensures |p| == n && forall i :: 0 <= i < n ==> p[i]
  {
    seq(n, _ => true)
  }

  /** Addition, which is also subtraction. */
  function Add(p: Poly, q: Poly): (r: Poly)
    requires |p| == |q|
    ensures |r| == |p| && forall i :: 0 <= i < |p| ==> r[i] == (p[i] != q[i])
  {
    seq(|p|, i requires 0 <= i < |p| => p[i] != q[i])
  }

  function Scale(t: bool, p: Poly): (r: Poly)
    ensures |r| == |p|
  {
    if t then p else Zeros(|p|)
  }

  /** q·g, by Horner's rule on the coefficients of q. */
  function Times(q: Poly, g: Poly): (r: Poly)
    requires |g| > 0
    ensures |r| == |q| + |g| - 1
  {
    if q == [] then Zeros(|g| - 1)
    else Add(Times(q[..|q| - 1], g) + [false], Zeros(|q| - 1) + Scale(q[|q| - 1], g))
  }

  /** p = q·g + r with r of lower degree than g. */
  ghost predicate Divides(p: Poly, g: Poly, q: Poly, r: Poly)
    requires |g| > 0
  {
    |r| == |g| - 1 && |p| == |q| + |r| && p == Add(Times(q, g), Zeros(|q|) + r)
  }

  /** r is a remainder of p on division by g. */
  ghost predicate IsRemainder(p: Poly, g: Poly, r: Poly)
    requires |g| > 0
  {
    exists q :: Divides(p, g, q, r)
  }

  lemma {:induction false} TimesIsLinear(q: Poly, q': Poly, g: Poly)
    requires |q| == |q'| && |g| > 0
    ensures Times(Add(q, q'), g) == Add(Times(q, g), Times(q', g))
  {
    if q != [] {
      var n := |q| - 1;
      TimesIsLinear(q[..n], q'[..n], g);
      assert Add(q, q')[..n] == Add(q[..n], q'[..n]);
    }
  }

  /** The product of g with a polynomial led by x^k is led by x^(k + deg g). */
  lemma {:induction false} LeadingTerm(q: Poly, g: Poly, i: nat)
    requires |g| > 0 && g[0] && i < |q| && q[i] && forall k :: 0 <= k < i ==> !q[k]
    ensures Times(q, g)[i]
  {
    var n := |q| - 1;
    if i < n {
      LeadingTerm(q[..n], g, i);
    } else {
      TimesZero(q[..n], g);
    }
  }

  lemma {:induction false} TimesZero(q: Poly, g: Poly)
    requires |g| > 0 && forall k :: 0 <= k < |q| ==> !q[k]
    ensures Times(q, g) == Zeros(|q| + |g| - 1)
  {
    if q != [] {
      TimesZero(q[..|q| - 1], g);
    }
  }

  lemma FirstTrue(q: Poly) returns (i: nat)
    requires exists k :: 0 <= k < |q| && q[k]
    ensures i < |q| && q[i] && forall k :: 0 <= k < i ==> !q[k]
  {
    i := 0;
    while !q[i]
      invariant i < |q| && forall k :: 0 <= k < i ==> !q[k]
      invariant exists k :: i <= k < |q| && q[k]
      decreases |q| - i
    {
      i := i + 1;
    }
  }

  lemma DifferenceOfRemainders(p: Poly, g: Poly, q: Poly, r: Poly, q': Poly, r': Poly)
    requires |g| > 0 && Divides(p, g, q, r) && Divides(p, g, q', r')
    ensures Times(Add(q, q'), g) == Add(Zeros(|q|) + r, Zeros(|q|) + r')
  {
    TimesIsLinear(q, q', g);
    var low, low' := Zeros(|q|) + r, Zeros(|q|) + r';
    forall k | 0 <= k < |p|
      ensures Times(Add(q, q'), g)[k] == (low[k] != low'[k])
    {
      assert p[k] == (Times(q, g)[k] != low[k]);
      assert p[k] == (Times(q', g)[k] != low'[k]);
    }
  }

  lemma QuotientsAgree(p: Poly, g: Poly, q: Poly, r: Poly, q': Poly, r': Poly)
    requires |g| > 0 && g[0] && Divides(p, g, q, r) && Divides(p, g, q', r')
    ensures forall k :: 0 <= k < |q| ==> !Add(q, q')[k]
  {
    var d := Add(q, q');
    DifferenceOfRemainders(p, g, q, r, q', r');
    if exists k :: 0 <= k < |d| && d[k] {
      var i := FirstTrue(d);
      LeadingTerm(d, g, i);
      assert false;
    }
  }

  lemma RemaindersAgree(p: Poly, g: Poly, q: Poly, r: Poly, q': Poly, r': Poly)
    requires |g| > 0 && g[0] && Divides(p, g, q, r) && Divides(p, g, q', r')
    ensures r == r'
  {
    QuotientsAgree(p, g, q, r, q', r');
    DifferenceOfRemainders(p, g, q, r, q', r');
    TimesZero(Add(q, q'), g);
    forall k | 0 <= k < |r| ensures r[k] == r'[k] {
      assert Times(Add(q, q'), g)[|q| + k] == (r[k] != r'[k]);
    }
  }

  /** Division by a polynomial with a leading coefficient leaves one remainder only. */
  lemma RemainderIsUnique(p: Poly, g: Poly, r: Poly, r': Poly)
    requires |g| > 0 && g[0] && IsRemainder(p, g, r) && IsRemainder(p, g, r')
    ensures r == r'
  {
    var q :| Divides(p, g, q, r);
    var q' :| Divides(p, g, q', r');
    RemaindersAgree(p, g, q, r, q', r');
  }

  lemma OfLowerDegree(p: Poly, g: Poly)
    requires |g| == |p| + 1
    ensures IsRemainder(p, g, p)
  {
    assert Zeros(0) + p == p;
    assert Add(Zeros(|p|), p) == p;
    assert Divides(p, g, [], p);
  }

  /** r·x mod g: when the leading coefficient would overflow, g is taken away once. */
  function TimesX(r: Poly, g: Poly): Poly
    requires |g| == |r| + 1 && |r| > 0
  {
    Add(r[1..] + [false], Scale(r[0], g[1..]))
  }

  /** Dividing p·x + b·x^deg g, knowing the remainder of p: the coefficient meets the
      remainder at its leading end, before the multiplication by x. */
  lemma DivideOneMore(p: Poly, g: Poly, q: Poly, r: Poly, b: bool)
    requires |g| > 1 && g[0] && Divides(p, g, q, r)
    ensures Divides(Add(p + [false], Zeros(|q|) + [b] + Zeros(|r|)), g,
                    q + [r[0] != b], TimesX(r[0 := r[0] != b], g))
  {
    var q', r' := q + [r[0] != b], TimesX(r[0 := r[0] != b], g);
    var p' := Add(p + [false], Zeros(|q|) + [b] + Zeros(|r|));
    assert q'[..|q|] == q;
    var sum := Add(Times(q', g), Zeros(|q'|) + r');
    forall k | 0 <= k < |p'| ensures sum[k] == p'[k] {
      if k < |p| {
        assert p[k] == (Times(q, g)[k] != (Zeros(|q|) + r)[k]);
      }
    }
    assert sum == p';
  }
}
