/** Sixteen-bit maps: bit i of a number, and the masks of the source taken bit by bit. */
module Bitmap {
  import opened Words

  const WIDTH: nat := 16

  predicate Bit(map_: nat, i: nat) {
    if i == 0 then map_ % 2 == 1 else Bit(map_ / 2, i - 1)
  }

  function AndBits(a: nat, b: nat, n: nat): (r: nat)
    ensures r <= a
  {
    if n == 0 then 0
    else (if a % 2 == 1 && b % 2 == 1 then 1 else 0) + 2 * AndBits(a / 2, b / 2, n - 1)
  }

  /** a & b */
  function And(a: u16, b: u16): u16 {
    AndBits(a, b, WIDTH)
  }

  function AndNotBits(a: nat, b: nat, n: nat): (r: nat)
    ensures r <= a
  {
    if n == 0 then 0
    else (if a % 2 == 1 && b % 2 == 0 then 1 else 0) + 2 * AndNotBits(a / 2, b / 2, n - 1)
  }

  /** a & ~b */
  function AndNot(a: u16, b: u16): u16 {
    AndNotBits(a, b, WIDTH)
  }

  /** Every bit of a is a bit of b. */
  ghost predicate Within(a: nat, b: nat, n: nat) {
    forall i {:trigger Bit(a, i)} {:trigger Bit(b, i)} :: 0 <= i < n && Bit(a, i) ==> Bit(b, i)
  }

  lemma {:induction false} BitOfAnd(a: nat, b: nat, n: nat, i: nat)
    requires i < n
    ensures Bit(AndBits(a, b, n), i) <==> Bit(a, i) && Bit(b, i)
  {
    assert AndBits(a, b, n) / 2 == AndBits(a / 2, b / 2, n - 1);
    if i > 0 {
      BitOfAnd(a / 2, b / 2, n - 1, i - 1);
    }
  }

  lemma {:induction false} BitOfAndNot(a: nat, b: nat, n: nat, i: nat)
    requires i < n
    ensures Bit(AndNotBits(a, b, n), i) <==> Bit(a, i) && !Bit(b, i)
  {
    assert AndNotBits(a, b, n) / 2 == AndNotBits(a / 2, b / 2, n - 1);
    if i > 0 {
      BitOfAndNot(a / 2, b / 2, n - 1, i - 1);
    }
  }

  lemma {:induction false} AndCommutes(a: nat, b: nat, n: nat)
    ensures AndBits(a, b, n) == AndBits(b, a, n)
  {
    if n > 0 {
      AndCommutes(a / 2, b / 2, n - 1);
    }
  }

  lemma {:induction false} NoBitsNoNumber(a: nat, b: nat, n: nat)
    requires forall i {:trigger Bit(a, i)} :: 0 <= i < n && Bit(a, i) ==> Bit(b, i)
    ensures AndNotBits(a, b, n) == 0
  {
    if n > 0 {
      forall i | 0 <= i < n - 1 && Bit(a / 2, i)
        ensures Bit(b / 2, i)
      {
        assert Bit(a, i + 1) && Bit(b, i + 1);
      }
      NoBitsNoNumber(a / 2, b / 2, n - 1);
      assert Bit(a, 0) ==> Bit(b, 0);
    }
  }

  lemma {:induction false} ZeroHasNoBits(i: nat)
    ensures !Bit(0, i)
  {
    if i > 0 {
      ZeroHasNoBits(i - 1);
    }
  }

  /** Nothing is left of a outside b exactly when a lies within b. */
  lemma AndNotIsWithin(a: u16, b: u16)
    ensures AndNot(a, b) == 0 <==> Within(a, b, WIDTH)
  {
    if AndNot(a, b) == 0 {
      forall i | 0 <= i < WIDTH && Bit(a, i) ensures Bit(b, i) {
        BitOfAndNot(a, b, WIDTH, i);
        ZeroHasNoBits(i);
      }
    } else if Within(a, b, WIDTH) {
      NoBitsNoNumber(a, b, WIDTH);
    }
  }

  /** The intersection is the largest map within both. */
  lemma AndIsMeet(p: u16, a: u16, b: u16)
    ensures Within(p, a, WIDTH) && Within(p, b, WIDTH) <==> Within(p, And(a, b), WIDTH)
    ensures Within(And(a, b), a, WIDTH) && Within(And(a, b), b, WIDTH)
  {
    forall i | 0 <= i < WIDTH ensures Bit(And(a, b), i) <==> Bit(a, i) && Bit(b, i) {
      BitOfAnd(a, b, WIDTH, i);
    }
  }
}
