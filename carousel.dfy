/** The index arithmetic of the image carousel over `N` images. */
module Carousel {
  import opened JsValues

  /** The `>` button: `(prevIndex + 1) % images.length`. */
  function Next(i: nat, n: nat): (r: nat)
    requires n > 0
    ensures r < n
  {
    Remainder(i + 1, n)
  }

  /** The `<` button: `(prevIndex - 1 + images.length) % images.length`. */
  function Prev(i: nat, n: nat): (r: nat)
    requires n > 0
    ensures r < n
  {
    Remainder(i - 1 + n, n)
  }

  /** Next steps forward by one and wraps from the last image to the first. */
  lemma NextSteps(i: nat, n: nat)
    requires i < n
    ensures Next(i, n) == if i + 1 < n then i + 1 else 0
  {
    if i + 1 == n {
      assert (i + 1) % n == 0;
    }
  }

  /** Prev steps back by one and wraps from the first image to the last. */
  lemma PrevSteps(i: nat, n: nat)
    requires i < n
    ensures Prev(i, n) == if i > 0 then i - 1 else n - 1
  {
    if i > 0 {
      WrapOnce(i - 1, n);
    } else {
      assert Prev(i, n) == Remainder(n - 1, n);
    }
  }

  /** Adding the modulus once more does not change the remainder. */
  lemma WrapOnce(a: int, n: int)
    requires 0 <= a < n
    ensures (a + n) % n == a
  {
    assert a + n == 1 * n + a;
  }

  /** The two buttons undo each other on an index in range. */
  lemma {:induction false} NextPrevInverse(i: nat, n: nat)
    requires i < n
    ensures Prev(Next(i, n), n) == i
    ensures Next(Prev(i, n), n) == i
  {
    NextSteps(i, n);
    PrevSteps(i, n);
    NextSteps(Prev(i, n), n);
    PrevSteps(Next(i, n), n);
  }
}
