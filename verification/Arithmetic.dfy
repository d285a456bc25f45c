/** Products that the solver needs a hand with. */
module Arithmetic {

  lemma MultipleOrder(i: int, j: int, k: nat)
    requires i <= j
    ensures i * k <= j * k
  {
  }

  lemma MultipleStep(i: int, j: int, k: nat)
    requires i < j
    ensures i * k + k <= j * k
  {
    assert (i + 1) * k == i * k + k;
    MultipleOrder(i + 1, j, k);
  }
}
