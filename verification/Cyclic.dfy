/** Indices that go round: the FIFO pointer of the cache and the scheduler's search. */
module Cyclic {

  function Succ(i: nat, n: nat): nat
    requires i < n
  {
    if i + 1 == n then 0 else i + 1
  }

  lemma SuccIsRemainder(i: nat, n: nat)
    requires i < n
    ensures Succ(i, n) == (i + 1) % n
  {
  }
}
