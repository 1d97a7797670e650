/** The number of elements in a number of queues. */
module Queues {

  function Total<E>(queues: seq<seq<E>>): nat {
    if queues == [] then 0 else |queues[0]| + Total(queues[1..])
  }

  lemma {:induction false} TotalUpdate<E>(queues: seq<seq<E>>, q: nat, v: seq<E>)
    requires q < |queues|
    ensures Total(queues[q := v]) + |queues[q]| == Total(queues) + |v|
  {
    if q == 0 {
      assert queues[q := v][1..] == queues[1..];
    } else {
      TotalUpdate(queues[1..], q - 1, v);
      assert queues[q := v][1..] == queues[1..][q - 1 := v];
    }
  }
}
