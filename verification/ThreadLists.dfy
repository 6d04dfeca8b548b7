/** Threads by priority, and lists of them (src/kernel/src/processor/rq.rs,
    src/kernel/src/thread/priority.rs): what the class queues of a run queue share. */
module ThreadLists {
  import opened Sums

  const N: nat := 8
  const MAX_PRIORITY: nat := 128

  /** A thread and the value of its stable priority. */
  datatype Thread = Thread(id: nat, value: nat)

  /** The band of priorities a thread is in. */
  function Bucket(th: Thread): nat { th.value / (MAX_PRIORITY / N) }

  type Queues = seq<seq<Thread>>

  function Len(q: seq<Thread>): int { |q| }

  lemma LensNonNegative(queues: Queues)
    ensures Sum(queues, Len) >= 0
  {
    SumNonNegative(queues, Len);
  }

  lemma {:induction false} AllEmpty(queues: Queues)
    ensures Sum(queues, Len) == 0 <==> forall i :: 0 <= i < |queues| ==> queues[i] == []
  {
    if queues == [] {
    } else {
      var front := queues[..|queues| - 1];
      AllEmpty(front);
      LensNonNegative(front);
      assert forall i :: 0 <= i < |front| ==> front[i] == queues[i];
    }
  }
}
