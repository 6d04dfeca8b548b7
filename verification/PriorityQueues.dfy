/** The queue of the realtime and the idle class of a run queue
    (src/kernel/src/processor/rq.rs): one list of threads for each band of priorities. */
module PriorityQueues {
  import opened Options
  import opened Sums
  import opened ThreadLists

  /** `q` is the first list that has a thread; all before it are empty. */
  ghost predicate IsFirst(queues: Queues, q: nat) {
    q < |queues| && queues[q] != [] && forall j :: 0 <= j < q ==> queues[j] == []
  }

  /** `q` is the last list that has a thread. */
  ghost predicate IsLast(queues: Queues, q: nat) {
    q < |queues| && queues[q] != [] && forall j :: q < j < |queues| ==> queues[j] == []
  }

  lemma LenChange(queues: Queues, q: nat, list: seq<Thread>)
    requires q < |queues|
    ensures Sum(queues[q := list], Len) == Sum(queues, Len) - |queues[q]| + |list|
  {
    SumUpdate(queues, q, list, Len);
  }

  class PriorityQueue {
    var count: nat
    var queues: Queues

    ghost predicate Valid()
      reads this
    {
      |queues| == N && count == Sum(queues, Len)
    }

    constructor ()
      ensures Valid() && count == 0 && queues == seq(N, _ => [])
    {
      count := 0;
      queues := seq(N, _ => []);
      new;
      AllEmpty(queues);
    }

    /** `is_empty`: the count tells, without a look at the lists. */
    method IsEmpty() returns (empty: bool)
      requires Valid()
      ensures empty <==> forall q :: 0 <= q < N ==> queues[q] == []
    {
      AllEmpty(queues);
      empty := count == 0;
    }

    /** `insert`: a user thread, here because of a deadline, goes to the top band. */
    method Insert(th: Thread, user: bool)
      requires Valid() && th.value < MAX_PRIORITY
      modifies this
      ensures Valid() && count == old(count) + 1
      ensures var q := if user then N - 1 else th.value / (MAX_PRIORITY / N);
        queues == old(queues)[q := old(queues)[q] + [th]]
    {
      var q := if user then N - 1 else th.value / (MAX_PRIORITY / N);
      LenChange(queues, q, queues[q] + [th]);
      queues := queues[q := queues[q] + [th]];
      count := count + 1;
    }

    /** `take`: the front of the first list that has a thread, which is the lowest band;
        nothing exactly if there is no thread at all. */
    method Take() returns (th: Option<Thread>)
      requires Valid()
      modifies this
      ensures Valid() && (th.None? <==> forall q :: 0 <= q < N ==> old(queues)[q] == [])
      ensures th.None? ==> queues == old(queues)
      ensures th.Some? ==> exists q: nat :: IsFirst(old(queues), q) && old(queues)[q][0] == th.value &&
                                            queues == old(queues)[q := old(queues)[q][1..]]
    {
      AllEmpty(queues);
      if count == 0 {
        return None;
      }
      for q := 0 to N
        invariant queues == old(queues) && count == old(count) && forall j :: 0 <= j < q ==> queues[j] == []
      {
        if queues[q] != [] {
          th := Some(queues[q][0]);
          LenChange(queues, q, queues[q][1..]);
          LensNonNegative(queues[q := queues[q][1..]]);
          queues := queues[q := queues[q][1..]];
          count := count - 1;
          assert IsFirst(old(queues), q);
          return;
        }
      }
      assert false;
    }

    /** `highest_priority`: the band of the last list that has a thread. */
    method HighestPriority() returns (value: Option<nat>)
      requires Valid()
      ensures value.None? <==> forall q :: 0 <= q < N ==> queues[q] == []
      ensures value.Some? ==> exists q: nat :: IsLast(queues, q) && value.value == q * (MAX_PRIORITY / N)
    {
      AllEmpty(queues);
      if count == 0 {
        return None;
      }
      var q := N;
      while q > 0
        invariant 0 <= q <= N && forall j :: q <= j < N ==> queues[j] == []
      {
        q := q - 1;
        if queues[q] != [] {
          assert IsLast(queues, q);
          return Some(q * (MAX_PRIORITY / N));
        }
      }
      assert false;
    }
  }

  /** Threads of values 127 and 0: the highest band is named, the lowest is taken from. */
  method LowestFirst() returns (highest: Option<nat>, th: Option<Thread>)
    ensures highest == Some(112) && th == Some(Thread(1, 0))
  {
    var pq := new PriorityQueue();
    pq.Insert(Thread(0, 127), false);
    pq.Insert(Thread(1, 0), false);
    assert pq.queues[0] == [Thread(1, 0)] && pq.queues[7] == [Thread(0, 127)];
    highest := pq.HighestPriority();
    th := pq.Take();
  }

  /** The thread that `take` hands out is in the band that `highest_priority` names exactly
      if all threads are in one band. */
  lemma TakeIsHighestIff(queues: Queues, first: nat, last: nat)
    requires IsFirst(queues, first) && IsLast(queues, last)
    ensures first <= last
    ensures first == last <==>
      forall p, q :: 0 <= p < |queues| && 0 <= q < |queues| && queues[p] != [] && queues[q] != [] ==> p == q
  {
    if first == last {
      forall q | 0 <= q < |queues| && queues[q] != [] ensures q == first {}
    }
  }
}
