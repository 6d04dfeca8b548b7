/** The timeshare queue (src/kernel/src/processor/timeshare.rs): a ring of eight queues,
    filled some way ahead of where they are drained. */
module Timeshare {
  import opened Options
  import opened Sums
  import opened ThreadLists

  function IsIn(b: nat): Thread -> int { (th: Thread) => if Bucket(th) == b then 1 else 0 }

  /** How many threads of a queue are in a priority bucket. */
  function InBucket(b: nat): seq<Thread> -> int { (q: seq<Thread>) => Sum(q, IsIn(b)) }

  ghost predicate BucketOk(queues: Queues, priorities: seq<nat>, b: nat) {
    b < |priorities| ==> priorities[b] == Sum(queues, InBucket(b))
  }

  ghost predicate RingOk(queues: Queues, priorities: seq<nat>, count: nat) {
    && |queues| == N && |priorities| == N && count == Sum(queues, Len)
    && (forall b: nat {:trigger BucketOk(queues, priorities, b)} :: BucketOk(queues, priorities, b))
    && (forall i, th :: 0 <= i < N && th in queues[i] ==> th.value < MAX_PRIORITY)
  }

  /** The queue that a thread goes to. */
  function TargetQueue(value: nat, current: bool, insertIdx: nat, takeIdx: nat): (q: nat)
    requires value < MAX_PRIORITY && insertIdx < N && takeIdx < N
    ensures q < N
    ensures current ==> q == takeIdx
    ensures !current && takeIdx != insertIdx ==> q != takeIdx
  {
    if current then takeIdx
    else
      var q := (insertIdx + (MAX_PRIORITY - value) / (MAX_PRIORITY / N)) % N;
      if q == takeIdx && takeIdx != insertIdx then (if q >= 1 then q - 1 else N - 1) else q
  }

  /** How far ahead of the insert index queue `q` is. */
  function Ahead(q: nat, insertIdx: nat): (d: nat)
    requires insertIdx < N
    ensures q < N ==> d < N && (d == 0 <==> q == insertIdx)
  {
    (q + N - insertIdx) % N
  }

  /** How far ahead a thread belongs: the top band of sixteen values at the insert index,
      each lower band one further, and value 0, which is in no band, with the top one. */
  function Delay(value: nat): (d: nat)
    requires value < MAX_PRIORITY
    ensures d < N
    ensures value >= MAX_PRIORITY - MAX_PRIORITY / N + 1 ==> d == 0
    ensures value > MAX_PRIORITY / N ==> d + 1 == Delay(value - MAX_PRIORITY / N)
    ensures value == 0 ==> d == 0
  {
    if value == 0 then 0 else N - 1 - (value - 1) / (MAX_PRIORITY / N)
  }

  /** A thread that is not current goes as far ahead as it belongs, or one less where that
      is the queue being drained, which is not also the one being filled. */
  lemma TargetAhead(value: nat, insertIdx: nat, takeIdx: nat)
    requires value < MAX_PRIORITY && insertIdx < N && takeIdx < N
    ensures var d := Delay(value);
      Ahead(TargetQueue(value, false, insertIdx, takeIdx), insertIdx) ==
        if d == Ahead(takeIdx, insertIdx) && takeIdx != insertIdx then d - 1 else d
  {
    var d, q := Delay(value), (insertIdx + Delay(value)) % N;
    OffsetIsDelay(value, insertIdx);
    AheadOf(insertIdx, d);
    AheadApart(q, takeIdx, insertIdx);
    if q != insertIdx { StepBack(q, insertIdx); }
  }

  lemma OffsetIsDelay(value: nat, insertIdx: nat)
    requires value < MAX_PRIORITY && insertIdx < N
    ensures (insertIdx + (MAX_PRIORITY - value) / (MAX_PRIORITY / N)) % N == (insertIdx + Delay(value)) % N
  {
    assert value > 0 ==> (MAX_PRIORITY - value) / (MAX_PRIORITY / N) == Delay(value);
  }

  lemma AheadOf(insertIdx: nat, d: nat)
    requires insertIdx < N && d < N
    ensures Ahead((insertIdx + d) % N, insertIdx) == d
  {
  }

  lemma AheadApart(q: nat, p: nat, insertIdx: nat)
    requires q < N && p < N && insertIdx < N
    ensures q == p <==> Ahead(q, insertIdx) == Ahead(p, insertIdx)
  {
  }

  lemma StepBack(q: nat, insertIdx: nat)
    requires q < N && insertIdx < N && q != insertIdx
    ensures Ahead(if q >= 1 then q - 1 else N - 1, insertIdx) == Ahead(q, insertIdx) - 1
  {
  }

  /** Of two threads the one of higher priority goes no further ahead, unless, and only
      unless, the other is of value 0 and it does not go to the insert index itself. */
  lemma HigherSoonerIff(v: nat, w: nat, insertIdx: nat, takeIdx: nat)
    requires v <= w < MAX_PRIORITY && insertIdx < N && takeIdx < N
    ensures Ahead(TargetQueue(w, false, insertIdx, takeIdx), insertIdx) <=
            Ahead(TargetQueue(v, false, insertIdx, takeIdx), insertIdx) <==>
      v > 0 || TargetQueue(w, false, insertIdx, takeIdx) == insertIdx
  {
    TargetAhead(v, insertIdx, takeIdx);
    TargetAhead(w, insertIdx, takeIdx);
  }

  /** Replacing one queue of the ring by one that is heavier by `d`. */
  lemma RingChange(queues: Queues, q: nat, new_: seq<Thread>, b: nat)
    requires q < |queues|
    ensures Sum(queues[q := new_], Len) == Sum(queues, Len) - |queues[q]| + |new_|
    ensures Sum(queues[q := new_], InBucket(b)) ==
      Sum(queues, InBucket(b)) - Sum(queues[q], IsIn(b)) + Sum(new_, IsIn(b))
  {
    SumUpdate(queues, q, new_, Len);
    SumUpdate(queues, q, new_, InBucket(b));
    assert InBucket(b)(queues[q]) == Sum(queues[q], IsIn(b)) && InBucket(b)(new_) == Sum(new_, IsIn(b));
  }

  lemma PushWeight(q: seq<Thread>, th: Thread, b: nat)
    ensures Sum(q + [th], IsIn(b)) == Sum(q, IsIn(b)) + if Bucket(th) == b then 1 else 0
  {
    SumAppend(q, [th], IsIn(b));
    SumOne(th, IsIn(b));
    assert IsIn(b)(th) == if Bucket(th) == b then 1 else 0;
  }

  lemma PopWeight(q: seq<Thread>, b: nat)
    requires q != []
    ensures Sum(q[1..], IsIn(b)) == Sum(q, IsIn(b)) - if Bucket(q[0]) == b then 1 else 0
  {
    assert q == [q[0]] + q[1..];
    SumAppend([q[0]], q[1..], IsIn(b));
    SumOne(q[0], IsIn(b));
    assert IsIn(b)(q[0]) == if Bucket(q[0]) == b then 1 else 0;
  }

  lemma PushOk(queues: Queues, priorities: seq<nat>, count: nat, q: nat, th: Thread)
    requires RingOk(queues, priorities, count) && q < N && th.value < MAX_PRIORITY
    ensures RingOk(queues[q := queues[q] + [th]], priorities[Bucket(th) := priorities[Bucket(th)] + 1], count + 1)
  {
    var queues', priorities' := queues[q := queues[q] + [th]], priorities[Bucket(th) := priorities[Bucket(th)] + 1];
    RingChange(queues, q, queues[q] + [th], 0);
    forall b: nat ensures BucketOk(queues', priorities', b) {
      assert BucketOk(queues, priorities, b);
      RingChange(queues, q, queues[q] + [th], b);
      PushWeight(queues[q], th, b);
    }
  }

  /** Taking the first thread of a queue; its bucket counts at least one, so that the
      saturating subtraction is an exact one. */
  lemma PopOk(queues: Queues, priorities: seq<nat>, count: nat, q: nat)
    requires RingOk(queues, priorities, count) && q < N && queues[q] != []
    ensures var p := Bucket(queues[q][0]);
      && p < N && priorities[p] > 0 && count > 0
      && RingOk(queues[q := queues[q][1..]], priorities[p := priorities[p] - 1], count - 1)
  {
    var p := Bucket(queues[q][0]);
    RingChange(queues, q, queues[q][1..], p);
    PopWeight(queues[q], p);
    var queues' := queues[q := queues[q][1..]];
    BucketNonNegative(queues', p);
    LensNonNegative(queues');
    assert BucketOk(queues, priorities, p);
    var priorities' := priorities[p := priorities[p] - 1];
    forall b: nat ensures BucketOk(queues', priorities', b) {
      assert BucketOk(queues, priorities, b);
      RingChange(queues, q, queues[q][1..], b);
      PopWeight(queues[q], b);
    }
  }

  lemma {:induction false} BucketNonNegative(queues: Queues, b: nat)
    ensures Sum(queues, InBucket(b)) >= 0
  {
    if queues == [] {
    } else {
      BucketNonNegative(queues[..|queues| - 1], b);
      forall th ensures IsIn(b)(th) >= 0 {}
      SumNonNegative(queues[|queues| - 1], IsIn(b));
    }
  }

  /** A ring of empty queues counts nothing. */
  lemma EmptyOk(queues: Queues, priorities: seq<nat>)
    requires queues == seq(N, _ => []) && priorities == seq(N, _ => 0)
    ensures RingOk(queues, priorities, 0)
  {
    AllEmpty(queues);
    forall b: nat ensures BucketOk(queues, priorities, b) { SumZero(queues, InBucket(b)); }
  }

  /** The search of `take`: how far on the first queue with a thread is. */
  method FirstFrom(queues: Queues, takeIdx: nat) returns (i: nat)
    requires |queues| == N && takeIdx < N
    ensures i <= N && forall j: nat {:trigger Nth(takeIdx, j)} :: j < i ==> queues[Nth(takeIdx, j)] == []
    ensures i < N ==> queues[Nth(takeIdx, i)] != []
    ensures i == N ==> forall k :: 0 <= k < N ==> queues[k] == []
  {
    i := 0;
    while i < N
      invariant 0 <= i <= N && forall j: nat {:trigger Nth(takeIdx, j)} :: j < i ==> queues[Nth(takeIdx, j)] == []
    {
      if queues[Nth(takeIdx, i)] != [] {
        return;
      }
      i := i + 1;
    }
    forall k | 0 <= k < N ensures queues[k] == [] { RingIndex(takeIdx, k); }
  }

  class TimeshareQueue {
    var count: nat
    var priorities: seq<nat>
    var insertIdx: nat
    var takeIdx: nat
    var queues: Queues

    ghost predicate Valid()
      reads this
    {
      RingOk(queues, priorities, count) && insertIdx < N && takeIdx < N
    }

    /** `new`: an empty ring. */
    constructor ()
      ensures Valid() && count == 0 && insertIdx == 0 && takeIdx == 0
    {
      count, insertIdx, takeIdx := 0, 0, 0;
      queues := seq(N, _ => []);
      priorities := seq(N, _ => 0);
      new;
      EmptyOk(queues, priorities);
    }

    /** `insert`: at the back of the chosen queue. */
    method Insert(th: Thread, current: bool)
      requires Valid() && th.value < MAX_PRIORITY
      modifies this`queues, this`priorities, this`count
      ensures Valid() && count == old(count) + 1
      ensures var q := TargetQueue(th.value, current, insertIdx, takeIdx);
        queues == old(queues)[q := old(queues)[q] + [th]]
    {
      var q := TargetQueue(th.value, current, insertIdx, takeIdx);
      PushOk(queues, priorities, count, q, th);
      queues := queues[q := queues[q] + [th]];
      priorities := priorities[th.value / (MAX_PRIORITY / N) := priorities[th.value / (MAX_PRIORITY / N)] + 1];
      count := count + 1;
    }

    /** `take`: the front of the first queue, from the take index on, that has a thread;
        nothing exactly if the whole ring is empty. */
    method Take() returns (th: Option<Thread>)
      requires Valid()
      modifies this
      ensures Valid() && insertIdx == old(insertIdx)
      ensures th.None? <==> old(count) == 0
      ensures th.None? ==> queues == old(queues) && takeIdx == insertIdx
      ensures th.Some? ==> exists i :: TookAt(this.queues, old(queues), old(takeIdx), takeIdx, insertIdx, i, th.value)
    {
      AllEmpty(queues);
      var i := FirstFrom(queues, takeIdx);
      if i == N {
        takeIdx := insertIdx;
        return None;
      }
      var q := Nth(takeIdx, i);
      PopOk(queues, priorities, count, q);
      var taken := queues[q][0];
      ghost var start := takeIdx;
      queues := queues[q := queues[q][1..]];
      takeIdx := q;
      var p := taken.value / (MAX_PRIORITY / N);
      priorities := priorities[p := if priorities[p] >= 1 then priorities[p] - 1 else 0];
      count := count - 1;
      if takeIdx != insertIdx && queues[q] == [] {
        takeIdx := (takeIdx + 1) % N;
      }
      assert TookAt(queues, old(queues), start, takeIdx, insertIdx, i, taken);
      return Some(taken);
    }

    /** `advance_insert_index`. */
    method AdvanceInsertIndex(steps: nat, force: bool)
      requires Valid()
      modifies this`insertIdx
      ensures Valid()
      ensures insertIdx ==
        if count == 0 || (old(insertIdx) != takeIdx && !force) then old(insertIdx) else (old(insertIdx) + steps) % N
    {
      if count == 0 || (insertIdx != takeIdx && !force) {
        return;
      }
      insertIdx := (insertIdx + steps) % N;
    }
  }

  /** The queue `i` places on from the take index. */
  function Nth(takeIdx: nat, i: nat): (q: nat)
    ensures q < N
  {
    (takeIdx + i) % N
  }

  /** Where the next take begins: here, or one on if this queue is used up and is not the
      one being filled. */
  function NextTake(queues: Queues, q: nat, insertIdx: nat): nat
    requires q < |queues|
  {
    if q != insertIdx && queues[q] == [] then (q + 1) % N else q
  }

  lemma RingIndex(takeIdx: nat, k: nat)
    requires takeIdx < N && k < N
    ensures exists j: nat {:trigger Nth(takeIdx, j)} :: j < N && Nth(takeIdx, j) == k
  {
    var j := if k >= takeIdx then k - takeIdx else k + N - takeIdx;
    assert Nth(takeIdx, j) == k;
  }

  /** The thread came from the front of queue `i` places on, the ones before it being
      empty; nothing else has changed. */
  ghost predicate TakenFrom(queues': Queues, queues: Queues, takeIdx: nat, i: nat, th: Thread) {
    && |queues| == N && i < N && (forall j: nat {:trigger Nth(takeIdx, j)} :: j < i ==> queues[Nth(takeIdx, j)] == [])
    && queues[Nth(takeIdx, i)] != [] && queues[Nth(takeIdx, i)][0] == th
    && queues' == queues[Nth(takeIdx, i) := queues[Nth(takeIdx, i)][1..]]
  }

  ghost predicate TookAt(queues': Queues, queues: Queues, takeIdx: nat, takeIdx': nat, insertIdx: nat, i: nat,
                         th: Thread) {
    TakenFrom(queues', queues, takeIdx, i, th) && takeIdx' == NextTake(queues', Nth(takeIdx, i), insertIdx)
  }
}
