/** The run queue (src/kernel/src/processor/rq.rs): three locked queues, with flags and
    load counters that are updated outside the locks.  Every atomic operation, and every
    operation on a queue under its lock, is a step of one actor; actors interleave. */
module RunQueue {
  import opened Options
  import opened Sums

  /** A thread; whether it is pinned to a processor does not change. */
  datatype Thread = Thread(id: nat, pinned: bool)

  /** A thread with the class it was inserted into or taken from. */
  datatype Tagged = Tagged(th: Thread, c: nat)

  const REALTIME: nat := 0
  const TIMESHARE: nat := 1
  const IDLE: nat := 2

  /** Where an actor stands between two steps of `insert` or of one of the `take`s. */
  datatype Actor =
    | Outside
    | Entering(th: Thread, c: nat)      // insert: has counted the thread as movable, if it is
    | Loaded(th: Thread, c: nat)        // insert: has added to the load
    | Ready(th: Thread, c: nat)         // insert: has added to the timeshare load, if due
    | Queued(c: nat)                    // insert: thread is queued, flag still to be set
    | Looked(c: nat)                    // take: has seen the flag set
    | Took(th: Thread, c: nat)          // take: holds the lock and the thread
    | Checked(th: Thread, c: nat, empty: bool)  // take: has seen whether the queue is now empty
    | Cleared(th: Thread, c: nat)       // take: has cleared the flag if so
    | Moved(th: Thread, c: nat)         // take: has taken it off the movable count
    | Unloaded(th: Thread, c: nat)      // take: has taken it off the load
    | Leaving(th: Thread, c: nat)       // take: has taken it off the timeshare load, if due

  datatype State = State(queues: seq<seq<Thread>>, flags: seq<bool>, locks: seq<Option<nat>>,
                         load: int, timeshareLoad: int, movable: int, actors: seq<Actor>,
                         given: seq<Tagged>, returned: seq<Tagged>)

  datatype Step =
    | CountMovable(t: nat, th: Thread, c: nat)
    | AddLoad(t: nat)
    | AddTimeshare(t: nat)
    | Push(t: nat)
    | SetFlag(t: nat)
    | LoadFlag(t: nat, c: nat)
    | Pop(t: nat, i: nat)      // the queue's own policy chooses the index
    | PopNone(t: nat)
    | CheckEmpty(t: nat)
    | ClearFlag(t: nat)
    | UncountMovable(t: nat)
    | SubLoad(t: nat)
    | SubTimeshare(t: nat)
    | Unlock(t: nat)

  function One(b: bool): int { if b then 1 else 0 }

  /** The actor is in the part of a take that holds the lock. */
  predicate Holding(a: Actor) { a.Took? || a.Checked? || a.Cleared? || a.Moved? || a.Unloaded? || a.Leaving? }

  predicate Shape(s: State) {
    |s.queues| == 3 && |s.flags| == 3 && |s.locks| == 3 && forall t :: 0 <= t < |s.actors| ==> ActorOk(s.actors[t])
  }

  predicate ActorOk(a: Actor) { a.Outside? || a.c < 3 }

  predicate Enabled(s: State, a: Step)
    requires Shape(s)
  {
    a.t < |s.actors| &&
    match a
    case CountMovable(t, _, c) => s.actors[t].Outside? && c < 3
    case AddLoad(t) => s.actors[t].Entering?
    case AddTimeshare(t) => s.actors[t].Loaded?
    case Push(t) => s.actors[t].Ready? && s.locks[s.actors[t].c].None?
    case SetFlag(t) => s.actors[t].Queued?
    case LoadFlag(t, c) => s.actors[t].Outside? && c < 3
    case Pop(t, i) => s.actors[t].Looked? && s.locks[s.actors[t].c].None? && i < |s.queues[s.actors[t].c]|
    case PopNone(t) => s.actors[t].Looked? && s.locks[s.actors[t].c].None? && s.queues[s.actors[t].c] == []
    case CheckEmpty(t) => s.actors[t].Took?
    case ClearFlag(t) => s.actors[t].Checked?
    case UncountMovable(t) => s.actors[t].Cleared?
    case SubLoad(t) => s.actors[t].Moved?
    case SubTimeshare(t) => s.actors[t].Unloaded?
    case Unlock(t) => s.actors[t].Leaving?
  }

  function At(s: State, t: nat, a: Actor): State
    requires t < |s.actors|
  {
    s.(actors := s.actors[t := a])
  }

  function Next(s: State, a: Step): State
    requires Shape(s) && Enabled(s, a)
  {
    match a
    case CountMovable(t, th, c) =>
      At(s.(movable := s.movable + One(!th.pinned), given := s.given + [Tagged(th, c)]), t, Entering(th, c))
    case AddLoad(t) => var x := s.actors[t]; At(s.(load := s.load + 1), t, Loaded(x.th, x.c))
    case AddTimeshare(t) =>
      var x := s.actors[t]; At(s.(timeshareLoad := s.timeshareLoad + One(x.c == TIMESHARE)), t, Ready(x.th, x.c))
    case Push(t) => var x := s.actors[t]; At(s.(queues := s.queues[x.c := s.queues[x.c] + [x.th]]), t, Queued(x.c))
    case SetFlag(t) => At(s.(flags := s.flags[s.actors[t].c := true]), t, Outside)
    case LoadFlag(t, c) => At(s, t, if s.flags[c] then Looked(c) else Outside)
    case Pop(t, i) =>
      var c := s.actors[t].c; var q := s.queues[c];
      At(s.(queues := s.queues[c := q[..i] + q[i + 1..]], locks := s.locks[c := Some(t)]), t, Took(q[i], c))
    case PopNone(t) => At(s, t, Outside)
    case CheckEmpty(t) => var x := s.actors[t]; At(s, t, Checked(x.th, x.c, s.queues[x.c] == []))
    case ClearFlag(t) =>
      var x := s.actors[t]; At(if x.empty then s.(flags := s.flags[x.c := false]) else s, t, Cleared(x.th, x.c))
    case UncountMovable(t) =>
      var x := s.actors[t]; At(s.(movable := s.movable - One(!x.th.pinned)), t, Moved(x.th, x.c))
    case SubLoad(t) => var x := s.actors[t]; At(s.(load := s.load - 1), t, Unloaded(x.th, x.c))
    case SubTimeshare(t) =>
      var x := s.actors[t]; At(s.(timeshareLoad := s.timeshareLoad - One(x.c == TIMESHARE)), t, Leaving(x.th, x.c))
    case Unlock(t) =>
      var x := s.actors[t];
      At(s.(locks := s.locks[x.c := None], returned := s.returned + [Tagged(x.th, x.c)]), t, Outside)
  }

  // Flags.

  /** The lock of a class is held by the actor in the locked part of its take. */
  ghost predicate LockOk(s: State, t: nat)
    requires Shape(s)
  {
    t < |s.actors| && Holding(s.actors[t]) ==> s.locks[s.actors[t].c] == Some(t)
  }

  /** ... and by nobody else. */
  ghost predicate LockHeld(s: State, c: nat)
    requires Shape(s) && c < 3
  {
    s.locks[c].Some? ==> var t := s.locks[c].value; t < |s.actors| && Holding(s.actors[t]) && s.actors[t].c == c
  }

  /** What a take has seen of its queue stays true while it holds the lock. */
  ghost predicate SeenOk(s: State, t: nat)
    requires Shape(s)
  {
    t < |s.actors| && s.actors[t].Checked? && s.actors[t].empty ==> s.queues[s.actors[t].c] == []
  }

  ghost predicate AboutToSet(s: State, c: nat) { exists t :: 0 <= t < |s.actors| && s.actors[t] == Queued(c) }

  /** A queue with threads in it has its flag set, or an insert is about to set it. */
  ghost predicate NotLost(s: State, c: nat)
    requires Shape(s) && c < 3
  {
    s.queues[c] != [] ==> s.flags[c] || AboutToSet(s, c)
  }

  ghost predicate FlagsOk(s: State) {
    && Shape(s)
    && (forall t: nat {:trigger LockOk(s, t)} :: LockOk(s, t))
    && LockHeld(s, 0) && LockHeld(s, 1) && LockHeld(s, 2)
    && (forall t: nat {:trigger SeenOk(s, t)} :: SeenOk(s, t))
    && NotLost(s, 0) && NotLost(s, 1) && NotLost(s, 2)
  }

  lemma StepShape(s: State, a: Step)
    requires Shape(s) && Enabled(s, a)
    ensures Shape(Next(s, a))
    ensures Next(s, a).actors == s.actors[a.t := Next(s, a).actors[a.t]]
  {
  }

  lemma StepLocks(s: State, a: Step, t: nat)
    requires Shape(s) && Enabled(s, a) && (forall x: nat {:trigger LockOk(s, x)} :: LockOk(s, x))
    ensures Shape(Next(s, a)) && LockOk(Next(s, a), t)
  {
    StepShape(s, a);
    assert LockOk(s, t) && LockOk(s, a.t);
  }

  lemma StepHeld(s: State, a: Step, c: nat)
    requires FlagsOk(s) && Enabled(s, a) && c < 3
    ensures Shape(Next(s, a)) && LockHeld(Next(s, a), c)
  {
    StepShape(s, a);
    assert LockHeld(s, c) && LockOk(s, a.t);
  }

  lemma StepSeen(s: State, a: Step, t: nat)
    requires FlagsOk(s) && Enabled(s, a)
    ensures Shape(Next(s, a)) && SeenOk(Next(s, a), t)
  {
    StepShape(s, a);
    assert LockOk(s, t) && LockOk(s, a.t) && SeenOk(s, t);
  }

  lemma StepNotLost(s: State, a: Step, c: nat)
    requires FlagsOk(s) && Enabled(s, a) && c < 3
    ensures Shape(Next(s, a)) && NotLost(Next(s, a), c)
  {
    StepShape(s, a);
    var s' := Next(s, a);
    assert SeenOk(s, a.t) && NotLost(s, c);
    if AboutToSet(s, c) {
      var t :| 0 <= t < |s.actors| && s.actors[t] == Queued(c);
      assert t != a.t ==> s'.actors[t] == Queued(c);
    }
    if a.Push? { assert s'.actors[a.t] == Queued(s.actors[a.t].c); }
  }

  lemma StepFlags(s: State, a: Step)
    requires FlagsOk(s) && Enabled(s, a)
    ensures FlagsOk(Next(s, a))
  {
    StepShape(s, a);
    var s' := Next(s, a);
    forall t: nat ensures LockOk(s', t) { StepLocks(s, a, t); }
    forall t: nat ensures SeenOk(s', t) { StepSeen(s, a, t); }
    StepHeld(s, a, 0);
    StepHeld(s, a, 1);
    StepHeld(s, a, 2);
    StepNotLost(s, a, 0);
    StepNotLost(s, a, 1);
    StepNotLost(s, a, 2);
  }

  // Counters.

  function Unit(th: Thread): int { 1 }
  function Unpinned(th: Thread): int { One(!th.pinned) }

  /** What the queues weigh together. */
  function QueueSum(s: State, f: Thread -> int): int
    requires Shape(s)
  {
    Sum(s.queues[0], f) + Sum(s.queues[1], f) + Sum(s.queues[2], f)
  }

  /** Counted in the load, but not in a queue: on the way in or on the way out. */
  function LoadPending(a: Actor): int { One(a.Loaded? || a.Ready? || a.Took? || a.Checked? || a.Cleared? || a.Moved?) }

  function TimesharePending(a: Actor): int {
    One((a.Ready? || (Holding(a) && !a.Leaving?)) && a.c == TIMESHARE)
  }

  function MovablePending(a: Actor): int {
    One((a.Entering? || a.Loaded? || a.Ready? || a.Took? || a.Checked? || a.Cleared?) && !a.th.pinned)
  }

  /** The thread that an actor has in hand. */
  function InHand(f: Tagged -> int): Actor -> int {
    (a: Actor) => HandWeight(f, a)
  }

  function HandWeight(f: Tagged -> int, a: Actor): int {
    if a.Entering? || a.Loaded? || a.Ready? || Holding(a) then f(Tagged(a.th, a.c)) else 0
  }

  /** What a thread weighs in class `c`, and what the queues weigh so. */
  function InClass(f: Tagged -> int, c: nat): Thread -> int {
    (th: Thread) => f(Tagged(th, c))
  }

  function TaggedSum(s: State, f: Tagged -> int): int
    requires Shape(s)
  {
    Sum(s.queues[0], InClass(f, 0)) + Sum(s.queues[1], InClass(f, 1)) + Sum(s.queues[2], InClass(f, 2))
  }

  /** Each counter equals what is queued plus what is on its way in or out. */
  ghost predicate CountersOk(s: State) {
    && Shape(s)
    && s.load == QueueSum(s, Unit) + Sum(s.actors, LoadPending)
    && s.timeshareLoad == Sum(s.queues[1], Unit) + Sum(s.actors, TimesharePending)
    && s.movable == QueueSum(s, Unpinned) + Sum(s.actors, MovablePending)
  }

  /** Every thread given to the queue is queued, in some actor's hand, or returned, in the
      class it was given in; whatever one counts, so none is lost, doubled or moved to
      another class. */
  ghost predicate Conserved(s: State, f: Tagged -> int)
    requires Shape(s)
  {
    Sum(s.given, f) == TaggedSum(s, f) + Sum(s.actors, InHand(f)) + Sum(s.returned, f)
  }

  /** What a step does to the weight of the queues. */
  lemma QueueStep(s: State, a: Step, f: Thread -> int)
    requires Shape(s) && Enabled(s, a)
    ensures Shape(Next(s, a))
    ensures var d := if a.Push? then f(s.actors[a.t].th) else if a.Pop? then -f(s.queues[s.actors[a.t].c][a.i]) else 0;
      && QueueSum(Next(s, a), f) == QueueSum(s, f) + d
      && Sum(Next(s, a).queues[1], f) == Sum(s.queues[1], f) +
         if (a.Push? || a.Pop?) && s.actors[a.t].c == 1 then d else 0
  {
    StepShape(s, a);
    if a.Push? {
      var x := s.actors[a.t];
      SumAppend(s.queues[x.c], [x.th], f);
      SumOne(x.th, f);
    } else if a.Pop? {
      SumRemove(s.queues[s.actors[a.t].c], a.i, f);
    }
  }

  lemma StepLoad(s: State, a: Step)
    requires CountersOk(s) && Enabled(s, a)
    ensures Shape(Next(s, a)) && Next(s, a).load == QueueSum(Next(s, a), Unit) + Sum(Next(s, a).actors, LoadPending)
  {
    StepShape(s, a);
    QueueStep(s, a, Unit);
    SumUpdate(s.actors, a.t, Next(s, a).actors[a.t], LoadPending);
  }

  lemma TimeshareDelta(s: State, a: Step)
    requires Shape(s) && Enabled(s, a)
    ensures var d := if (a.Push? || a.Pop?) && s.actors[a.t].c == TIMESHARE then (if a.Push? then 1 else -1) else 0;
      Next(s, a).timeshareLoad - TimesharePending(Next(s, a).actors[a.t]) ==
        s.timeshareLoad - TimesharePending(s.actors[a.t]) + d
  {
  }

  lemma StepTimeshare(s: State, a: Step)
    requires CountersOk(s) && Enabled(s, a)
    ensures Shape(Next(s, a))
    ensures Next(s, a).timeshareLoad == Sum(Next(s, a).queues[1], Unit) + Sum(Next(s, a).actors, TimesharePending)
  {
    StepShape(s, a);
    QueueStep(s, a, Unit);
    TimeshareDelta(s, a);
    SumUpdate(s.actors, a.t, Next(s, a).actors[a.t], TimesharePending);
  }

  /** A step moves a thread between a queue and the movable count's pending threads. */
  lemma MovableDelta(s: State, a: Step)
    requires Shape(s) && Enabled(s, a)
    ensures var d := if a.Push? then Unpinned(s.actors[a.t].th)
                     else if a.Pop? then -Unpinned(s.queues[s.actors[a.t].c][a.i]) else 0;
      Next(s, a).movable - MovablePending(Next(s, a).actors[a.t]) == s.movable - MovablePending(s.actors[a.t]) + d
  {
  }

  lemma StepMovable(s: State, a: Step)
    requires CountersOk(s) && Enabled(s, a)
    ensures Shape(Next(s, a)) &&
      Next(s, a).movable == QueueSum(Next(s, a), Unpinned) + Sum(Next(s, a).actors, MovablePending)
  {
    StepShape(s, a);
    QueueStep(s, a, Unpinned);
    MovableDelta(s, a);
    SumUpdate(s.actors, a.t, Next(s, a).actors[a.t], MovablePending);
  }

  lemma StepCounters(s: State, a: Step)
    requires CountersOk(s) && Enabled(s, a)
    ensures CountersOk(Next(s, a))
  {
    StepLoad(s, a);
    StepTimeshare(s, a);
    StepMovable(s, a);
  }

  /** What a step does to what its actor has in hand. */
  lemma HandStep(s: State, a: Step, f: Tagged -> int)
    requires Shape(s) && Enabled(s, a)
    ensures var x := s.actors[a.t];
      HandWeight(f, Next(s, a).actors[a.t]) - HandWeight(f, x) ==
        if a.CountMovable? then f(Tagged(a.th, a.c))
        else if a.Push? || a.Unlock? then -f(Tagged(x.th, x.c))
        else if a.Pop? then f(Tagged(s.queues[x.c][a.i], x.c))
        else 0
    ensures Next(s, a).given == (if a.CountMovable? then s.given + [Tagged(a.th, a.c)] else s.given)
    ensures var x := s.actors[a.t];
      Next(s, a).returned == if a.Unlock? then s.returned + [Tagged(x.th, x.c)] else s.returned
  {
  }

  /** What a step does to the weight of the queues, class by class. */
  lemma TaggedStep(s: State, a: Step, f: Tagged -> int)
    requires Shape(s) && Enabled(s, a)
    ensures Shape(Next(s, a))
    ensures var x := s.actors[a.t];
      TaggedSum(Next(s, a), f) == TaggedSum(s, f) +
        if a.Push? then f(Tagged(x.th, x.c)) else if a.Pop? then -f(Tagged(s.queues[x.c][a.i], x.c)) else 0
  {
    StepShape(s, a);
    var x := s.actors[a.t];
    if a.Push? {
      SumAppend(s.queues[x.c], [x.th], InClass(f, x.c));
      SumOne(x.th, InClass(f, x.c));
    } else if a.Pop? {
      SumRemove(s.queues[x.c], a.i, InClass(f, x.c));
    }
  }

  lemma StepConserved(s: State, a: Step, f: Tagged -> int)
    requires Shape(s) && Enabled(s, a) && Conserved(s, f)
    ensures Shape(Next(s, a)) && Conserved(Next(s, a), f)
  {
    StepShape(s, a);
    TaggedStep(s, a, f);
    HandStep(s, a, f);
    var x, x' := s.actors[a.t], Next(s, a).actors[a.t];
    SumUpdate(s.actors, a.t, x', InHand(f));
    assert InHand(f)(x) == HandWeight(f, x) && InHand(f)(x') == HandWeight(f, x');
    if a.CountMovable? {
      SumAppend(s.given, [Tagged(a.th, a.c)], f);
      SumOne(Tagged(a.th, a.c), f);
    }
    if a.Unlock? {
      SumAppend(s.returned, [Tagged(x.th, x.c)], f);
      SumOne(Tagged(x.th, x.c), f);
    }
  }

  /** No counter is ever below zero, and each subtraction finds at least one there: the
      assertion on the movable count never fires. */
  lemma CountersSafe(s: State, a: Step)
    requires CountersOk(s) && Enabled(s, a)
    ensures s.load >= 0 && s.timeshareLoad >= 0 && s.movable >= 0
    ensures a.UncountMovable? && !s.actors[a.t].th.pinned ==> s.movable > 0
    ensures a.SubLoad? ==> s.load > 0
    ensures a.SubTimeshare? && s.actors[a.t].c == TIMESHARE ==> s.timeshareLoad > 0
  {
    forall i | 0 <= i < 3 ensures Sum(s.queues[i], Unit) >= 0 && Sum(s.queues[i], Unpinned) >= 0 {
      SumNonNegative(s.queues[i], Unit);
      SumNonNegative(s.queues[i], Unpinned);
    }
    SumAtLeast(s.actors, a.t, LoadPending);
    SumAtLeast(s.actors, a.t, TimesharePending);
    SumAtLeast(s.actors, a.t, MovablePending);
  }

  // Runs.

  ghost predicate Initial(s: State) {
    && s.queues == [[], [], []] && s.flags == [false, false, false] && s.locks == [None, None, None]
    && s.load == 0 && s.timeshareLoad == 0 && s.movable == 0 && s.given == [] && s.returned == []
    && (forall t :: 0 <= t < |s.actors| ==> s.actors[t].Outside?)
  }

  predicate Runs(s: State, steps: seq<Step>)
    decreases |steps|
  {
    Shape(s) && (steps != [] ==> Enabled(s, steps[0]) && Runs(Next(s, steps[0]), steps[1..]))
  }

  function After(s: State, steps: seq<Step>): State
    requires Runs(s, steps)
    decreases |steps|
  {
    if steps == [] then s else After(Next(s, steps[0]), steps[1..])
  }

  /** Under any interleaving of inserts and takes: no queue with threads goes unnoticed,
      the counters are exact, and no thread is lost, doubled or moved to another class. */
  lemma {:induction false} RunKeeps(s: State, steps: seq<Step>, f: Tagged -> int)
    requires Runs(s, steps) && FlagsOk(s) && CountersOk(s) && Conserved(s, f)
    ensures FlagsOk(After(s, steps)) && CountersOk(After(s, steps)) && Conserved(After(s, steps), f)
    decreases |steps|
  {
    if steps == [] {
    } else {
      StepFlags(s, steps[0]);
      StepCounters(s, steps[0]);
      StepConserved(s, steps[0], f);
      RunKeeps(Next(s, steps[0]), steps[1..], f);
    }
  }

  lemma InitialKeeps(s: State, f: Tagged -> int)
    requires Initial(s)
    ensures FlagsOk(s) && CountersOk(s) && Conserved(s, f)
  {
    SumZero(s.actors, LoadPending);
    SumZero(s.actors, TimesharePending);
    SumZero(s.actors, MovablePending);
    SumZero(s.actors, InHand(f));
  }

  /** When every actor is outside, a queue with threads has its flag set, so that a take
      will look into it, and the three counters are the numbers of threads queued, of
      timeshare threads queued and of threads queued that may move. */
  lemma QuiescentExact(s: State, steps: seq<Step>, c: nat)
    requires Initial(s) && Runs(s, steps) && c < 3
    requires forall t :: 0 <= t < |After(s, steps).actors| ==> After(s, steps).actors[t].Outside?
    ensures Shape(After(s, steps))
    ensures After(s, steps).queues[c] != [] ==> After(s, steps).flags[c]
    ensures var e := After(s, steps);
      && e.load == |e.queues[0]| + |e.queues[1]| + |e.queues[2]|
      && e.timeshareLoad == |e.queues[TIMESHARE]|
      && e.movable == Sum(e.queues[0], Unpinned) + Sum(e.queues[1], Unpinned) + Sum(e.queues[2], Unpinned)
  {
    var one := (x: Tagged) => 1;
    InitialKeeps(s, one);
    RunKeeps(s, steps, one);
    var e := After(s, steps);
    SumZero(e.actors, LoadPending);
    SumZero(e.actors, TimesharePending);
    SumZero(e.actors, MovablePending);
    SumUnit(e.queues[0]);
    SumUnit(e.queues[1]);
    SumUnit(e.queues[2]);
    assert NotLost(e, c);
  }

  lemma {:induction false} SumUnit(q: seq<Thread>)
    ensures Sum(q, Unit) == |q|
  {
    if q == [] {
    } else {
      SumUnit(q[..|q| - 1]);
    }
  }

  // One actor alone.

  /** Nobody is inside an insert or a take. */
  ghost predicate Quiet(s: State) { forall t :: 0 <= t < |s.actors| ==> s.actors[t].Outside? }

  /** The state with thread `i` of class `c` handed out. */
  function Taken(s: State, c: nat, i: nat): State
    requires Shape(s) && c < 3 && i < |s.queues[c]|
  {
    var th, q := s.queues[c][i], s.queues[c][..i] + s.queues[c][i + 1..];
    s.(queues := s.queues[c := q], flags := if q == [] then s.flags[c := false] else s.flags,
       movable := s.movable - One(!th.pinned), load := s.load - 1,
       timeshareLoad := s.timeshareLoad - One(c == TIMESHARE), returned := s.returned + [Tagged(th, c)])
  }

  lemma RunFirst(s: State, a: Step, s1: State, rest: seq<Step>) returns (steps: seq<Step>)
    requires Shape(s) && Enabled(s, a) && s1 == Next(s, a) && Runs(s1, rest)
    ensures Runs(s, steps) && After(s, steps) == After(s1, rest)
  {
    steps := [a] + rest;
    assert steps[1..] == rest;
  }

  /** One class of `take`, by an actor that nobody interferes with: `take_realtime`,
      `take_timeshare` or `take_idle`.  The queue gives out thread `i`. */
  method TakeClass(s: State, t: nat, c: nat, i: nat) returns (s': State, res: Option<Thread>, ghost steps: seq<Step>)
    requires Shape(s) && t < |s.actors| && s.actors[t].Outside? && c < 3 && s.locks[c].None?
    requires s.queues[c] != [] ==> i < |s.queues[c]|
    ensures Runs(s, steps) && After(s, steps) == s'
    ensures res.Some? <==> s.flags[c] && s.queues[c] != []
    ensures s' == if res.Some? then Taken(s, c, i) else s
    ensures res.Some? ==> res.value == s.queues[c][i]
  {
    StepShape(s, LoadFlag(t, c));
    var s1 := Next(s, LoadFlag(t, c));
    res := None;
    if !s.flags[c] {
      s' := s1;
      steps := RunFirst(s, LoadFlag(t, c), s1, []);
    } else if s.queues[c] == [] {
      StepShape(s1, PopNone(t));
      s' := Next(s1, PopNone(t));
      steps := RunFirst(s1, PopNone(t), s', []);
      steps := RunFirst(s, LoadFlag(t, c), s1, steps);
    } else {
      s', steps := PopThread(s1, t, c, i);
      steps := RunFirst(s, LoadFlag(t, c), s1, steps);
      res := Some(s.queues[c][i]);
    }
  }

  /** The locked part of it, from the moment the flag was seen set. */
  method PopThread(s: State, t: nat, c: nat, i: nat) returns (s': State, ghost steps: seq<Step>)
    requires Shape(s) && t < |s.actors| && s.actors[t] == Looked(c) && c < 3 && s.locks[c].None? && i < |s.queues[c]|
    ensures Runs(s, steps) && After(s, steps) == s'
    ensures s' == Taken(At(s, t, Outside), c, i)
  {
    StepShape(s, Pop(t, i));
    var s1 := Next(s, Pop(t, i));
    s', steps := ClearIfEmpty(s1, t, s.queues[c][i], c);
    steps := RunFirst(s, Pop(t, i), s1, steps);
    assert s.locks[c := Some(t)][c := None] == s.locks;
  }

  method ClearIfEmpty(s: State, t: nat, th: Thread, c: nat) returns (s': State, ghost steps: seq<Step>)
    requires Shape(s) && t < |s.actors| && s.actors[t] == Took(th, c) && c < 3
    ensures Runs(s, steps) && After(s, steps) == s'
    ensures s' ==
      Left(s.(flags := if s.queues[c] == [] then s.flags[c := false] else s.flags), t, th, c, One(!th.pinned), 1)
  {
    StepShape(s, CheckEmpty(t));
    var s1 := Next(s, CheckEmpty(t));
    s', steps := ClearChecked(s1, t, th, c);
    steps := RunFirst(s, CheckEmpty(t), s1, steps);
  }

  method ClearChecked(s: State, t: nat, th: Thread, c: nat) returns (s': State, ghost steps: seq<Step>)
    requires Shape(s) && t < |s.actors| && c < 3 && s.actors[t] == Checked(th, c, s.queues[c] == [])
    ensures Runs(s, steps) && After(s, steps) == s'
    ensures s' ==
      Left(s.(flags := if s.queues[c] == [] then s.flags[c := false] else s.flags), t, th, c, One(!th.pinned), 1)
  {
    StepShape(s, ClearFlag(t));
    var s1 := Next(s, ClearFlag(t));
    s', steps := Uncount(s1, t, th, c);
    steps := RunFirst(s, ClearFlag(t), s1, steps);
  }

  /** The state once actor `t` has gone with thread `th` of class `c`, which was still to
      be taken off the movable count and the load as given. */
  function Left(s: State, t: nat, th: Thread, c: nat, offMovable: int, offLoad: int): State
    requires t < |s.actors| && c < |s.locks|
  {
    At(s, t, Outside).(movable := s.movable - offMovable, load := s.load - offLoad,
      timeshareLoad := s.timeshareLoad - One(c == TIMESHARE), locks := s.locks[c := None],
      returned := s.returned + [Tagged(th, c)])
  }

  method Uncount(s: State, t: nat, th: Thread, c: nat) returns (s': State, ghost steps: seq<Step>)
    requires Shape(s) && t < |s.actors| && s.actors[t] == Cleared(th, c) && c < 3
    ensures Runs(s, steps) && After(s, steps) == s'
    ensures s' == Left(s, t, th, c, One(!th.pinned), 1)
  {
    StepShape(s, UncountMovable(t));
    var s1 := Next(s, UncountMovable(t));
    s', steps := Unload(s1, t, th, c);
    steps := RunFirst(s, UncountMovable(t), s1, steps);
  }

  method Unload(s: State, t: nat, th: Thread, c: nat) returns (s': State, ghost steps: seq<Step>)
    requires Shape(s) && t < |s.actors| && s.actors[t] == Moved(th, c) && c < 3
    ensures Runs(s, steps) && After(s, steps) == s'
    ensures s' == Left(s, t, th, c, 0, 1)
  {
    StepShape(s, SubLoad(t));
    var s1 := Next(s, SubLoad(t));
    s', steps := Leave(s1, t, th, c);
    steps := RunFirst(s, SubLoad(t), s1, steps);
  }

  method Leave(s: State, t: nat, th: Thread, c: nat) returns (s': State, ghost steps: seq<Step>)
    requires Shape(s) && t < |s.actors| && s.actors[t] == Unloaded(th, c) && c < 3
    ensures Runs(s, steps) && After(s, steps) == s'
    ensures s' == Left(s, t, th, c, 0, 0)
  {
    StepShape(s, SubTimeshare(t));
    var s1 := Next(s, SubTimeshare(t));
    StepShape(s1, Unlock(t));
    s' := Next(s1, Unlock(t));
    steps := RunFirst(s1, Unlock(t), s', []);
    steps := RunFirst(s, SubTimeshare(t), s1, steps);
  }

  /** Thread `th` came from class `c`, where the queue picked it, and every class before
      that is empty. */
  ghost predicate TookFrom(s': State, s: State, pick: seq<nat>, c: nat, th: Thread)
    requires Shape(s)
  {
    && c < 3 && c < |pick| && pick[c] < |s.queues[c]| && (forall d :: 0 <= d < c ==> s.queues[d] == [])
    && th == s.queues[c][pick[c]] && s' == Taken(s, c, pick[c])
  }

  /** `take`, by an actor that nobody interferes with: it hands out a thread of the first
      class that has any, and none exactly if no class has one, or if it is stealing and no
      thread may move. */
  method Take(s: State, t: nat, stealing: bool, pick: seq<nat>)
    returns (s': State, res: Option<Thread>, ghost steps: seq<Step>)
    requires FlagsOk(s) && Quiet(s) && t < |s.actors|
    requires |pick| == 3 && forall c :: 0 <= c < 3 ==> s.queues[c] != [] ==> pick[c] < |s.queues[c]|
    ensures Runs(s, steps) && After(s, steps) == s'
    ensures res.None? <==> (stealing && s.movable == 0) || s.queues == [[], [], []]
    ensures res.None? ==> s' == s
    ensures res.Some? ==> exists c :: TookFrom(s', s, pick, c, res.value)
  {
    QuietFlags(s);
    s', res, steps := s, None, [];
    if s.flags == [false, false, false] || (stealing && s.movable == 0) {
      return;
    }
    s', res, steps := TakeInOrder(s, t, pick);
  }

  /** The three classes of `take` one after the other. */
  method TakeInOrder(s: State, t: nat, pick: seq<nat>)
    returns (s': State, res: Option<Thread>, ghost steps: seq<Step>)
    requires Shape(s) && t < |s.actors| && s.actors[t].Outside?
    requires forall c :: 0 <= c < 3 ==> s.locks[c].None? && (s.queues[c] != [] ==> s.flags[c])
    requires |pick| == 3 && forall c :: 0 <= c < 3 ==> s.queues[c] != [] ==> pick[c] < |s.queues[c]|
    ensures Runs(s, steps) && After(s, steps) == s'
    ensures res.None? ==> s' == s && forall c :: 0 <= c < 3 ==> s.queues[c] == []
    ensures res.Some? ==> exists c :: TookFrom(s', s, pick, c, res.value)
  {
    s', res, steps := s, None, [];
    var c := 0;
    while c < 3
      invariant 0 <= c <= 3 && s' == s && res.None? && Runs(s, steps) && After(s, steps) == s
      invariant forall d :: 0 <= d < c ==> s.queues[d] == []
    {
      ghost var more;
      s', res, more := TakeClass(s, t, c, pick[c]);
      RunsThen(s, steps, more);
      steps := steps + more;
      if res.Some? {
        assert TookFrom(s', s, pick, c, res.value);
        return;
      }
      c := c + 1;
    }
  }

  /** With nobody inside, the locks are free and a queue with threads has its flag set. */
  lemma QuietFlags(s: State)
    requires FlagsOk(s) && Quiet(s)
    ensures forall c :: 0 <= c < 3 ==> s.locks[c].None? && (s.queues[c] != [] ==> s.flags[c])
  {
    forall c | 0 <= c < 3 ensures s.locks[c].None? && (s.queues[c] != [] ==> s.flags[c]) {
      assert LockHeld(s, c) && NotLost(s, c);
    }
  }

  lemma {:induction false} RunsThen(s: State, steps: seq<Step>, more: seq<Step>)
    requires Runs(s, steps) && Runs(After(s, steps), more)
    ensures Runs(s, steps + more) && After(s, steps + more) == After(After(s, steps), more)
    decreases |steps|
  {
    if steps == [] {
      assert steps + more == more;
    } else {
      RunsThen(Next(s, steps[0]), steps[1..], more);
      assert (steps + more)[1..] == steps[1..] + more;
    }
  }

  /** The class of a thread's priority. */
  datatype PriorityClass = Idle | Background | User | Realtime

  /** The state with thread `th` queued in class `c`. */
  function Inserted(s: State, c: nat, th: Thread): State
    requires Shape(s) && c < 3
  {
    s.(queues := s.queues[c := s.queues[c] + [th]], flags := s.flags[c := true],
       movable := s.movable + One(!th.pinned), load := s.load + 1,
       timeshareLoad := s.timeshareLoad + One(c == TIMESHARE), given := s.given + [Tagged(th, c)])
  }

  /** `insert`, by an actor that nobody interferes with: the thread is last in the queue of
      its class, a user thread past its deadline in the realtime queue, and the flag of that
      queue is set. */
  method Insert(s: State, t: nat, th: Thread, class_: PriorityClass, expired: bool)
    returns (s': State, res: bool, ghost steps: seq<Step>)
    requires Shape(s) && t < |s.actors| && s.actors[t].Outside? && forall c :: 0 <= c < 3 ==> s.locks[c].None?
    ensures Runs(s, steps) && After(s, steps) == s'
    ensures class_ == Realtime || (class_ == User && expired) ==> s' == Inserted(s, REALTIME, th)
    ensures class_ == User && !expired ==> s' == Inserted(s, TIMESHARE, th)
    ensures class_ == Background || class_ == Idle ==> s' == Inserted(s, IDLE, th)
    ensures res <==> class_ == Realtime || class_ == User
  {
    match class_ {
      case Realtime =>
        s', steps := InsertInto(s, t, th, REALTIME);
        res := true;
      case User =>
        s', steps := InsertInto(s, t, th, if expired then REALTIME else TIMESHARE);
        res := true;
      case _ =>
        s', steps := InsertInto(s, t, th, IDLE);
        res := false;
    }
  }

  method InsertInto(s: State, t: nat, th: Thread, c: nat) returns (s': State, ghost steps: seq<Step>)
    requires Shape(s) && t < |s.actors| && s.actors[t].Outside? && c < 3 && s.locks[c].None?
    ensures Runs(s, steps) && After(s, steps) == s'
    ensures s' == Inserted(s, c, th)
  {
    StepShape(s, CountMovable(t, th, c));
    var s1 := Next(s, CountMovable(t, th, c));
    s', steps := CountLoad(s1, t, th, c);
    steps := RunFirst(s, CountMovable(t, th, c), s1, steps);
  }

  /** From `Entering` on: the thread counts as movable already. */
  method CountLoad(s: State, t: nat, th: Thread, c: nat) returns (s': State, ghost steps: seq<Step>)
    requires Shape(s) && t < |s.actors| && c < 3 && s.actors[t] == Entering(th, c) && s.locks[c].None?
    ensures Runs(s, steps) && After(s, steps) == s'
    ensures s' == Queue(At(s, t, Outside), c, th, 1, One(c == TIMESHARE))
  {
    StepShape(s, AddLoad(t));
    var s1 := Next(s, AddLoad(t));
    s', steps := CountTimeshare(s1, t, th, c);
    steps := RunFirst(s, AddLoad(t), s1, steps);
  }

  method CountTimeshare(s: State, t: nat, th: Thread, c: nat) returns (s': State, ghost steps: seq<Step>)
    requires Shape(s) && t < |s.actors| && c < 3 && s.actors[t] == Loaded(th, c) && s.locks[c].None?
    ensures Runs(s, steps) && After(s, steps) == s'
    ensures s' == Queue(At(s, t, Outside), c, th, 0, One(c == TIMESHARE))
  {
    StepShape(s, AddTimeshare(t));
    var s1 := Next(s, AddTimeshare(t));
    s', steps := PushAndSet(s1, t, th, c);
    steps := RunFirst(s, AddTimeshare(t), s1, steps);
  }

  method PushAndSet(s: State, t: nat, th: Thread, c: nat) returns (s': State, ghost steps: seq<Step>)
    requires Shape(s) && t < |s.actors| && c < 3 && s.actors[t] == Ready(th, c) && s.locks[c].None?
    ensures Runs(s, steps) && After(s, steps) == s'
    ensures s' == Queue(At(s, t, Outside), c, th, 0, 0)
  {
    StepShape(s, Push(t));
    var s1 := Next(s, Push(t));
    StepShape(s1, SetFlag(t));
    s' := Next(s1, SetFlag(t));
    steps := RunFirst(s1, SetFlag(t), s', []);
    steps := RunFirst(s, Push(t), s1, steps);
  }

  /** The state with thread `th` queued and the counts raised as given. */
  function Queue(s: State, c: nat, th: Thread, onLoad: int, onTimeshare: int): State
    requires Shape(s) && c < 3
  {
    s.(queues := s.queues[c := s.queues[c] + [th]], flags := s.flags[c := true], load := s.load + onLoad,
       timeshareLoad := s.timeshareLoad + onTimeshare)
  }
}
