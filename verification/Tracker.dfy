/** The memory tracker (src/kernel/src/memory/tracker.rs): lock-free counters over the
    frame allocator.  Every atomic operation of `try_alloc_frame` and `free_frame` is a
    step of one thread; threads interleave freely.  Counters are integers, so that a
    subtraction below zero would show. */
module Tracker {
  import opened Sums
  import FrameAllocator

  /** Where a thread stands between two atomic operations; counts are in frames.  What is
      being freed is a block or a stray frame, which lies inside a block and heads none. */
  datatype Thread =
    | Outside
    | Loaded(count: nat, kernel: bool, seen: int)   // has read `idle`, which was enough
    | Reserved(count: nat, kernel: bool)            // has taken the count from `idle`
    | Refused(count: nat)                           // the frame allocator had no block
    | Obtained(count: nat, kernel: bool)            // has a block
    | Charged(count: nat, kernel: bool)             // has added it to a use counter
    | Uncharged(count: nat, block: bool)            // freeing: has left the use counter
    | Idled(count: nat, block: bool)                // freeing: has added it to `idle`
    | Tallied(count: nat, block: bool)              // freeing: has added it to `freed`

  /** A block that somebody holds: its size and its KERNEL flag. */
  datatype Held = Held(size: nat, kernel: bool)

  datatype State = State(idle: int, kernelUsed: int, pageData: int, total: int, taken: int, freed: int,
                         free: int, threads: seq<Thread>, held: seq<Held>, stray: int)

  datatype Step =
    | LoadIdle(t: nat, level: nat, kernel: bool)
    | Exchange(t: nat)
    | RawAlloc(t: nat, ok: bool)
    | AddUsed(t: nat)
    | AddAllocated(t: nat)
    | GiveBack(t: nat)
    | SubUsed(t: nat, i: nat)
    | SubStray(t: nat)
    | AddIdle(t: nat)
    | AddFreed(t: nat)
    | RawFree(t: nat)
    | SplitHeld(i: nat)

  /** When a step can be taken.  The frame allocator may refuse at any time; when it
      grants a block its free frames go down by the block's size.  The metadata of a stray
      frame is that of a single frame without the KERNEL flag; `free_frame` asserts that
      the counter it takes that off was not zero. */
  predicate Enabled(s: State, a: Step) {
    match a
    case LoadIdle(t, level, _) =>
      t < |s.threads| && s.threads[t].Outside? && level < 3 && s.idle >= FrameAllocator.Size(level)
    case Exchange(t) => t < |s.threads| && s.threads[t].Loaded?
    case RawAlloc(t, ok) => t < |s.threads| && s.threads[t].Reserved? && (ok ==> s.free >= s.threads[t].count)
    case AddUsed(t) => t < |s.threads| && s.threads[t].Obtained?
    case AddAllocated(t) => t < |s.threads| && s.threads[t].Charged?
    case GiveBack(t) => t < |s.threads| && s.threads[t].Refused?
    case SubUsed(t, i) => t < |s.threads| && s.threads[t].Outside? && i < |s.held|
    case SubStray(t) => t < |s.threads| && s.threads[t].Outside? && s.pageData > 0
    case AddIdle(t) => t < |s.threads| && s.threads[t].Uncharged?
    case AddFreed(t) => t < |s.threads| && s.threads[t].Idled?
    case RawFree(t) => t < |s.threads| && s.threads[t].Tallied?
    case SplitHeld(i) => i < |s.held| && s.held[i].size in {512, 262144}
  }

  function At(s: State, t: nat, th: Thread): State
    requires t < |s.threads|
  {
    s.(threads := s.threads[t := th])
  }

  function Next(s: State, a: Step): State
    requires Enabled(s, a)
  {
    match a
    case LoadIdle(t, level, kernel) => At(s, t, Loaded(FrameAllocator.Size(level), kernel, s.idle))
    case Exchange(t) =>
      var th := s.threads[t];
      if s.idle == th.seen then At(s.(idle := s.idle - th.count), t, Reserved(th.count, th.kernel))
      else At(s, t, Outside)
    case RawAlloc(t, ok) =>
      var th := s.threads[t];
      if ok then At(s.(free := s.free - th.count), t, Obtained(th.count, th.kernel)) else At(s, t, Refused(th.count))
    case AddUsed(t) =>
      var th := s.threads[t];
      At(if th.kernel then s.(kernelUsed := s.kernelUsed + th.count) else s.(pageData := s.pageData + th.count),
         t, Charged(th.count, th.kernel))
    case AddAllocated(t) =>
      var th := s.threads[t];
      At(s.(taken := s.taken + th.count, held := s.held + [Held(th.count, th.kernel)]), t, Outside)
    case GiveBack(t) => At(s.(idle := s.idle + s.threads[t].count), t, Outside)
    case SubUsed(t, i) =>
      var h := s.held[i];
      At((if h.kernel then s.(kernelUsed := s.kernelUsed - h.size) else s.(pageData := s.pageData - h.size))
           .(held := s.held[..i] + s.held[i + 1..]), t, Uncharged(h.size, true))
    case SubStray(t) => At(s.(pageData := s.pageData - 1, stray := s.stray + 1), t, Uncharged(1, false))
    case AddIdle(t) => var th := s.threads[t]; At(s.(idle := s.idle + th.count), t, Idled(th.count, th.block))
    case AddFreed(t) => var th := s.threads[t]; At(s.(freed := s.freed + th.count), t, Tallied(th.count, th.block))
    case RawFree(t) =>
      // A frame that heads no block is not freed.
      var th := s.threads[t]; At(if th.block then s.(free := s.free + th.count) else s, t, Outside)
    case SplitHeld(i) =>
      // The children are set up afresh: the KERNEL flag is gone.
      s.(held := s.held[..i] + seq(512, _ => Held(s.held[i].size / 512, false)) + s.held[i + 1..])
  }

  // What is where.

  /** Frames a thread has taken from `idle` and not yet charged, or uncharged and not
      yet returned. */
  function InFlight(th: Thread): int {
    if th.Reserved? || th.Refused? || th.Obtained? || th.Uncharged? then th.count else 0
  }

  /** Frames of a block that a thread, rather than a holder, has. */
  function InHand(th: Thread): int {
    if th.Obtained? || th.Charged? || ((th.Uncharged? || th.Idled? || th.Tallied?) && th.block) then th.count else 0
  }

  function ChargedKernel(th: Thread): int { if th.Charged? && th.kernel then th.count else 0 }
  function ChargedPage(th: Thread): int { if th.Charged? && !th.kernel then th.count else 0 }
  function NotTaken(th: Thread): int { if th.Charged? then th.count else 0 }
  function NotFreed(th: Thread): int { if th.Uncharged? || th.Idled? then th.count else 0 }
  function HeldSize(h: Held): int { h.size }
  function HeldKernel(h: Held): int { if h.kernel then h.size else 0 }
  function HeldPage(h: Held): int { if h.kernel then 0 else h.size }

  /** Every frame that the tracker knows of is idle, used, or in flight ... */
  ghost predicate TotalKept(s: State) {
    s.idle + s.kernelUsed + s.pageData + Sum(s.threads, InFlight) == s.total
  }

  /** ... every frame of the allocator is free, held, or in some thread's hand ... */
  ghost predicate UsableKept(s: State, usable: int) {
    s.free + Sum(s.held, HeldSize) + Sum(s.threads, InHand) == usable
  }

  /** ... what counts as used, or did until it was freed as stray, is held or about to
      be ... */
  ghost predicate UsedKept(s: State) {
    s.kernelUsed + s.pageData + s.stray == Sum(s.held, HeldSize) + Sum(s.threads, NotTaken)
  }

  /** ... and what was ever allocated is in use or was freed. */
  ghost predicate TalliesKept(s: State) {
    s.taken + Sum(s.threads, NotTaken) == s.kernelUsed + s.pageData + s.freed + Sum(s.threads, NotFreed)
  }

  /** Conservation. */
  ghost predicate Balanced(s: State, usable: int) {
    TotalKept(s) && UsableKept(s, usable) && UsedKept(s) && TalliesKept(s)
  }

  /** The use counters count exactly the blocks held and those about to be. */
  ghost predicate Exact(s: State) {
    && s.kernelUsed == Sum(s.held, HeldKernel) + Sum(s.threads, ChargedKernel)
    && s.pageData == Sum(s.held, HeldPage) + Sum(s.threads, ChargedPage)
  }

  lemma HeldAdded(hs: seq<Held>, h: Held)
    ensures Sum(hs + [h], HeldSize) == Sum(hs, HeldSize) + HeldSize(h)
    ensures Sum(hs + [h], HeldKernel) == Sum(hs, HeldKernel) + HeldKernel(h)
    ensures Sum(hs + [h], HeldPage) == Sum(hs, HeldPage) + HeldPage(h)
  {
    assert (hs + [h])[..|hs|] == hs;
  }

  lemma HeldRemoved(hs: seq<Held>, i: nat)
    requires i < |hs|
    ensures var hs' := hs[..i] + hs[i + 1..];
      && Sum(hs', HeldSize) == Sum(hs, HeldSize) - HeldSize(hs[i])
      && Sum(hs', HeldKernel) == Sum(hs, HeldKernel) - HeldKernel(hs[i])
      && Sum(hs', HeldPage) == Sum(hs, HeldPage) - HeldPage(hs[i])
  {
    SumRemove(hs, i, HeldSize);
    SumRemove(hs, i, HeldKernel);
    SumRemove(hs, i, HeldPage);
  }

  /** Splitting a held block keeps the sizes; all of it now counts as page data. */
  lemma HeldSplit(hs: seq<Held>, i: nat)
    requires i < |hs| && hs[i].size in {512, 262144}
    ensures var hs' := hs[..i] + seq(512, _ => Held(hs[i].size / 512, false)) + hs[i + 1..];
      && Sum(hs', HeldSize) == Sum(hs, HeldSize)
      && Sum(hs', HeldKernel) == Sum(hs, HeldKernel) - HeldKernel(hs[i])
      && Sum(hs', HeldPage) == Sum(hs, HeldPage) + HeldKernel(hs[i])
  {
    SplitSum(hs, i, HeldSize);
    SplitSum(hs, i, HeldKernel);
    SplitSum(hs, i, HeldPage);
  }

  lemma SplitSum(hs: seq<Held>, i: nat, f: Held -> int)
    requires i < |hs|
    ensures var child := Held(hs[i].size / 512, false);
      Sum(hs[..i] + seq(512, _ => child) + hs[i + 1..], f) == Sum(hs, f) - f(hs[i]) + 512 * f(child)
  {
    var child := Held(hs[i].size / 512, false);
    SumThree(hs[..i], seq(512, _ => child), hs[i + 1..], f);
    SumCopies(512, child, f);
    SumRemove(hs, i, f);
    SumAppend(hs[..i], hs[i + 1..], f);
  }

  /** The thread that a step moves, and where to. */
  lemma StepMoves(s: State, a: Step)
    requires Enabled(s, a)
    ensures !a.SplitHeld? ==> a.t < |s.threads| && Next(s, a).threads == s.threads[a.t := Next(s, a).threads[a.t]]
  {
  }

  /** What a step moves between the counters and its thread, apart from splits. */
  lemma StepDeltas(s: State, a: Step)
    requires Enabled(s, a) && !a.SplitHeld?
    ensures var s', x, x' := Next(s, a), s.threads[a.t], Next(s, a).threads[a.t];
      && s'.total == s.total
      && s'.idle + s'.kernelUsed + s'.pageData + InFlight(x') == s.idle + s.kernelUsed + s.pageData + InFlight(x)
      && s'.free + InHand(x') +
         (if a.AddAllocated? then InHand(x) else if a.SubUsed? then -HeldSize(s.held[a.i]) else 0) ==
         s.free + InHand(x)
      && s'.taken + NotTaken(x') - s'.kernelUsed - s'.pageData - s'.freed - NotFreed(x') ==
         s.taken + NotTaken(x) - s.kernelUsed - s.pageData - s.freed - NotFreed(x)
  {
  }

  lemma StepTotal(s: State, a: Step)
    requires Enabled(s, a) && TotalKept(s)
    ensures TotalKept(Next(s, a)) && Next(s, a).total == s.total
  {
    if !a.SplitHeld? {
      StepMoves(s, a);
      StepDeltas(s, a);
      SumUpdate(s.threads, a.t, Next(s, a).threads[a.t], InFlight);
    }
  }

  lemma StepUsable(s: State, a: Step, usable: int)
    requires Enabled(s, a) && UsableKept(s, usable)
    ensures UsableKept(Next(s, a), usable)
  {
    if a.SplitHeld? {
      HeldSplit(s.held, a.i);
    } else {
      StepMoves(s, a);
      StepDeltas(s, a);
      StepHeld(s, a);
      SumUpdate(s.threads, a.t, Next(s, a).threads[a.t], InHand);
    }
  }

  /** What a step does to the blocks held. */
  lemma StepHeld(s: State, a: Step)
    requires Enabled(s, a) && !a.SplitHeld?
    ensures var hs, hs', x := s.held, Next(s, a).held, s.threads[a.t];
      && Sum(hs', HeldSize) ==
        Sum(hs, HeldSize) + (if a.AddAllocated? then InHand(x) else if a.SubUsed? then -HeldSize(hs[a.i]) else 0)
      && Sum(hs', HeldKernel) == Sum(hs, HeldKernel) +
         (if a.AddAllocated? && x.kernel then x.count else if a.SubUsed? then -HeldKernel(hs[a.i]) else 0)
      && Sum(hs', HeldPage) == Sum(hs, HeldPage) +
         (if a.AddAllocated? && !x.kernel then x.count else if a.SubUsed? then -HeldPage(hs[a.i]) else 0)
  {
    if a.SubUsed? { HeldRemoved(s.held, a.i); }
    if a.AddAllocated? { HeldAdded(s.held, Held(s.threads[a.t].count, s.threads[a.t].kernel)); }
  }

  lemma StepUsed(s: State, a: Step)
    requires Enabled(s, a) && UsedKept(s)
    ensures UsedKept(Next(s, a))
  {
    if a.SplitHeld? {
      HeldSplit(s.held, a.i);
    } else {
      StepMoves(s, a);
      StepHeld(s, a);
      ChargeDeltas(s, a);
      SumUpdate(s.threads, a.t, Next(s, a).threads[a.t], NotTaken);
    }
  }

  lemma StepTallies(s: State, a: Step)
    requires Enabled(s, a) && TalliesKept(s)
    ensures TalliesKept(Next(s, a))
  {
    if !a.SplitHeld? {
      StepMoves(s, a);
      StepDeltas(s, a);
      SumUpdate(s.threads, a.t, Next(s, a).threads[a.t], NotTaken);
      SumUpdate(s.threads, a.t, Next(s, a).threads[a.t], NotFreed);
    }
  }

  /** By how much `kernelUsed` exceeds the kernel blocks held and about to be. */
  ghost function Drift(s: State): int {
    s.kernelUsed - Sum(s.held, HeldKernel) - Sum(s.threads, ChargedKernel)
  }

  /** The use counters are exact where they have not drifted apart and nothing stray was
      freed. */
  lemma ExactIsNoDrift(s: State)
    requires UsedKept(s)
    ensures Exact(s) <==> Drift(s) == 0 && s.stray == 0
  {
    SizesAddUp(s.held);
    ChargesAddUp(s.threads);
  }

  /** They drift apart at each split of a kernel block, by its size, and at no other
      step. */
  lemma StepDrift(s: State, a: Step)
    requires Enabled(s, a)
    ensures Drift(Next(s, a)) == Drift(s) + (if a.SplitHeld? then HeldKernel(s.held[a.i]) else 0)
  {
    if a.SplitHeld? {
      HeldSplit(s.held, a.i);
    } else {
      StepMoves(s, a);
      StepHeld(s, a);
      ChargeDeltas(s, a);
      SumUpdate(s.threads, a.t, Next(s, a).threads[a.t], ChargedKernel);
    }
  }

  /** A step keeps the use counters exact unless, and only unless, it splits a kernel
      block or frees a stray frame. */
  lemma StepExact(s: State, a: Step)
    requires Enabled(s, a) && UsedKept(s) && Exact(s)
    ensures Exact(Next(s, a)) <==> !(a.SplitHeld? && s.held[a.i].kernel) && !a.SubStray?
  {
    StepUsed(s, a);
    StrayGrows(s, a);
    StepDrift(s, a);
    ExactIsNoDrift(s);
    ExactIsNoDrift(Next(s, a));
  }

  lemma StrayGrows(s: State, a: Step)
    requires Enabled(s, a)
    ensures Next(s, a).stray == s.stray + if a.SubStray? then 1 else 0
  {
  }

  lemma {:induction false} SizesAddUp(hs: seq<Held>)
    ensures Sum(hs, HeldSize) == Sum(hs, HeldKernel) + Sum(hs, HeldPage)
  {
    if hs == [] {
    } else {
      SizesAddUp(hs[..|hs| - 1]);
    }
  }

  lemma {:induction false} ChargesAddUp(ts: seq<Thread>)
    ensures Sum(ts, NotTaken) == Sum(ts, ChargedKernel) + Sum(ts, ChargedPage)
  {
    if ts == [] {
    } else {
      ChargesAddUp(ts[..|ts| - 1]);
    }
  }

  lemma ChargeDeltas(s: State, a: Step)
    requires Enabled(s, a) && !a.SplitHeld?
    ensures var s', x, x' := Next(s, a), s.threads[a.t], Next(s, a).threads[a.t];
      && s'.kernelUsed - ChargedKernel(x') == s.kernelUsed - ChargedKernel(x) +
         (if a.AddAllocated? && x.kernel then x.count else if a.SubUsed? then -HeldKernel(s.held[a.i]) else 0)
      && s'.pageData - ChargedPage(x') == s.pageData - ChargedPage(x) +
         (if a.AddAllocated? && !x.kernel then x.count
          else if a.SubUsed? then -HeldPage(s.held[a.i])
          else if a.SubStray? then -1 else 0)
      && s'.stray == s.stray + (if a.SubStray? then 1 else 0)
  {
  }

  /** What a thread that has read `idle` saw was enough; nothing is below zero. */
  ghost predicate NoUnderflow(s: State) {
    && s.idle >= 0 && s.free >= 0
    && (forall t :: 0 <= t < |s.threads| ==> ThreadOk(s.threads[t]))
    && (forall i :: 0 <= i < |s.held| ==> s.held[i].size > 0)
  }

  predicate ThreadOk(th: Thread) {
    (th.Loaded? ==> th.seen >= th.count) && (!th.Outside? ==> th.count > 0)
  }

  lemma StepNoUnderflow(s: State, a: Step)
    requires Enabled(s, a) && NoUnderflow(s)
    ensures NoUnderflow(Next(s, a))
  {
    if !a.SplitHeld? {
      StepMoves(s, a);
      StepThreadOk(s, a);
    }
    HeldPositive(s, a);
  }

  lemma StepThreadOk(s: State, a: Step)
    requires Enabled(s, a) && NoUnderflow(s) && !a.SplitHeld?
    ensures ThreadOk(Next(s, a).threads[a.t]) && Next(s, a).idle >= 0 && Next(s, a).free >= 0
  {
    assert ThreadOk(s.threads[a.t]);
  }

  lemma HeldPositive(s: State, a: Step)
    requires Enabled(s, a) && NoUnderflow(s)
    ensures forall i :: 0 <= i < |Next(s, a).held| ==> Next(s, a).held[i].size > 0
  {
    if a.AddAllocated? { assert ThreadOk(s.threads[a.t]); }
  }

  /** A fetch_sub on a use counter finds at least the count there: the assertion of
      `free_frame` holds. */
  lemma SubtractionSafe(s: State, t: nat, i: nat)
    requires Enabled(s, SubUsed(t, i)) && Exact(s) && NoUnderflow(s)
    ensures var old_ := if s.held[i].kernel then s.kernelUsed else s.pageData; old_ >= s.held[i].size > 0
  {
    HeldRemoved(s.held, i);
    var rest := s.held[..i] + s.held[i + 1..];
    SumNonNegative(rest, HeldKernel);
    SumNonNegative(rest, HeldPage);
    SumNonNegative(s.threads, ChargedKernel);
    SumNonNegative(s.threads, ChargedPage);
  }

  /** `init`: everything idle, although the frame arrays have taken part of it. */
  ghost predicate Initial(s: State, usable: int) {
    && s.idle == s.total && s.total >= usable >= 0 && s.free == usable
    && s.kernelUsed == 0 && s.pageData == 0 && s.taken == 0 && s.freed == 0 && s.stray == 0
    && (forall t :: 0 <= t < |s.threads| ==> s.threads[t].Outside?) && s.held == []
  }

  /** The state after a run of steps, each enabled when its turn comes. */
  predicate Runs(s: State, steps: seq<Step>)
    decreases |steps|
  {
    steps != [] ==> Enabled(s, steps[0]) && Runs(Next(s, steps[0]), steps[1..])
  }

  function After(s: State, steps: seq<Step>): State
    requires Runs(s, steps)
    decreases |steps|
  {
    if steps == [] then s else After(Next(s, steps[0]), steps[1..])
  }

  /** No block with the KERNEL flag is split during the run. */
  predicate NoKernelSplit(s: State, steps: seq<Step>)
    requires Runs(s, steps)
    decreases |steps|
  {
    steps != [] ==>
      (steps[0].SplitHeld? ==> !s.held[steps[0].i].kernel) && NoKernelSplit(Next(s, steps[0]), steps[1..])
  }

  /** No stray frame is freed during the run. */
  predicate NoStray(steps: seq<Step>) { forall i :: 0 <= i < |steps| ==> !steps[i].SubStray? }

  /** Under any interleaving the balance holds and `idle` never goes below zero. */
  lemma {:induction false} RunKeeps(s: State, steps: seq<Step>, usable: int)
    requires Runs(s, steps) && Balanced(s, usable) && NoUnderflow(s)
    ensures Balanced(After(s, steps), usable) && NoUnderflow(After(s, steps)) && After(s, steps).total == s.total
    decreases |steps|
  {
    if steps == [] {
    } else {
      StepTotal(s, steps[0]);
      StepUsable(s, steps[0], usable);
      StepUsed(s, steps[0]);
      StepTallies(s, steps[0]);
      StepNoUnderflow(s, steps[0]);
      RunKeeps(Next(s, steps[0]), steps[1..], usable);
    }
  }

  lemma {:induction false} RunDrifts(s: State, steps: seq<Step>)
    requires Runs(s, steps)
    ensures Drift(After(s, steps)) >= Drift(s)
    ensures Drift(After(s, steps)) == Drift(s) <==> NoKernelSplit(s, steps)
    decreases |steps|
  {
    if steps == [] {
    } else {
      StepDrift(s, steps[0]);
      RunDrifts(Next(s, steps[0]), steps[1..]);
    }
  }

  lemma {:induction false} RunStrays(s: State, steps: seq<Step>)
    requires Runs(s, steps)
    ensures After(s, steps).stray >= s.stray
    ensures After(s, steps).stray == s.stray <==> NoStray(steps)
    decreases |steps|
  {
    if steps == [] {
    } else {
      StrayGrows(s, steps[0]);
      RunStrays(Next(s, steps[0]), steps[1..]);
      assert NoStray(steps) <==> !steps[0].SubStray? && NoStray(steps[1..]) by {
        assert forall i :: 0 < i < |steps| ==> steps[i] == steps[1..][i - 1];
        assert forall i :: 0 <= i < |steps[1..]| ==> steps[1..][i] == steps[i + 1];
      }
    }
  }

  /** The use counters are exact after a run exactly if it split no kernel block and freed
      no stray frame: nothing that happens later makes up for either. */
  lemma RunExact(s: State, steps: seq<Step>, usable: int)
    requires Runs(s, steps) && Balanced(s, usable) && NoUnderflow(s) && Exact(s)
    ensures Exact(After(s, steps)) <==> NoKernelSplit(s, steps) && NoStray(steps)
  {
    RunKeeps(s, steps, usable);
    RunDrifts(s, steps);
    RunStrays(s, steps);
    ExactIsNoDrift(s);
    ExactIsNoDrift(After(s, steps));
  }

  lemma InitialKeeps(s: State, usable: int)
    requires Initial(s, usable)
    ensures Balanced(s, usable) && Exact(s) && NoUnderflow(s)
  {
    SumZero(s.threads, InFlight);
    SumZero(s.threads, InHand);
    SumZero(s.threads, NotTaken);
    SumZero(s.threads, NotFreed);
    SumZero(s.threads, ChargedKernel);
    SumZero(s.threads, ChargedPage);
  }

  /** When every thread is outside, `idle` is the allocator's free frames plus what the
      frame arrays took, whatever was allocated, split and freed before, exactly if no stray
      frame was; each of those leaves `idle` one too high. */
  lemma QuiescentIdle(s: State, steps: seq<Step>, usable: int)
    requires Initial(s, usable) && Runs(s, steps)
    requires forall t :: 0 <= t < |After(s, steps).threads| ==> After(s, steps).threads[t].Outside?
    ensures After(s, steps).idle - After(s, steps).free == s.total - usable + After(s, steps).stray
    ensures After(s, steps).idle - After(s, steps).free == s.total - usable <==> NoStray(steps)
  {
    InitialKeeps(s, usable);
    RunKeeps(s, steps, usable);
    RunStrays(s, steps);
    var e := After(s, steps);
    SumZero(e.threads, InFlight);
    SumZero(e.threads, InHand);
    SumZero(e.threads, NotTaken);
  }

  /** A run that splits a kernel block and frees a child of it: the child is taken off
      the wrong counter, which goes below zero. */
  lemma KernelSplitUnderflows(s: State)
    requires Initial(s, 512) && |s.threads| > 0
    ensures exists steps :: Runs(s, steps) && After(s, steps).pageData == -1
  {
    var s1 := Next(s, LoadIdle(0, 1, true));
    var s2 := Next(s1, Exchange(0));
    var s3 := Next(s2, RawAlloc(0, true));
    assert s3.threads[0] == Obtained(512, true) && s3.held == [] && s3.pageData == 0;
    var steps := SplitAndFree(s3);
    steps := RunFirst(s2, RawAlloc(0, true), steps);
    steps := RunFirst(s1, Exchange(0), steps);
    steps := RunFirst(s, LoadIdle(0, 1, true), steps);
  }

  lemma SplitAndFree(s: State) returns (steps: seq<Step>)
    requires |s.threads| > 0 && s.threads[0] == Obtained(512, true) && s.held == [] && s.pageData == 0
    ensures Runs(s, steps) && After(s, steps).pageData == -1
  {
    var s1 := Next(s, AddUsed(0));
    var s2 := Next(s1, AddAllocated(0));
    assert s2.held == [Held(512, true)] && s2.pageData == 0 && s2.threads[0].Outside?;
    var s3 := Next(s2, SplitHeld(0));
    assert s3.held[0] == Held(1, false);
    steps := RunFirst(s3, SubUsed(0, 0), []);
    steps := RunFirst(s2, SplitHeld(0), steps);
    steps := RunFirst(s1, AddAllocated(0), steps);
    steps := RunFirst(s, AddUsed(0), steps);
  }

  /** A run that frees a stray frame and ends with every thread outside: `idle` is one too
      high. */
  lemma StrayRaisesIdle(s: State)
    requires Initial(s, 512) && |s.threads| > 0
    ensures exists steps :: Runs(s, steps) && RaisedIdle(s, After(s, steps), 512)
  {
    var s1 := Next(s, LoadIdle(0, 1, false));
    var s2 := Next(s1, Exchange(0));
    var s3 := Next(s2, RawAlloc(0, true));
    assert s3.threads == s.threads[0 := Obtained(512, false)] && s3.idle == s.idle - 512 && s3.free == 0;
    var steps := HoldAndFreeStray(s3);
    steps := RunFirst(s2, RawAlloc(0, true), steps);
    steps := RunFirst(s1, Exchange(0), steps);
    steps := RunFirst(s, LoadIdle(0, 1, false), steps);
  }

  lemma HoldAndFreeStray(s: State) returns (steps: seq<Step>)
    requires |s.threads| > 0 && s.threads[0] == Obtained(512, false) && s.pageData >= 0
    ensures Runs(s, steps)
    ensures var e := After(s, steps);
      e.threads == s.threads[0 := Outside] && e.idle == s.idle + 1 && e.free == s.free
  {
    var s1 := Next(s, AddUsed(0));
    var s2 := Next(s1, AddAllocated(0));
    assert s2.threads == s.threads[0 := Outside];
    steps := FreeStray(s2);
    steps := RunFirst(s1, AddAllocated(0), steps);
    steps := RunFirst(s, AddUsed(0), steps);
  }

  ghost predicate RaisedIdle(s: State, e: State, usable: int) {
    e.idle - e.free == s.total - usable + 1 && forall t :: 0 <= t < |e.threads| ==> e.threads[t].Outside?
  }

  lemma FreeStray(s: State) returns (steps: seq<Step>)
    requires |s.threads| > 0 && s.threads[0].Outside? && s.pageData > 0
    ensures Runs(s, steps)
    ensures var e := After(s, steps); e.threads == s.threads && e.idle == s.idle + 1 && e.free == s.free
  {
    var s1 := Next(s, SubStray(0));
    var s2 := Next(s1, AddIdle(0));
    var s3 := Next(s2, AddFreed(0));
    var s4 := Next(s3, RawFree(0));
    assert s4.threads == s.threads;
    steps := RunFirst(s3, RawFree(0), []);
    steps := RunFirst(s2, AddFreed(0), steps);
    steps := RunFirst(s1, AddIdle(0), steps);
    steps := RunFirst(s, SubStray(0), steps);
  }

  lemma RunFirst(s: State, a: Step, rest: seq<Step>) returns (steps: seq<Step>)
    requires Enabled(s, a) && Runs(Next(s, a), rest)
    ensures Runs(s, steps) && After(s, steps) == After(Next(s, a), rest)
  {
    steps := [a] + rest;
    assert steps[1..] == rest;
  }

  // One thread alone.

  /** The state with a block of `n` frames handed out. */
  function Granted(s: State, n: nat, kernel: bool): State {
    var s' := if kernel then s.(kernelUsed := s.kernelUsed + n) else s.(pageData := s.pageData + n);
    s'.(idle := s.idle - n, free := s.free - n, taken := s.taken + n, held := s.held + [Held(n, kernel)])
  }

  /** The state with block `i` taken back. */
  function Returned(s: State, i: nat): State
    requires i < |s.held|
  {
    var n := s.held[i].size;
    var s' := if s.held[i].kernel then s.(kernelUsed := s.kernelUsed - n) else s.(pageData := s.pageData - n);
    s'.(idle := s.idle + n, free := s.free + n, freed := s.freed + n, held := s.held[..i] + s.held[i + 1..])
  }

  /** `try_alloc_frame`, by a thread that nobody interferes with and that does not wait: a
      block, charged to the kernel exactly if that was asked for, unless too little is idle
      or the frame allocator refuses; then nothing has changed. */
  method TryAllocFrame(s: State, t: nat, level: nat, kernel: bool, granted: bool)
    returns (s': State, ok: bool, ghost steps: seq<Step>)
    requires t < |s.threads| && s.threads[t].Outside? && level < 3
    requires granted ==> s.free >= FrameAllocator.Size(level)
    ensures Runs(s, steps) && After(s, steps) == s'
    ensures ok <==> s.idle >= FrameAllocator.Size(level) && granted
    ensures s' == if ok then Granted(s, FrameAllocator.Size(level), kernel) else s
  {
    var n := FrameAllocator.Size(level);
    if s.idle < n {
      return s, false, [];
    }
    var s1 := Next(s, LoadIdle(t, level, kernel));
    var s2 := Next(s1, Exchange(t));
    if granted {
      s', steps := Obtain(s2, t, n, kernel);
    } else {
      s', steps := Refuse(s2, t, n, kernel);
    }
    ok := granted;
    steps := RunFirst(s1, Exchange(t), steps);
    steps := RunFirst(s, LoadIdle(t, level, kernel), steps);
  }

  method Obtain(s: State, t: nat, n: nat, kernel: bool) returns (s': State, ghost steps: seq<Step>)
    requires t < |s.threads| && s.threads[t] == Reserved(n, kernel) && s.free >= n
    ensures Runs(s, steps) && After(s, steps) == s'
    ensures s' == Granted(At(s, t, Outside).(idle := s.idle + n), n, kernel)
  {
    var s1 := Next(s, RawAlloc(t, true));
    s', steps := Charge(s1, t, n, kernel);
    steps := RunFirst(s, RawAlloc(t, true), steps);
  }

  method Charge(s: State, t: nat, n: nat, kernel: bool) returns (s': State, ghost steps: seq<Step>)
    requires t < |s.threads| && s.threads[t] == Obtained(n, kernel)
    ensures Runs(s, steps) && After(s, steps) == s'
    ensures s' == Granted(At(s, t, Outside).(idle := s.idle + n, free := s.free + n), n, kernel)
  {
    var s1 := Next(s, AddUsed(t));
    s' := Next(s1, AddAllocated(t));
    steps := RunFirst(s1, AddAllocated(t), []);
    steps := RunFirst(s, AddUsed(t), steps);
  }

  method Refuse(s: State, t: nat, n: nat, kernel: bool) returns (s': State, ghost steps: seq<Step>)
    requires t < |s.threads| && s.threads[t] == Reserved(n, kernel)
    ensures Runs(s, steps) && After(s, steps) == s'
    ensures s' == At(s, t, Outside).(idle := s.idle + n)
  {
    var s1 := Next(s, RawAlloc(t, false));
    s' := Next(s1, GiveBack(t));
    steps := RunFirst(s1, GiveBack(t), []);
    steps := RunFirst(s, RawAlloc(t, false), steps);
  }

  /** `free_frame` of a block that is held, by a thread that nobody interferes with. */
  method FreeFrame(s: State, t: nat, i: nat) returns (s': State, ghost steps: seq<Step>)
    requires t < |s.threads| && s.threads[t].Outside? && i < |s.held|
    ensures Runs(s, steps) && After(s, steps) == s'
    ensures s' == Returned(s, i)
  {
    var s1 := Next(s, SubUsed(t, i));
    s', steps := GiveFrames(s1, t, s.held[i].size);
    steps := RunFirst(s, SubUsed(t, i), steps);
  }

  method GiveFrames(s: State, t: nat, n: nat) returns (s': State, ghost steps: seq<Step>)
    requires t < |s.threads| && s.threads[t] == Uncharged(n, true)
    ensures Runs(s, steps) && After(s, steps) == s'
    ensures s' == At(s, t, Outside).(idle := s.idle + n, freed := s.freed + n, free := s.free + n)
  {
    var s1 := Next(s, AddIdle(t));
    var s2 := Next(s1, AddFreed(t));
    s' := Next(s2, RawFree(t));
    steps := RunFirst(s2, RawFree(t), []);
    steps := RunFirst(s1, AddFreed(t), steps);
    steps := RunFirst(s, AddIdle(t), steps);
  }

  /** Freeing what was allocated restores everything but the two tallies. */
  lemma FreeUndoesAlloc(s: State, n: nat, kernel: bool)
    ensures |Granted(s, n, kernel).held| == |s.held| + 1
    ensures Returned(Granted(s, n, kernel), |s.held|) == s.(taken := s.taken + n, freed := s.freed + n)
  {
    var s1 := Granted(s, n, kernel);
    assert s1.held[..|s.held|] + s1.held[|s.held| + 1..] == s.held;
  }
}
