/** The pager's table of requests in flight (src/kernel/src/pager/inflight.rs and the
    Request type of src/kernel/src/pager/request.rs).  The manager's lock makes each
    method atomic. */
module Inflight {
  import opened Options
  import opened Sums

  const NR_REQUESTS: nat := 256

  type ThreadId = nat

  datatype ReqKind =
    | Info(obj: nat)
    | PageData(obj: nat, start: nat, len: nat)
    | Sync(obj: nat)
    | SyncRegion(uniqueId: nat)
    | Del(obj: nat)
    | Create(obj: nat)
    | Pages(start: nat, end: nat)

  /** Kinds that compare as equal: page-data requests do if the second begins inside the
      first. */
  predicate Matches(a: ReqKind, b: ReqKind) {
    match (a, b)
    case (PageData(o, s, l), PageData(p, t, _)) => o == p && s <= t < s + l
    case _ => a == b
  }

  /** Two page-data requests ask for a page in common. */
  predicate Overlap(a: ReqKind, b: ReqKind) {
    a.PageData? && b.PageData? && a.obj == b.obj && a.start < b.start + b.len && b.start < a.start + a.len
  }

  /** Requests that overlap are to count as equal; they do exactly if the second does not
      begin before the first. */
  lemma OverlapMatchesIff(a: ReqKind, b: ReqKind)
    requires Overlap(a, b)
    ensures Matches(a, b) <==> a.start <= b.start
  {
  }

  /** A request for pages 5 to 7 is not joined to one in flight for pages 0 to 9. */
  lemma OverlapMissed()
    ensures Overlap(PageData(0, 5, 3), PageData(0, 0, 10)) && !Matches(PageData(0, 5, 3), PageData(0, 0, 10))
  {
  }

  datatype Request = Request(id: nat, kind: ReqKind, waiters: seq<ThreadId>, remaining: nat, done: bool)

  function PageCount(rk: ReqKind): nat { if rk.PageData? then rk.len else 0 }

  /** The pages still to come after `count` more came. */
  function StillToCome(remaining: nat, count: nat): nat { if remaining <= count then 0 else remaining - count }

  function AfterAll(remaining: nat, counts: seq<nat>): nat {
    if counts == [] then remaining else StillToCome(AfterAll(remaining, counts[..|counts| - 1]), counts[|counts| - 1])
  }

  function Count(c: nat): int { c }

  /** A request for `len` pages has none still to come exactly when that many have come,
      in however many parts. */
  lemma {:induction false} NoneLeftIff(len: nat, counts: seq<nat>)
    ensures AfterAll(len, counts) == 0 <==> Sum(counts, Count) >= len
    ensures AfterAll(len, counts) > 0 ==> AfterAll(len, counts) == len - Sum(counts, Count)
  {
    if counts == [] {
    } else {
      NoneLeftIff(len, counts[..|counts| - 1]);
    }
  }

  type Slots = seq<Option<Request>>

  /** Bitmap, slots and request map agree about slot `i`; a request that is done has no
      waiters. */
  ghost predicate SlotOk(requests: Slots, avail: seq<bool>, reqMap: set<nat>, i: nat) {
    i < |requests| && i < |avail| ==>
      && (avail[i] <==> requests[i].None?)
      && (i in reqMap <==> requests[i].Some?)
      && (requests[i].Some? ==>
          requests[i].value.id == i && (requests[i].value.done ==> requests[i].value.waiters == []))
  }

  ghost predicate TableOk(requests: Slots, avail: seq<bool>, reqMap: set<nat>) {
    && |requests| == NR_REQUESTS && |avail| == NR_REQUESTS && (forall i :: i in reqMap ==> i < NR_REQUESTS)
    && (forall i: nat {:trigger SlotOk(requests, avail, reqMap, i)} :: SlotOk(requests, avail, reqMap, i))
  }

  /** Thread `w` waits for the request in slot `i`. */
  predicate WaitsAt(requests: Slots, i: nat, w: ThreadId) {
    i < |requests| && requests[i].Some? && w in requests[i].value.waiters
  }

  /** Thread `w` is on the waiter list of slot `i` exactly if it sleeps there. */
  ghost predicate WaiterOk(requests: Slots, asleep: map<ThreadId, nat>, i: nat, w: ThreadId) {
    WaitsAt(requests, i, w) <==> w in asleep && asleep[w] == i
  }

  ghost predicate WaitersOk(requests: Slots, asleep: map<ThreadId, nat>) {
    forall i: nat, w: ThreadId {:trigger WaiterOk(requests, asleep, i, w)} :: WaiterOk(requests, asleep, i, w)
  }

  lemma SleepersAt(requests: Slots, asleep: map<ThreadId, nat>, i: nat)
    requires WaitersOk(requests, asleep) && i < |requests|
    ensures requests[i].None? ==> forall w :: w in asleep ==> asleep[w] != i
    ensures requests[i].Some? ==> forall w :: w in requests[i].value.waiters <==> w in asleep && asleep[w] == i
  {
    forall w: ThreadId ensures WaitsAt(requests, i, w) <==> w in asleep && asleep[w] == i {
      assert WaiterOk(requests, asleep, i, w);
    }
  }

  /** Changing one slot, with its bit, its map entry and its sleepers. */
  lemma SlotChange(requests: Slots, avail: seq<bool>, reqMap: set<nat>, asleep: map<ThreadId, nat>,
                   i: nat, r: Option<Request>, reqMap': set<nat>, asleep': map<ThreadId, nat>)
    requires TableOk(requests, avail, reqMap) && WaitersOk(requests, asleep) && i < NR_REQUESTS
    requires r.Some? ==> r.value.id == i && (r.value.done ==> r.value.waiters == [])
    requires reqMap' == if r.Some? then reqMap + {i} else reqMap - {i}
    requires forall w :: w in asleep' <==> (w in asleep && asleep[w] != i) || (r.Some? && w in r.value.waiters)
    requires forall w :: w in asleep' ==> asleep'[w] == if r.Some? && w in r.value.waiters then i else asleep[w]
    requires r.Some? ==> forall w :: w in r.value.waiters && w in asleep ==> asleep[w] == i
    ensures TableOk(requests[i := r], avail[i := r.None?], reqMap') && WaitersOk(requests[i := r], asleep')
  {
    var requests', avail' := requests[i := r], avail[i := r.None?];
    forall j: nat ensures SlotOk(requests', avail', reqMap', j) { assert SlotOk(requests, avail, reqMap, j); }
    forall j: nat, w: ThreadId ensures WaiterOk(requests', asleep', j, w) { assert WaiterOk(requests, asleep, j, w); }
  }

  /** The sleepers that remain when those of slot `i` are woken. */
  ghost function Woken(asleep: map<ThreadId, nat>, i: nat): map<ThreadId, nat> {
    map w | w in asleep && asleep[w] != i :: asleep[w]
  }

  class InflightManager {
    var requests: seq<Option<Request>>
    var avail: seq<bool>
    var reqMap: set<nat>                    // slots whose request is linked into the map
    ghost var asleep: map<ThreadId, nat>    // threads put to sleep and not woken, with their slot

    ghost predicate Valid()
      reads this
    {
      TableOk(requests, avail, reqMap) && WaitersOk(requests, asleep)
    }

    /** What `find` may answer: a matching entry of the map, or none, since the order of
        the map is no total order on overlapping requests. */
    ghost predicate MayFind(rk: ReqKind, hit: Option<nat>)
      reads this
    {
      hit.Some? ==> hit.value in reqMap && hit.value < |requests| && requests[hit.value].Some? &&
                    Matches(rk, requests[hit.value].value.kind)
    }

    constructor ()
      ensures Valid() && asleep == map[] && reqMap == {}
    {
      requests := seq(NR_REQUESTS, _ => None);
      avail := seq(NR_REQUESTS, _ => true);
      reqMap, asleep := {}, map[];
    }

    /** `add_request`: join the request found, or take the lowest free slot; fails exactly
        if nothing is found and every slot is taken. */
    method AddRequest(rk: ReqKind, hit: Option<nat>) returns (id: Option<nat>, needsSend: bool)
      requires Valid() && MayFind(rk, hit)
      modifies this
      ensures Valid() && asleep == old(asleep)
      ensures hit.Some? ==>
        id == hit && !needsSend && requests == old(requests) && avail == old(avail) && reqMap == old(reqMap)
      ensures hit.Some? && rk.PageData? ==>
        var kind := requests[hit.value].value.kind;
        kind.PageData? && kind.obj == rk.obj && rk.start <= kind.start < rk.start + rk.len
      ensures hit.Some? && !rk.PageData? ==> requests[hit.value].value.kind == rk
      ensures hit.None? ==> (id.None? <==> forall i :: 0 <= i < NR_REQUESTS ==> old(requests)[i].Some?)
      ensures id.None? ==> !needsSend && requests == old(requests) && avail == old(avail) && reqMap == old(reqMap)
      ensures hit.None? && id.Some? ==>
        && needsSend && id.value < NR_REQUESTS && old(requests)[id.value].None?
        && (forall i :: 0 <= i < id.value ==> old(requests)[i].Some?)
        && requests == old(requests)[id.value := Some(Request(id.value, rk, [], PageCount(rk), false))]
        && requests[id.value].value.remaining == (if rk.PageData? then rk.len else 0)
    {
      if hit.Some? {
        return hit, false;
      }
      var b := 0;
      while b < NR_REQUESTS && !avail[b]
        invariant b <= NR_REQUESTS && forall i :: 0 <= i < b ==> !avail[i]
        modifies {}
      {
        b := b + 1;
      }
      forall i | 0 <= i < NR_REQUESTS
        ensures avail[i] <==> requests[i].None?
      {
        assert SlotOk(requests, avail, reqMap, i);
      }
      if b == NR_REQUESTS {
        return None, false;
      }
      assert requests[b].None?;
      var request := Request(b, rk, [], PageCount(rk), false);
      SleepersAt(requests, asleep, b);
      SlotChange(requests, avail, reqMap, asleep, b, Some(request), reqMap + {b}, asleep);
      avail := avail[b := false];
      requests := requests[b := Some(request)];
      reqMap := reqMap + {b};
      return Some(b), true;
    }

    /** `mark_done` and `signal` on the request in slot `i`: every thread that waits for it
        is woken. */
    method MarkDoneAndSignal(i: nat)
      requires Valid() && i < NR_REQUESTS && requests[i].Some?
      modifies this`requests, this`asleep
      ensures Valid() && avail == old(avail) && reqMap == old(reqMap)
      ensures requests == old(requests)[i := Some(old(requests)[i].value.(done := true, waiters := []))]
      ensures asleep == Woken(old(asleep), i)
    {
      assert SlotOk(requests, avail, reqMap, i);
      var request := requests[i].value.(done := true, waiters := []);
      SlotChange(requests, avail, reqMap, asleep, i, Some(request), reqMap, Woken(asleep, i));
      assert avail[i := false] == avail;
      requests := requests[i := Some(request)];
      asleep := Woken(asleep, i);
    }

    /** `remove_request`: the request found is finished, its waiters are woken, and its slot
        is free again. */
    method RemoveRequest(rk: ReqKind, hit: Option<nat>)
      requires Valid() && MayFind(rk, hit)
      modifies this
      ensures Valid()
      ensures hit.None? ==> requests == old(requests) && asleep == old(asleep)
      ensures hit.Some? ==>
        && requests == old(requests)[hit.value := None]
        && asleep == Woken(old(asleep), hit.value)
    {
      if hit.Some? {
        var i := hit.value;
        SlotChange(requests, avail, reqMap, asleep, i, None, reqMap - {i}, Woken(asleep, i));
        reqMap := reqMap - {i};
        requests := requests[i := Some(requests[i].value.(done := true, waiters := []))];
        asleep := Woken(asleep, i);
        avail := avail[i := true];
        requests := requests[i := None];
        assert requests == old(requests)[i := None];
      }
    }

    /** `request_ready`. */
    method RequestReady(rk: ReqKind, hit: Option<nat>)
      requires Valid() && MayFind(rk, hit)
      modifies this`requests, this`asleep
      ensures Valid()
      ensures hit.None? ==> requests == old(requests) && asleep == old(asleep)
      ensures hit.Some? ==> asleep == Woken(old(asleep), hit.value)
      ensures hit.Some? ==>
        requests == old(requests)[hit.value := Some(old(requests)[hit.value].value.(done := true, waiters := []))]
    {
      if hit.Some? {
        MarkDoneAndSignal(hit.value);
      }
    }

    /** `setup_wait` for an id that may be stale: the thread goes to sleep exactly if the
        slot holds a request that is not done. */
    method SetupWait(id: nat, thread: ThreadId) returns (sleeps: bool)
      requires Valid() && thread !in asleep
      modifies this`requests, this`asleep
      ensures Valid()
      ensures sleeps <==> id < NR_REQUESTS && old(requests)[id].Some? && !old(requests)[id].value.done
      ensures !sleeps ==> requests == old(requests) && asleep == old(asleep)
      ensures sleeps ==> asleep == old(asleep)[thread := id]
      ensures sleeps ==>
        var request := old(requests)[id].value;
        requests == old(requests)[id := Some(request.(waiters := request.waiters + [thread]))]
    {
      if id >= NR_REQUESTS || requests[id].None? || requests[id].value.done {
        return false;
      }
      assert SlotOk(requests, avail, reqMap, id);
      var request := requests[id].value.(waiters := requests[id].value.waiters + [thread]);
      SleepersAt(requests, asleep, id);
      SlotChange(requests, avail, reqMap, asleep, id, Some(request), reqMap, asleep[thread := id]);
      assert avail[id := false] == avail;
      requests := requests[id := Some(request)];
      asleep := asleep[thread := id];
      return true;
    }

    /** `finished_pages`: the request counts as finished when what remains does not exceed
        what has come. */
    method FinishedPages(i: nat, count: nat) returns (finished: bool)
      requires Valid() && i < NR_REQUESTS && requests[i].Some?
      modifies this`requests
      ensures Valid()
      ensures finished <==> StillToCome(old(requests)[i].value.remaining, count) == 0
      ensures requests == old(requests)[i := Some(old(requests)[i].value.(
        remaining := StillToCome(old(requests)[i].value.remaining, count)))]
    {
      assert SlotOk(requests, avail, reqMap, i);
      var current := requests[i].value.remaining;
      var left := if current < count then 0 else current - count;
      SleepersAt(requests, asleep, i);
      SlotChange(requests, avail, reqMap, asleep, i, Some(requests[i].value.(remaining := left)), reqMap, asleep);
      assert avail[i := false] == avail;
      if current < count {
        requests := requests[i := Some(requests[i].value.(remaining := 0))];
        return true;
      }
      requests := requests[i := Some(requests[i].value.(remaining := current - count))];
      return current - count == 0;
    }

    /** No thread is left behind: whoever is asleep waits for a request that is in the table,
        is not done, and whose slot is marked as taken. */
    lemma NobodyStranded(w: ThreadId)
      requires Valid() && w in asleep
      ensures var i := asleep[w];
        && i < NR_REQUESTS && requests[i].Some? && !requests[i].value.done && w in requests[i].value.waiters
        && !avail[i] && i in reqMap
    {
      assert WaiterOk(requests, asleep, asleep[w], w) && SlotOk(requests, avail, reqMap, asleep[w]);
    }
  }
}
