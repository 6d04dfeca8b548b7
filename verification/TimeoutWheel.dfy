/** The timeout wheel (src/kernel/src/clock.rs): 1024 windows, a hard clock, a soft
    clock that lags behind it, and cancel keys that are used again. */
module TimeoutWheel {
  import opened Options

  const NR_WINDOWS: nat := 1024
  const NR_WINDOW_ENTRIES: nat := 32

  datatype Entry = Entry(expire: nat, key: nat)

  function TicksToNano(ticks: nat): nat { ticks * 1000000 }

  /** Whole ticks, rounded down. */
  function NanoToTicks(time: nat): (ticks: nat)
    ensures TicksToNano(ticks) <= time < TicksToNano(ticks + 1)
  {
    time / 1000000
  }

  lemma TicksRoundTrip(ticks: nat)
    ensures NanoToTicks(TicksToNano(ticks)) == ticks
  {
  }

  // Windows.

  ghost predicate DistinctKeys(s: seq<Entry>) {
    forall i, j :: 0 <= i < j < |s| ==> s[i].key != s[j].key
  }

  /** The first entry with a key, as `iter().position(..)` finds it. */
  function PositionOfKey(s: seq<Entry>, key: nat): (r: Option<nat>)
    ensures r.Some? ==> r.value < |s| && s[r.value].key == key && forall j :: 0 <= j < r.value ==> s[j].key != key
    ensures r.None? ==> forall e :: e in s ==> e.key != key
  {
    if s == [] then None
    else if s[0].key == key then Some(0)
    else match PositionOfKey(s[1..], key) case None => None case Some(i) => Some(i + 1)
  }

  /** The first entry that is ready at time `now`. */
  function PositionReady(s: seq<Entry>, now: nat): (r: Option<nat>)
    ensures r.Some? ==> r.value < |s| && now >= s[r.value].expire && forall j :: 0 <= j < r.value ==> now < s[j].expire
    ensures r.None? ==> forall e :: e in s ==> now < e.expire
  {
    if s == [] then None
    else if now >= s[0].expire then Some(0)
    else match PositionReady(s[1..], now) case None => None case Some(i) => Some(i + 1)
  }

  /** `swap_remove`: the last element takes the place of the removed one. */
  function SwapRemove(s: seq<Entry>, i: nat): (r: seq<Entry>)
    requires i < |s|
    ensures |r| == |s| - 1
  {
    s[i := s[|s| - 1]][..|s| - 1]
  }

  lemma SwapRemoveSet(s: seq<Entry>, i: nat)
    requires i < |s| && DistinctKeys(s)
    ensures DistinctKeys(SwapRemove(s, i))
    ensures forall e :: e in SwapRemove(s, i) <==> e in s && e != s[i]
  {
    var r := SwapRemove(s, i);
    forall e ensures e in r <==> e in s && e != s[i] {
      if e in s && e != s[i] {
        var j :| 0 <= j < |s| && s[j] == e;
        if j == |s| - 1 { assert r[i] == e; } else { assert r[j] == e; }
      }
    }
  }

  // Keys.

  /** Keys handed out (`live`) and keys to be used again are disjoint and lie between 1
      and the highest key; none waits twice. */
  ghost predicate KeysOk(keys: seq<nat>, nextKey: nat, live: set<nat>) {
    && (forall i, j :: 0 <= i < j < |keys| ==> keys[i] != keys[j])
    && (forall k :: k in keys ==> 1 <= k <= nextKey && k !in live)
    && (forall k :: k in live ==> 1 <= k <= nextKey)
  }

  lemma PopKey(keys: seq<nat>, nextKey: nat, live: set<nat>)
    requires KeysOk(keys, nextKey, live) && |keys| > 0
    ensures var k := keys[|keys| - 1]; k !in live && KeysOk(keys[..|keys| - 1], nextKey, live + {k})
  {
    var k, rest := keys[|keys| - 1], keys[..|keys| - 1];
    assert k in keys;
    forall x | x in rest ensures 1 <= x <= nextKey && x !in live + {k} {
      assert x in keys;
      var i :| 0 <= i < |rest| && rest[i] == x;
      assert keys[i] == x;
    }
  }

  /** What a window holds: at most 32 entries, with different keys; each belongs here,
      is not behind the soft clock, and carries a live key issued for this window. */
  ghost predicate WindowOk(s: seq<Entry>, w: nat, soft: nat, live: map<nat, nat>) {
    && |s| <= NR_WINDOW_ENTRIES && DistinctKeys(s)
    && (forall e :: e in s ==> e.expire % NR_WINDOWS == w && e.expire >= soft && e.key in live && live[e.key] == w)
  }

  ghost predicate WheelOk(queues: seq<seq<Entry>>, soft: nat, live: map<nat, nat>) {
    && |queues| == NR_WINDOWS
    && (forall w: nat {:trigger queues[w]} :: w < NR_WINDOWS ==> WindowOk(queues[w], w, soft, live))
  }

  /** The abstract timeout queue: a set of entries. */
  ghost predicate Pending(queues: seq<seq<Entry>>, e: Entry)
    requires |queues| == NR_WINDOWS
  {
    e in queues[e.expire % NR_WINDOWS]
  }

  /** No pending entry is due before time `t`. */
  ghost predicate NoneBefore(queues: seq<seq<Entry>>, t: nat)
    requires |queues| == NR_WINDOWS
  {
    forall e: Entry {:trigger Pending(queues, e)} :: Pending(queues, e) ==> e.expire >= t
  }

  lemma InsertOk(queues: seq<seq<Entry>>, soft: nat, live: map<nat, nat>, e: Entry, now: nat)
    requires WheelOk(queues, soft, live) && e.expire >= now >= soft && e.key !in live
    ensures var w := e.expire % NR_WINDOWS;
      && WheelOk(queues, soft, live[e.key := w])
      && (|queues[w]| < NR_WINDOW_ENTRIES ==> WheelOk(queues[w := queues[w] + [e]], soft, live[e.key := w]))
      && (forall x :: Pending(queues[w := queues[w] + [e]], x) <==> Pending(queues, x) || x == e)
      && (NoneBefore(queues, now) ==> NoneBefore(queues[w := queues[w] + [e]], now))
  {
    var w := e.expire % NR_WINDOWS;
    var queues', live' := queues[w := queues[w] + [e]], live[e.key := w];
    forall x ensures Pending(queues', x) <==> Pending(queues, x) || x == e {
      if x.expire % NR_WINDOWS == w { assert queues'[w] == queues[w] + [e]; }
    }
    forall v: nat | v < NR_WINDOWS
      ensures WindowOk(queues[v], v, soft, live')
      ensures |queues[w]| < NR_WINDOW_ENTRIES ==> WindowOk(queues'[v], v, soft, live')
    {
      assert WindowOk(queues[v], v, soft, live);
    }
  }

  /** Taking the entries with one key out of its window and giving up the key. */
  lemma RemoveOk(queues: seq<seq<Entry>>, soft: nat, live: map<nat, nat>, key: nat, s: seq<Entry>)
    requires WheelOk(queues, soft, live) && key in live && live[key] < NR_WINDOWS
    requires DistinctKeys(s) && |s| <= |queues[live[key]]|
    requires forall e :: e in s <==> e in queues[live[key]] && e.key != key
    ensures WheelOk(queues[live[key] := s], soft, live - {key})
    ensures forall e :: Pending(queues[live[key] := s], e) <==> Pending(queues, e) && e.key != key
    ensures forall e :: Pending(queues, e) && e.key == key ==> e in queues[live[key]]
  {
    var w := live[key];
    var queues', live' := queues[w := s], live - {key};
    forall v: nat | v < NR_WINDOWS ensures WindowOk(queues'[v], v, soft, live') {
      assert WindowOk(queues[v], v, soft, live);
    }
    forall e ensures Pending(queues', e) <==> Pending(queues, e) && e.key != key {
      assert WindowOk(queues[e.expire % NR_WINDOWS], e.expire % NR_WINDOWS, soft, live);
    }
  }

  /** The loop of `remove`: every entry with the key is swapped out. */
  method WithoutKey(q: seq<Entry>, key: nat) returns (s: seq<Entry>)
    requires DistinctKeys(q)
    ensures DistinctKeys(s) && |s| <= |q|
    ensures forall e :: e in s <==> e in q && e.key != key
    ensures |s| != |q| <==> exists e :: e in q && e.key == key
  {
    s := q;
    var pos := PositionOfKey(s, key);
    while pos.Some?
      invariant DistinctKeys(s) && |s| <= |q|
      invariant pos == PositionOfKey(s, key)
      invariant forall e :: e in s ==> e in q
      invariant forall e :: e in q && e.key != key ==> e in s
      invariant |s| == |q| <==> s == q
      invariant s == q || exists e :: e in q && e.key == key
      decreases |s|
    {
      SwapRemoveSet(s, pos.value);
      s := SwapRemove(s, pos.value);
      pos := PositionOfKey(s, key);
    }
  }

  class TimeoutQueue {
    var queues: seq<seq<Entry>>
    var current: nat
    var softCurrent: nat
    var keys: seq<nat>
    var nextKey: nat
    var waiting: bool              // the timeout thread waits and has not been signalled
    ghost var live: map<nat, nat>  // keys handed out and not released, with their window

    /** The invariant of every run.  While the timeout thread waits unsignalled no pending
        entry is overdue. */
    ghost predicate Valid()
      reads this
    {
      && WheelOk(queues, softCurrent, live) && softCurrent <= current
      && KeysOk(keys, nextKey, live.Keys)
      && (waiting ==> NoneBefore(queues, current))
    }

    constructor ()
      ensures Valid() && live == map[] && current == softCurrent == 0 && !waiting && forall e :: !Pending(queues, e)
    {
      queues := seq(NR_WINDOWS, _ => []);
      current, softCurrent, keys, nextKey, waiting := 0, 0, [], 0, false;
      live := map[];
    }

    method NextKey() returns (k: nat)
      requires KeysOk(keys, nextKey, live.Keys)
      modifies this`keys, this`nextKey
      ensures k !in live && KeysOk(keys, nextKey, live.Keys + {k})
      ensures if old(keys) == [] then keys == [] && k == nextKey == old(nextKey) + 1
              else old(keys) == keys + [k] && nextKey == old(nextKey)
    {
      if |keys| > 0 {
        k := keys[|keys| - 1];
        PopKey(keys, nextKey, live.Keys);
        keys := keys[..|keys| - 1];
      } else {
        nextKey := nextKey + 1;
        k := nextKey;
      }
    }

    /** `release_key`: the highest key makes room by counting down, others wait to be used
        again, or are lost when there is no room for them. */
    method ReleaseKey(k: nat)
      requires k in live && KeysOk(keys, nextKey, live.Keys)
      modifies this`keys, this`nextKey
      ensures KeysOk(keys, nextKey, live.Keys - {k})
      ensures nextKey == if k == old(nextKey) then old(nextKey) - 1 else old(nextKey)
      ensures keys ==
        if k != old(nextKey) && |old(keys)| < NR_WINDOW_ENTRIES * NR_WINDOWS then old(keys) + [k] else old(keys)
    {
      if k == nextKey {
        nextKey := nextKey - 1;
      } else if |keys| < NR_WINDOW_ENTRIES * NR_WINDOWS {
        keys := keys + [k];
      }
    }

    /** `insert`.  The new entry becomes pending, unless its window is full: then it is
        called at once. */
    method Insert(time: nat) returns (key: nat, window: nat, called: bool)
      requires Valid()
      modifies this
      ensures Valid() && current == old(current) && waiting == old(waiting)
      ensures var expire := current + NanoToTicks(time);
        && window == expire % NR_WINDOWS && key !in old(live) && live == old(live)[key := window]
        && (called <==> |old(queues)[window]| == NR_WINDOW_ENTRIES)
        && (forall e :: Pending(queues, e) <==> Pending(old(queues), e) || (!called && e == Entry(expire, key)))
    {
      var expire := current + NanoToTicks(time);
      window := expire % NR_WINDOWS;
      key := NextKey();
      InsertOk(queues, softCurrent, live, Entry(expire, key), current);
      live := live[key := window];
      assert live.Keys == old(live).Keys + {key};
      called := |queues[window]| >= NR_WINDOW_ENTRIES;
      assert WindowOk(queues[window], window, softCurrent, old(live));
      if !called {
        queues := queues[window := queues[window] + [Entry(expire, key)]];
      }
    }

    /** `remove`, for a key that was issued and is released now: it cancels the timeout it
        was issued for and no other, and says whether that was still pending. */
    method Remove(key: nat, window: nat) returns (removed: bool)
      requires Valid() && key in live && live[key] == window && window < NR_WINDOWS
      modifies this
      ensures Valid() && current == old(current) && live == old(live) - {key}
      ensures forall e :: Pending(queues, e) <==> Pending(old(queues), e) && e.key != key
      ensures removed <==> exists e :: Pending(old(queues), e) && e.key == key
    {
      assert WindowOk(queues[window], window, softCurrent, live);
      var oldLen := |queues[window]|;
      var s := WithoutKey(queues[window], key);
      RemoveOk(queues, softCurrent, live, key, s);
      ReleaseKey(key);
      removed := oldLen != |s|;
      assert live.Keys - {key} == (live - {key}).Keys;
      live := live - {key};
      queues := queues[window := s];
    }

    /** `hard_advance`: the clock moves on, and the timeout thread is signalled if any of
        the windows passed has an entry. */
    method HardAdvance(ticks: nat)
      requires Valid()
      modifies this`current, this`waiting
      ensures Valid() && current == old(current) + ticks
      ensures old(waiting) && (exists e :: Pending(queues, e) && e.expire <= current) ==> !waiting
      ensures old(waiting) && waiting ==> NoneBefore(queues, current + 1)
      ensures waiting <==> old(waiting) && forall t :: old(current) <= t <= current ==> WindowEmpty(queues, t)
    {
      var wakeup := false;
      var i := 0;
      while i < ticks + 1 && !wakeup
        invariant i <= ticks + 1
        invariant !wakeup ==> forall t :: current <= t < current + i ==> WindowEmpty(queues, t)
        invariant wakeup ==> exists t :: current <= t <= current + ticks && !WindowEmpty(queues, t)
        modifies {}
      {
        var window := (current + i) % NR_WINDOWS;
        if queues[window] != [] {
          assert !WindowEmpty(queues, current + i);
          wakeup := true;
        }
        i := i + 1;
      }
      if waiting && !wakeup { EmptyWindows(queues, current, ticks); }
      current := current + ticks;
      if wakeup {
        waiting := false;
      }
    }

    /** `check_window`: take out an entry that is ready by the hard clock, if there is one. */
    method CheckWindow(window: nat) returns (t: Option<Entry>)
      requires Valid() && window < NR_WINDOWS && !waiting
      modifies this`queues
      ensures Valid()
      ensures t.None? ==> queues == old(queues) && forall e :: e in queues[window] ==> e.expire > current
      ensures t.Some? ==> Taken(queues, old(queues), t.value) && t.value.expire <= current
    {
      var index := PositionReady(queues[window], current);
      match index
      case None => t := None;
      case Some(i) =>
        TakeOk(queues, softCurrent, live, window, i);
        t := Some(queues[window][i]);
        queues := queues[window := SwapRemove(queues[window], i)];
    }

    /** `soft_advance`: never an entry before its time; and when there is none to give, no
        pending entry is due and the soft clock has caught up. */
    method SoftAdvance() returns (t: Option<Entry>)
      requires Valid() && !waiting
      modifies this`queues, this`softCurrent
      ensures Valid()
      ensures t.Some? ==> Taken(queues, old(queues), t.value) && t.value.expire <= current
      ensures t.None? ==> queues == old(queues) && softCurrent == current && NoneBefore(queues, current + 1)
      ensures old(softCurrent) <= softCurrent
    {
      while softCurrent < current
        invariant Valid() && queues == old(queues) && old(softCurrent) <= softCurrent
        decreases current - softCurrent
      {
        var window := softCurrent % NR_WINDOWS;
        t := CheckWindow(window);
        if t.Some? {
          return;
        }
        PassWindow(queues, softCurrent, live, current);
        softCurrent := softCurrent + 1;
      }
      var window := softCurrent % NR_WINDOWS;
      t := CheckWindow(window);
      if t.None? { PassWindow(queues, softCurrent, live, current); }
    }

    /** One turn of `soft_timeout_clock`: call an entry that is due, or wait. */
    method ClockTurn() returns (t: Option<Entry>)
      requires Valid() && !waiting
      modifies this
      ensures Valid() && current == old(current) && live == old(live)
      ensures t.Some? ==> Taken(queues, old(queues), t.value) && t.value.expire <= current && !waiting
      ensures t.None? ==> waiting && queues == old(queues) && NoneBefore(queues, current + 1)
    {
      t := SoftAdvance();
      if t.None? {
        waiting := true;
      }
    }
  }

  /** Exactly entry `t` is no longer pending. */
  ghost predicate Taken(queues': seq<seq<Entry>>, queues: seq<seq<Entry>>, t: Entry)
    requires |queues| == NR_WINDOWS && |queues'| == NR_WINDOWS
  {
    Pending(queues, t) && forall e :: Pending(queues', e) <==> Pending(queues, e) && e != t
  }

  lemma TakeOk(queues: seq<seq<Entry>>, soft: nat, live: map<nat, nat>, w: nat, i: nat)
    requires WheelOk(queues, soft, live) && w < NR_WINDOWS && i < |queues[w]|
    ensures var queues' := queues[w := SwapRemove(queues[w], i)];
      WheelOk(queues', soft, live) && Taken(queues', queues, queues[w][i])
  {
    SwapRemoveSet(queues[w], i);
    assert WindowOk(queues[w], w, soft, live);
    var queues' := queues[w := SwapRemove(queues[w], i)];
    forall v: nat | v < NR_WINDOWS ensures WindowOk(queues'[v], v, soft, live) {
      assert WindowOk(queues[v], v, soft, live);
    }
  }

  /** A window without a ready entry lets the soft clock pass: an entry that expired at
      this very tick would be in this window. */
  lemma PassWindow(queues: seq<seq<Entry>>, soft: nat, live: map<nat, nat>, now: nat)
    requires WheelOk(queues, soft, live) && soft <= now
    requires forall e :: e in queues[soft % NR_WINDOWS] ==> e.expire > now
    ensures WheelOk(queues, soft + 1, live) && NoneBefore(queues, soft + 1)
  {
    forall w: nat | w < NR_WINDOWS ensures WindowOk(queues[w], w, soft + 1, live) {
      assert WindowOk(queues[w], w, soft, live);
    }
    forall e: Entry | Pending(queues, e) ensures e.expire >= soft + 1 {
      assert WindowOk(queues[e.expire % NR_WINDOWS], e.expire % NR_WINDOWS, soft + 1, live);
    }
  }

  predicate WindowEmpty(queues: seq<seq<Entry>>, tick: nat)
    requires |queues| == NR_WINDOWS
  {
    queues[tick % NR_WINDOWS] == []
  }

  /** If none of the windows that the clock passes has an entry, nothing pending expires
      until then; however often the clock goes round. */
  lemma EmptyWindows(queues: seq<seq<Entry>>, current: nat, ticks: nat)
    requires |queues| == NR_WINDOWS && NoneBefore(queues, current)
    requires forall t :: current <= t < current + ticks + 1 ==> WindowEmpty(queues, t)
    ensures NoneBefore(queues, current + ticks + 1)
  {
    forall e: Entry | Pending(queues, e) ensures e.expire >= current + ticks + 1 {
      assert !WindowEmpty(queues, e.expire);
    }
  }
}
