/** The last partial page of a copy (src/kernel/src/obj/copy.rs): sharing the whole pages
    before it cuts up the destination's ranges, and a place that a page could be added to
    before may be one that it cannot be added to after. */
module LastPage {
  import opened PageRanges
  import opened ObjectStore
  import opened RangeSharing
  import opened ObjectMemory
  import opened ObjectCopy

  /** The range at page `q` of `dest` once pages [dp, last) have been shared from page `sp`
      of `src` on: on the source's backing where a source range covers the page, else what
      is left of the old range, which from `last` on is all that lay there. */
  ghost predicate RangeCopied(st': Store, st: Store, dest: ObjId, dp: nat, src: ObjId, sp: nat, last: nat, q: nat) {
    if dp <= q < last && Covered(st, src, sp + (q - dp)) then
      Covered(st', dest, q) && st'.trees[dest][q].backing == st.trees[src][sp + (q - dp)].backing
    else
      && (Covered(st', dest, q) <==> Covered(st, dest, q))
      && (Covered(st, dest, q) ==>
            && IsPiece(st'.trees[dest][q], st.trees[dest][q])
            && (q >= last ==> st'.trees[dest][q].End() == st.trees[dest][q].End()))
  }

  ghost predicate RangesCopied(st': Store, st: Store, dest: ObjId, dp: nat, src: ObjId, sp: nat, last: nat) {
    forall q: nat {:trigger RangeCopied(st', st, dest, dp, src, sp, last, q)} ::
      RangeCopied(st', st, dest, dp, src, sp, last, q)
  }

  /** Page `x` of `dest`, before `last`, loses its backing to the copy: a first partial page
      because its range is shared, a whole page because a source range takes its place. */
  predicate Leaves(st: Store, dest: ObjId, dp: nat, src: ObjId, sp: nat, from: nat, x: nat)
    requires dp <= x
  {
    if from > 0 && x == dp then Parted(st, dest, dp, dest, x) else Covered(st, src, sp + (x - dp))
  }

  /** Only page `last` and the pages of its range after it will be left on their backing. */
  ghost predicate FreedByCopy(st: Store, dest: ObjId, dp: nat, src: ObjId, sp: nat, from: nat, last: nat)
    requires Covered(st, dest, last)
  {
    var r := st.trees[dest][last];
    forall o, x: nat {:trigger Holds(st, o, x, r.backing)} :: Holds(st, o, x, r.backing) ==>
      o == dest && ((r.Covers(x) && x >= last) || (dp <= x < last && Leaves(st, dest, dp, src, sp, from, x)))
  }

  /** The partial page `last` can be written after the pages from `dp` on, of which the
      first is partial, too, if `from` is not 0: it is there; or no page comes before and it
      can be added; or nothing covers it; or it is an empty place at the start of its
      backing, or on one that the copy leaves to it. */
  ghost predicate LastOk(st: Store, dest: ObjId, dp: nat, src: ObjId, sp: nat, from: nat, last: nat)
    requires StoreOk(st) && dest in st.trees
  {
    || Content(st, dest, last).Some?
    || if last == dp then AddPageOk(st, dest, last, true)
       else
         || !Covered(st, dest, last)
         || st.trees[dest][last].Index(last) == 0
         || if from > 0 && last == dp + 1 then FreedBefore(st, dest, dp, last)
            else FreedByCopy(st, dest, dp, src, sp, from, last)
  }

  /** The page is there, or can be added. */
  ghost predicate LastReady(st: Store, dest: ObjId, last: nat)
    requires StoreOk(st) && dest in st.trees
  {
    Content(st, dest, last).Some? || AddPageOk(st, dest, last, true)
  }

  /** A holder of the backing of page `last` after the copy was one before, and is no page
      that the copy replaced, unless the source is one, too. */
  lemma HolderAfter(st': Store, st: Store, dest: ObjId, dp: nat, src: ObjId, sp: nat, last: nat, b: Backing, o: ObjId,
                    x: nat)
    requires OtherTrees(st', st, dest) && RangesCopied(st', st, dest, dp, src, sp, last) && src != dest
    requires forall y: nat :: !Holds(st, src, y, b)
    ensures Holds(st', o, x, b) <==>
      Holds(st, o, x, b) && !(o == dest && dp <= x < last && Covered(st, src, sp + (x - dp)))
  {
    if o == dest {
      assert RangeCopied(st', st, dest, dp, src, sp, last, x);
      if dp <= x < last && Covered(st, src, sp + (x - dp)) { assert !Holds(st, src, sp + (x - dp), b); }
    }
  }

  /** Page `before` of the destination, the last of the whole pages, is on the backing of
      page `full` of the source. */
  lemma LastWhole(st': Store, st: Store, dest: ObjId, dp: nat, src: ObjId, sp: nat, last: nat, before: nat, full: nat)
    requires RangesCopied(st', st, dest, dp, src, sp, last)
    requires dp <= before < last && full == sp + (before - dp) && Covered(st, src, full)
    ensures Covered(st', dest, before) && st'.trees[dest][before].backing == st.trees[src][full].backing
  {
    assert RangeCopied(st', st, dest, dp, src, sp, last, before);
  }

  /** Where the source does not hold the backing, page `last` gets a range that begins with
      it, because the source's range comes before it. */
  lemma LastRange(st': Store, st: Store, dest: ObjId, dp: nat, src: ObjId, sp: nat, last: nat, b: Backing, before: nat,
                  full: nat)
    requires StoreOk(st) && StoreOk(st') && OtherTrees(st', st, dest)
    requires RangesCopied(st', st, dest, dp, src, sp, last) && src != dest
    requires Covered(st, dest, last) && b == st.trees[dest][last].backing && (forall y: nat :: !Holds(st, src, y, b))
    requires dp <= before && last == before + 1 && full == sp + (before - dp) && Covered(st, src, full)
    ensures Covered(st', dest, last) && st'.trees[dest][last].start == last && st'.trees[dest][last].backing == b
    ensures st'.trees[dest][last].End() == st.trees[dest][last].End()
    ensures st'.trees[dest][last].Index(last) == st.trees[dest][last].Index(last)
  {
    assert RangeCopied(st', st, dest, dp, src, sp, last, last);
    LastWhole(st', st, dest, dp, src, sp, last, before, full);
    assert !Holds(st, src, full, b);
    var r := st'.trees[dest][last];
    assert r.Covers(last);
    if r.start < last { assert r.Covers(before); }
  }

  /** Sharing the whole pages before it decides whether the range at page `last` is shared
      afterwards: it is not exactly if the copy leaves the backing to it. */
  lemma SharedAfterWhole(st': Store, st: Store, dest: ObjId, dp: nat, src: ObjId, sp: nat, last: nat, before: nat,
                         full: nat)
    requires StoreOk(st) && StoreOk(st') && OtherTrees(st', st, dest) && src in st.trees
    requires RangesCopied(st', st, dest, dp, src, sp, last) && src != dest
    requires dp <= before && last == before + 1 && full == sp + (before - dp) && Covered(st, src, full)
    requires Covered(st, dest, last)
    ensures Covered(st', dest, last) && st'.trees[dest][last].Index(last) == st.trees[dest][last].Index(last)
    ensures IsShared(st', dest, st'.trees[dest][last]) <==> !FreedByCopy(st, dest, dp, src, sp, 0, last)
  {
    var r, b := st.trees[dest][last], st.trees[dest][last].backing;
    assert RangeCopied(st', st, dest, dp, src, sp, last, last);
    var r' := st'.trees[dest][last];
    if y: nat :| Holds(st, src, y, b) {
      assert Holds(st', src, y, r'.backing);
      assert IsShared(st', dest, r');
    } else {
      LastRange(st', st, dest, dp, src, sp, last, b, before, full);
      if FreedByCopy(st, dest, dp, src, sp, 0, last) {
        FreedIsUnshared(st', st, dest, dp, src, sp, last, r');
      } else {
        HeldIsShared(st', st, dest, dp, src, sp, last, r');
      }
    }
  }

  /** So a page can be added at an empty place there afterwards exactly if it is at the
      start of its backing or the backing is left to it. */
  lemma AfterWholeIff(st': Store, st: Store, dest: ObjId, dp: nat, src: ObjId, sp: nat, last: nat, before: nat,
                      full: nat)
    requires StoreOk(st) && StoreOk(st') && OtherTrees(st', st, dest) && src in st.trees
    requires RangesCopied(st', st, dest, dp, src, sp, last) && src != dest
    requires dp <= before && last == before + 1 && full == sp + (before - dp) && Covered(st, src, full)
    requires Covered(st, dest, last)
    ensures dest in st'.trees && Covered(st', dest, last)
    ensures AddPageOk(st', dest, last, true) <==>
      st.trees[dest][last].Index(last) == 0 || FreedByCopy(st, dest, dp, src, sp, 0, last)
  {
    SharedAfterWhole(st', st, dest, dp, src, sp, last, before, full);
  }

  lemma FreedIsUnshared(st': Store, st: Store, dest: ObjId, dp: nat, src: ObjId, sp: nat, last: nat, r': PageRange)
    requires StoreOk(st') && OtherTrees(st', st, dest) && RangesCopied(st', st, dest, dp, src, sp, last) && src != dest
    requires Covered(st, dest, last) && Covered(st', dest, last) && r' == st'.trees[dest][last]
    requires r'.backing == st.trees[dest][last].backing && r'.End() == st.trees[dest][last].End() && r'.Covers(last)
    requires forall y: nat :: !Holds(st, src, y, r'.backing)
    requires FreedByCopy(st, dest, dp, src, sp, 0, last)
    ensures !IsShared(st', dest, r')
  {
    forall o, x: nat | Holds(st', o, x, r'.backing) ensures o == dest && st'.trees[o][x] == r' {
      HolderAfter(st', st, dest, dp, src, sp, last, r'.backing, o, x);
      assert Holds(st, o, x, r'.backing);
      assert st'.trees[dest][last].Covers(x);
    }
  }

  lemma HeldIsShared(st': Store, st: Store, dest: ObjId, dp: nat, src: ObjId, sp: nat, last: nat, r': PageRange)
    requires StoreOk(st') && OtherTrees(st', st, dest) && RangesCopied(st', st, dest, dp, src, sp, last) && src != dest
    requires Covered(st, dest, last) && Covered(st', dest, last) && r' == st'.trees[dest][last]
    requires r'.backing == st.trees[dest][last].backing && r'.End() == st.trees[dest][last].End() && r'.start == last
    requires st.trees[dest][last].Covers(last)
    requires forall y: nat :: !Holds(st, src, y, r'.backing)
    requires !FreedByCopy(st, dest, dp, src, sp, 0, last)
    ensures IsShared(st', dest, r')
  {
    var r := st.trees[dest][last];
    var o, x: nat :| Holds(st, o, x, r.backing) &&
      !(o == dest && ((r.Covers(x) && x >= last) || (dp <= x < last && Leaves(st, dest, dp, src, sp, 0, x))));
    HolderAfter(st', st, dest, dp, src, sp, last, r'.backing, o, x);
    assert Holds(st', o, x, r'.backing);
    if o == dest { assert st'.trees[dest][x].Covers(x); }
  }

  /** A step on the first partial page decides nothing: the last page can be written after
      it exactly if it could be before. */
  lemma AfterFirstIff(st1: Store, st: Store, dest: ObjId, dp: nat, src: ObjId, sp: nat, from: nat, dp1: nat, sp1: nat,
                      last: nat)
    requires StoreOk(st) && dest in st.trees && src in st.trees && src != dest && Frame(st1, st, dest, dp)
    requires from > 0 && dp1 == dp + 1 && sp1 == sp + 1 && dp1 <= last && Covered(st1, dest, dp)
    requires Content(st1, dest, last) == Content(st, dest, last)
    ensures dest in st1.trees
    ensures LastOk(st1, dest, dp1, src, sp1, 0, last) <==> LastOk(st, dest, dp, src, sp, from, last)
  {
    assert RangeAfter(st1, st, dest, dp, last);
    if last == dp1 {
      NextIsLast(st1, st, dest, dp, src, sp, from, last);
    } else if Covered(st, dest, last) {
      FreedAfterFirst(st1, st, dest, dp, src, sp, from, dp1, sp1, last);
    }
  }

  lemma NextIsLast(st1: Store, st: Store, dest: ObjId, dp: nat, src: ObjId, sp: nat, from: nat, last: nat)
    requires StoreOk(st) && StoreOk(st1) && dest in st.trees && RangeAfter(st1, st, dest, dp, last)
    requires from > 0 && last == dp + 1 && Covered(st1, dest, dp) && Content(st1, dest, last) == Content(st, dest, last)
    ensures LastReady(st1, dest, last) <==> LastOk(st, dest, dp, src, sp, from, last)
  {
    FitIff(st1, dest, last);
    FitStep(st1, st, dest, dp, last, last);
  }

  lemma FreedAfterFirst(st1: Store, st: Store, dest: ObjId, dp: nat, src: ObjId, sp: nat, from: nat, dp1: nat,
                        sp1: nat, last: nat)
    requires StoreOk(st) && StoreOk(st1) && OtherTrees(st1, st, dest) && src in st.trees && src != dest &&
      Covered(st, dest, last)
    requires from > 0 && dp1 == dp + 1 && sp1 == sp + 1 && dp1 < last && RangeAfter(st1, st, dest, dp, last)
    ensures FreedByCopy(st1, dest, dp1, src, sp1, 0, last) <==> FreedByCopy(st, dest, dp, src, sp, from, last)
  {
    if FreedByCopy(st1, dest, dp1, src, sp1, 0, last) {
      FreedBackFirst(st1, st, dest, dp, src, sp, from, dp1, sp1, last);
    }
    if FreedByCopy(st, dest, dp, src, sp, from, last) {
      FreedPastFirst(st1, st, dest, dp, src, sp, from, dp1, sp1, last);
    }
  }

  /** Which later pages lose their backing does not depend on the first. */
  lemma LeavesAfterFirst(st1: Store, st: Store, dest: ObjId, dp: nat, src: ObjId, sp: nat, from: nat, dp1: nat,
                         sp1: nat, x: nat)
    requires OtherTrees(st1, st, dest) && src in st.trees && src != dest
    requires from > 0 && dp1 == dp + 1 && sp1 == sp + 1 && dp1 <= x
    ensures Leaves(st1, dest, dp1, src, sp1, 0, x) <==> Leaves(st, dest, dp, src, sp, from, x)
  {
    assert sp1 + (x - dp1) == sp + (x - dp);
  }

  lemma FreedBackFirst(st1: Store, st: Store, dest: ObjId, dp: nat, src: ObjId, sp: nat, from: nat, dp1: nat,
                       sp1: nat, last: nat)
    requires StoreOk(st) && StoreOk(st1) && OtherTrees(st1, st, dest) && src in st.trees && src != dest
    requires Covered(st, dest, last) && RangeAfter(st1, st, dest, dp, last)
    requires from > 0 && dp1 == dp + 1 && sp1 == sp + 1 && dp1 < last && FreedByCopy(st1, dest, dp1, src, sp1, 0, last)
    ensures FreedByCopy(st, dest, dp, src, sp, from, last)
  {
    var r, r1, b := st.trees[dest][last], st1.trees[dest][last], st.trees[dest][last].backing;
    assert r1.Covers(last) && r.Covers(last);
    forall o, x: nat | Holds(st, o, x, b)
      ensures o == dest && ((r.Covers(x) && x >= last) || (dp <= x < last && Leaves(st, dest, dp, src, sp, from, x)))
    {
      assert Holds(st1, o, x, b) || Parted(st, dest, dp, o, x);
      if x >= dp1 { LeavesAfterFirst(st1, st, dest, dp, src, sp, from, dp1, sp1, x); }
    }
  }

  lemma FreedPastFirst(st1: Store, st: Store, dest: ObjId, dp: nat, src: ObjId, sp: nat, from: nat, dp1: nat,
                       sp1: nat, last: nat)
    requires StoreOk(st) && StoreOk(st1) && OtherTrees(st1, st, dest) && src in st.trees && src != dest
    requires Covered(st, dest, last) && RangeAfter(st1, st, dest, dp, last)
    requires from > 0 && dp1 == dp + 1 && sp1 == sp + 1 && dp1 < last && FreedByCopy(st, dest, dp, src, sp, from, last)
    ensures FreedByCopy(st1, dest, dp1, src, sp1, 0, last)
  {
    var r, r1, b := st.trees[dest][last], st1.trees[dest][last], st.trees[dest][last].backing;
    assert r1.Covers(last) && r.Covers(last);
    forall o, x: nat | Holds(st1, o, x, b)
      ensures o == dest &&
        ((r1.Covers(x) && x >= last) || (dp1 <= x < last && Leaves(st1, dest, dp1, src, sp1, 0, x)))
    {
      assert Holds(st, o, x, b) && !Parted(st, dest, dp, o, x);
      if x >= dp1 { LeavesAfterFirst(st1, st, dest, dp, src, sp, from, dp1, sp1, x); }
    }
  }

  /** What the whole pages [dp, last) leave of the ranges, and how the last page fares. */
  ghost predicate WholeCopied(st': Store, st: Store, dest: ObjId, dp: nat, src: ObjId, sp: nat, last: nat) {
    && StoreOk(st') && OtherTrees(st', st, dest) && RangesCopied(st', st, dest, dp, src, sp, last)
    && Content(st', dest, last) == Content(st, dest, last)
  }

  /** After at least one whole page, the last of them covered in the source. */
  lemma AfterWhole(st': Store, st: Store, dest: ObjId, dp: nat, src: ObjId, sp: nat, last: nat, before: nat, full: nat)
    requires StoreOk(st) && dest in st.trees && src in st.trees && src != dest
    requires WholeCopied(st', st, dest, dp, src, sp, last)
    requires dp <= before && last == before + 1 && full == sp + (before - dp) && Covered(st, src, full)
    ensures dest in st'.trees
    ensures LastReady(st', dest, last) <==> LastOk(st, dest, dp, src, sp, 0, last)
  {
    assert RangeCopied(st', st, dest, dp, src, sp, last, last);
    LastWhole(st', st, dest, dp, src, sp, last, before, full);
    if Covered(st, dest, last) {
      AfterWholeIff(st', st, dest, dp, src, sp, last, before, full);
    } else {
      NextAddOk(st', dest, last);
    }
  }

  /** After the whole pages, if there are any. */
  lemma AfterRest(st2: Store, st1: Store, dest: ObjId, dp: nat, src: ObjId, sp: nat, last: nat, full: int)
    requires StoreOk(st1) && dest in st1.trees && src in st1.trees && src != dest && dp <= last
    requires dp == last ==> st2 == st1
    requires dp < last ==>
      WholeCopied(st2, st1, dest, dp, src, sp, last) && full == sp + (last - 1 - dp) >= 0 && Covered(st1, src, full)
    ensures dest in st2.trees && StoreOk(st2)
    ensures LastReady(st2, dest, last) <==> LastOk(st1, dest, dp, src, sp, 0, last)
  {
    if dp < last {
      var before: nat := last - 1;
      AfterWhole(st2, st1, dest, dp, src, sp, last, before, full);
    }
  }

  /** The partial page `last` can be written after a first partial page, if `from` is not 0,
      and whole pages, if there are any, exactly under a condition on the store before the
      copy. */
  lemma LastPageIff(st: Store, st1: Store, st2: Store, dest: ObjId, dp: nat, src: ObjId, sp: nat, from: nat,
                    dp1: nat, sp1: nat, last: nat, full: int)
    requires StoreOk(st) && dest in st.trees && src in st.trees && src != dest && dp1 <= last
    requires from == 0 ==> st1 == st && dp1 == dp && sp1 == sp
    requires from > 0 ==> Frame(st1, st, dest, dp) && Covered(st1, dest, dp) && dp1 == dp + 1 && sp1 == sp + 1
    requires Content(st1, dest, last) == Content(st, dest, last)
    requires dp1 == last ==> st2 == st1
    requires dp1 < last ==>
      WholeCopied(st2, st1, dest, dp1, src, sp1, last) && full == sp1 + (last - 1 - dp1) >= 0 && Covered(st1, src, full)
    ensures dest in st2.trees && StoreOk(st2)
    ensures LastReady(st2, dest, last) <==> LastOk(st, dest, dp, src, sp, from, last)
  {
    if from > 0 { AfterFirstIff(st1, st, dest, dp, src, sp, from, dp1, sp1, last); }
    AfterRest(st2, st1, dest, dp1, src, sp1, last, full);
  }

  // Frames for the last page.

  /** The range at page `last` will be shared when the copy gets there. */
  ghost predicate LastShared(st: Store, dest: ObjId, dp: nat, src: ObjId, sp: nat, from: nat, last: nat)
    requires Covered(st, dest, last)
  {
    if last == dp then IsShared(st, dest, st.trees[dest][last])
    else if from > 0 && last == dp + 1 then !FreedBefore(st, dest, dp, last)
    else !FreedByCopy(st, dest, dp, src, sp, from, last)
  }

  /** Writing to page `last` will take a frame: it is missing, or will be shared. */
  ghost predicate LastNeeds(st: Store, dest: ObjId, dp: nat, src: ObjId, sp: nat, from: nat, last: nat) {
    Content(st, dest, last).None? || (Covered(st, dest, last) && LastShared(st, dest, dp, src, sp, from, last))
  }

  /** After the whole pages, if there are any, it takes one exactly if that was to be. */
  lemma NeedsAfterRest(st2: Store, st1: Store, dest: ObjId, dp: nat, src: ObjId, sp: nat, last: nat, full: int)
    requires StoreOk(st1) && StoreOk(st2) && src in st1.trees && src != dest && dp <= last
    requires dp == last ==> st2 == st1
    requires dp < last ==>
      WholeCopied(st2, st1, dest, dp, src, sp, last) && full == sp + (last - 1 - dp) >= 0 && Covered(st1, src, full)
    ensures NeedsFrame(st2, dest, last) <==> LastNeeds(st1, dest, dp, src, sp, 0, last)
  {
    ContentExists(st2, dest, last);
    ContentExists(st1, dest, last);
    if dp < last && Covered(st1, dest, last) {
      var before: nat := last - 1;
      SharedAfterWhole(st2, st1, dest, dp, src, sp, last, before, full);
    }
  }

  /** The first partial page changes nothing about that. */
  lemma NeedsAfterFirst(st1: Store, st: Store, dest: ObjId, dp: nat, src: ObjId, sp: nat, from: nat, dp1: nat, sp1: nat,
                        last: nat)
    requires StoreOk(st) && dest in st.trees && src in st.trees && src != dest && Frame(st1, st, dest, dp)
    requires from > 0 && dp1 == dp + 1 && sp1 == sp + 1 && dp1 <= last
    requires Content(st1, dest, last) == Content(st, dest, last)
    ensures LastNeeds(st1, dest, dp1, src, sp1, 0, last) <==> LastNeeds(st, dest, dp, src, sp, from, last)
  {
    assert RangeAfter(st1, st, dest, dp, last);
    if Covered(st, dest, last) {
      if last == dp1 {
        SharedAfterStep(st1, st, dest, dp, last);
      } else {
        FreedAfterFirst(st1, st, dest, dp, src, sp, from, dp1, sp1, last);
      }
    }
  }

  lemma SharedAfterStep(st1: Store, st: Store, dest: ObjId, dp: nat, last: nat)
    requires StoreOk(st) && StoreOk(st1) && Covered(st, dest, last) && last == dp + 1 &&
      RangeAfter(st1, st, dest, dp, last)
    ensures IsShared(st1, dest, st1.trees[dest][last]) <==> !FreedBefore(st, dest, dp, last)
  {
    UnsharedIsFreed(st1, dest, last);
    if FreedBefore(st, dest, dp, last) { FreedStep(st1, st, dest, dp, last, last); }
    if FreedBefore(st1, dest, last, last) { FreedStepBack(st1, st, dest, dp, last, last); }
  }

  // Where it goes wrong.

  /** The family of stores on which it does: the missing page is in an unshared range that
      begins before the whole pages. */
  lemma Stranded(st: Store, dest: ObjId, dp: nat, src: ObjId, sp: nat, last: nat)
    requires StoreOk(st) && Covered(st, dest, last) && Content(st, dest, last).None?
    requires !IsShared(st, dest, st.trees[dest][last]) && st.trees[dest][last].start < dp < last
    ensures AddPageOk(st, dest, last, true) && !LastOk(st, dest, dp, src, sp, 0, last)
  {
    var r := st.trees[dest][last];
    EntryAt(st.trees[dest], last);
    assert Holds(st, dest, r.start, r.backing);
  }

  /** Sharing one page splices it in. */
  lemma OnePageShared(st: Store, st': Store, dest: ObjId, pn: nat, src: ObjId, last: nat, w: PageRange)
    requires StoreOk(st) && Covered(st, src, pn) && src != dest && last == pn + 1
    requires SplicedAt(st', st, dest, w) && st'.vecs == st.vecs && st'.pages == st.pages
    requires w.start == pn && w.length == 1 && w.backing == st.trees[src][pn].backing && w.backing.Many?
    ensures WholeCopied(st', st, dest, pn, src, pn, last)
  {
    assert RangeOk(st, st.trees[src][pn]);
    SharedOk(st', st, dest, w);
    SplicedSlot(st', st, dest, w, dest, last);
    OneRangeCopied(st, st', dest, pn, src, last, w);
  }

  lemma SharedOk(st': Store, st: Store, o: ObjId, w: PageRange)
    requires StoreOk(st) && SplicedAt(st', st, o, w) && st'.vecs == st.vecs && st'.pages == st.pages
    requires w.backing.Many? && w.backing.vec in st.vecs
    ensures StoreOk(st')
  {
    SplicedRanges(st', st, o, w);
  }

  lemma OneRangeCopied(st: Store, st': Store, dest: ObjId, pn: nat, src: ObjId, last: nat, w: PageRange)
    requires Covered(st, src, pn) && last == pn + 1 && SplicedAt(st', st, dest, w)
    requires w.start == pn && w.length == 1 && w.backing == st.trees[src][pn].backing
    ensures RangesCopied(st', st, dest, pn, src, pn, last)
  {
    forall q: nat ensures RangeCopied(st', st, dest, pn, src, pn, last, q) {
      if q != pn && q in st.trees[dest] { assert Trimmed(st'.trees[dest][q], st.trees[dest][q], w, q); }
    }
  }

  lemma OneRangeOk(r: PageRange)
    ensures TreeOk(Window(r))
  {
  }

  /** A destination, object 0, with one unshared range of three pages, the last of them
      missing, and a source, object 1, with a page 1. */
  lemma SparseStore() returns (st: Store)
    ensures StoreOk(st) && Covered(st, 0, 1) && Covered(st, 0, 2) && Covered(st, 1, 1) && Unheld(st, 3) && 2 !in st.vecs
    ensures Content(st, 0, 2).None? && st.trees[0][2] == PageRange(0, 3, 0, Many(0)) && !IsShared(st, 0, st.trees[0][2])
    ensures st.trees[0][1] == st.trees[0][2] && st.trees[1][1] == PageRange(1, 1, 1, Many(1))
  {
    var r, x, z := PageRange(0, 3, 0, Many(0)), PageRange(1, 1, 1, Many(1)), ZeroPage();
    OneRangeOk(r);
    OneRangeOk(x);
    st := Store(map[0 := Window(r), 1 := Window(x)], map[0 := map[0 := 0, 1 := 1], 1 := map[1 := 2]],
                map[0 := z, 1 := z, 2 := z, 3 := z]);
    assert forall v, i, p :: InVec(st.vecs, v, i, p) ==>
      (p == 2 && v == 1 && i == 1) || (p == i && v == 0 && 0 <= i <= 1);
    assert forall o, q :: Covered(st, o, q) ==> (o == 0 && st.trees[o][q] == r) || (o == 1 && st.trees[o][q] == x);
  }

  /** A place that a page could be added to before the copy cannot take one after: sharing
      page 1 leaves the vector of the missing page 2 to two ranges, and the page added for
      the last part of the copy is not found again. */
  lemma SharingStrandsLastPage() returns (st: Store, st': Store)
    ensures StoreOk(st) && 0 in st.trees && AddPageOk(st, 0, 2, true)
    ensures WholeCopied(st', st, 0, 1, 1, 1, 2) && Unheld(st', 3) && 0 in st'.trees
    ensures !IsUpdate(AddPageStore(st', 0, 2, 3, true, 2), st', 0, 2, 3)
  {
    st := SparseStore();
    st' := st.(trees := st.trees[0 := SplitThree(st.trees[0], 1, Many(1))]);
    SplitSplices(st.trees[0], 1, Many(1));
    OnePageShared(st, st', 0, 1, 1, 2, PageRange(1, 1, 1, Many(1)));
    Stranded(st, 0, 1, 1, 1, 2);
    AfterWhole(st', st, 0, 1, 1, 1, 2, 1, 1);
    StillUnheld(st', st, 0, 1, Many(1), 3);
    AddPageUpdatesIff(st', 0, 2, 3, true, 2);
  }

  lemma StillUnheld(st': Store, st: Store, o: ObjId, pn: nat, b: Backing, p: PageId)
    requires StoreOk(st) && Covered(st, o, pn) && !b.Single? && Unheld(st, p)
    requires st' == st.(trees := st.trees[o := SplitThree(st.trees[o], pn, b)])
    ensures Unheld(st', p)
  {
    SplitSplices(st.trees[o], pn, b);
    forall o', q: nat ensures !Holds(st', o', q, Single(p)) {
      HoldsSpliced(st', st, o, PageRange(pn, 1, st.trees[o][pn].Index(pn), b), o', q, Single(p));
    }
  }
}
