/** Who shares a backing, and how making one page of an object writable changes that
    (src/kernel/src/obj/range.rs): a page of a shared range gets a backing of its own;
    every other place of every object stays on the backing it was on. */
module RangeSharing {
  import opened PageRanges
  import opened ObjectStore

  /** Place (o', x) is the page `pn` of `o` and has to part with its shared backing. */
  predicate Parted(st: Store, o: ObjId, pn: nat, o': ObjId, x: nat) {
    o' == o && x == pn && Covered(st, o, pn) && IsShared(st, o, st.trees[o][pn])
  }

  /** What making page `pn` of `o` writable does to the range at a later page `q`: all of
      it from `q` on is still there, all of it at all unless it is shared and shows `pn`,
      and its backing has the same holders but for a parted `pn`. */
  ghost predicate RangeAfter(st': Store, st: Store, o: ObjId, pn: nat, q: nat) {
    && (Covered(st', o, q) <==> Covered(st, o, q))
    && (Covered(st, o, q) ==>
          var r, r' := st.trees[o][q], st'.trees[o][q];
          && IsPiece(r', r) && r'.End() == r.End()
          && (r' == r || (r.Covers(pn) && IsShared(st, o, r)))
          && SameHolders(st', st, o, pn, r.backing))
  }

  ghost predicate SameHolders(st': Store, st: Store, o: ObjId, pn: nat, b: Backing) {
    forall o', x: nat {:trigger Holds(st', o', x, b)} {:trigger Holds(st, o', x, b)} ::
      Holds(st', o', x, b) <==> Holds(st, o', x, b) && !Parted(st, o, pn, o', x)
  }

  ghost predicate RangesAfter(st': Store, st: Store, o: ObjId, pn: nat) {
    forall q: nat {:trigger RangeAfter(st', st, o, pn, q)} :: pn < q ==> RangeAfter(st', st, o, pn, q)
  }

  /** Nothing happens to the ranges where page `pn` is not shared. */
  lemma SameTreesAfter(st': Store, st: Store, o: ObjId, pn: nat)
    requires StoreOk(st) && o in st.trees && st'.trees == st.trees
    requires Covered(st, o, pn) ==> !IsShared(st, o, st.trees[o][pn])
    ensures RangesAfter(st', st, o, pn)
  {
    forall q: nat | pn < q ensures RangeAfter(st', st, o, pn, q) {
      if Covered(st, o, q) { EntryAt(st.trees[o], q); }
    }
  }

  /** Only the trees matter. */
  lemma AfterOnTrees(st2: Store, st1: Store, st': Store, st: Store, o: ObjId, pn: nat)
    requires RangesAfter(st', st1, o, pn) && st1.trees == st.trees && st2.trees == st'.trees
    ensures RangesAfter(st2, st, o, pn)
  {
    forall q: nat | pn < q ensures RangeAfter(st2, st, o, pn, q) {
      assert RangeAfter(st', st1, o, pn, q);
      if Covered(st, o, q) { HoldersOnTrees(st2, st1, st', st, o, pn, st.trees[o][q].backing); }
    }
  }

  lemma HoldersOnTrees(st2: Store, st1: Store, st': Store, st: Store, o: ObjId, pn: nat, b: Backing)
    requires SameHolders(st', st1, o, pn, b) && st1.trees == st.trees && st2.trees == st'.trees
    ensures SameHolders(st2, st, o, pn, b)
  {
    forall o', x: nat ensures Holds(st2, o', x, b) <==> Holds(st, o', x, b) && !Parted(st, o, pn, o', x) {
      assert Holds(st', o', x, b) <==> Holds(st1, o', x, b) && !Parted(st1, o, pn, o', x);
    }
  }

  /** Splicing in a range that ends with page `pn`. */
  lemma SpliceAfter(st': Store, st: Store, o: ObjId, pn: nat, w: PageRange, q: nat)
    requires StoreOk(st) && SplicedAt(st', st, o, w) && w.End() == pn + 1 && pn < q
    requires Covered(st, o, pn) ==> IsShared(st, o, st.trees[o][pn])
    requires Covered(st, o, q) ==> w.backing != st.trees[o][q].backing
    requires Covered(st, o, q) ==> forall x: nat :: w.Covers(x) && Holds(st, o, x, st.trees[o][q].backing) ==> x == pn
    ensures RangeAfter(st', st, o, pn, q)
  {
    if Covered(st, o, q) {
      var r, b := st.trees[o][q], st.trees[o][q].backing;
      assert Trimmed(st'.trees[o][q], r, w, q);
      assert r.Covers(q);
      if r.Overlaps(w.start, w.End()) { assert r.Covers(pn); }
      forall o', x: nat ensures Holds(st', o', x, b) <==> Holds(st, o', x, b) && !Parted(st, o, pn, o', x) {
        HoldsSpliced(st', st, o, w, o', x, b);
      }
    }
  }

  lemma HoldsSpliced(st': Store, st: Store, o: ObjId, w: PageRange, o': ObjId, x: nat, b: Backing)
    requires SplicedAt(st', st, o, w)
    ensures Holds(st', o', x, b) <==> if o' == o && w.Covers(x) then w.backing == b else Holds(st, o', x, b)
  {
    if o' == o && !w.Covers(x) && x in st.trees[o] { assert Trimmed(st'.trees[o][x], st.trees[o][x], w, x); }
  }

  /** The private copy of a shared page. */
  lemma CloneAfter(st: Store, o: ObjId, pn: nat, np: PageId, nv: VecId)
    requires StoreOk(st) && Content(st, o, pn).Some? && st.trees[o][pn].Covers(pn) && np !in st.pages && nv !in st.vecs
    requires IsShared(st, o, st.trees[o][pn])
    ensures RangesAfter(CloneStore(st, o, pn, np, nv), st, o, pn)
  {
    var st', r := CloneStore(st, o, pn, np, nv), st.trees[o][pn];
    CloneSplices(st, o, pn, np, nv);
    forall q: nat | pn < q ensures RangeAfter(st', st, o, pn, q) {
      if Covered(st, o, q) { assert RangeOk(st, st.trees[o][q]); }
      SpliceAfter(st', st, o, pn, PageRange(pn, 1, r.Index(pn), CloneBacking(r, np, nv)), q);
    }
  }

  /** A page added where there was none. */
  lemma AddAfter(st: Store, o: ObjId, pn: nat, p: PageId, nv: VecId)
    requires StoreOk(st) && o in st.trees && PageAt(st, o, pn).None? && Unheld(st, p) && nv !in st.vecs
    ensures RangesAfter(AddPageStore(st, o, pn, p, true, nv), st, o, pn)
  {
    var st', t, r := AddPageStore(st, o, pn, p, true, nv), st.trees[o], Target(st, o, pn, true).0;
    AddPageSplices(st, o, pn, p, true, nv);
    TargetOk(st, o, pn, true);
    var w := PlaceInRange(st.vecs, r, pn, p, nv).0;
    if pn in t && !IsShared(st, o, t[pn]) {
      InPlaceAfter(st', st, o, pn, w);
    } else {
      forall q: nat | pn < q ensures RangeAfter(st', st, o, pn, q) {
        if Covered(st, o, q) { TargetApart(st, o, pn, p, nv, w, q); }
        SpliceAfter(st', st, o, pn, w, q);
      }
    }
  }

  /** An unshared range with a hole is on a vector, and takes the page without being
      moved or cut. */
  lemma InPlaceAfter(st': Store, st: Store, o: ObjId, pn: nat, w: PageRange)
    requires StoreOk(st) && Covered(st, o, pn) && PageAt(st, o, pn).None? && !IsShared(st, o, st.trees[o][pn])
    requires SplicedAt(st', st, o, w) && (st.trees[o][pn].backing.Many? ==> w == st.trees[o][pn])
    ensures RangesAfter(st', st, o, pn)
  {
    var t, t', r := st.trees[o], st'.trees[o], st.trees[o][pn];
    assert RangeOk(st, r) && r.Covers(pn);
    EntryAt(t, pn);
    forall x: nat ensures (x in t' <==> x in t) && (x in t ==> t'[x] == t[x]) {
      if r.Covers(x) {
        assert t[pn].Covers(x);
      } else if x in t {
        EntryAt(t, x);
        EntriesDisjoint(t, r, t[x]);
        assert Trimmed(t'[x], t[x], w, x);
      }
    }
    assert t' == t;
    assert st'.trees == st.trees;
    SameTreesAfter(st', st, o, pn);
  }

  /** Elsewhere the range that takes the page ends with it, and is on none of the
      backings of later pages. */
  lemma TargetApart(st: Store, o: ObjId, pn: nat, p: PageId, nv: VecId, w: PageRange, q: nat)
    requires StoreOk(st) && o in st.trees && Unheld(st, p) && nv !in st.vecs && pn < q && q in st.trees[o]
    requires var t := st.trees[o]; pn in t ==> IsShared(st, o, t[pn])
    requires var r := Target(st, o, pn, true).0;
      (r.backing.Many? ==> r.backing.vec in st.vecs) && w == PlaceInRange(st.vecs, r, pn, p, nv).0
    ensures w.End() == pn + 1 && w.backing != st.trees[o][q].backing
    ensures forall x: nat :: w.Covers(x) && Holds(st, o, x, st.trees[o][q].backing) ==> x == pn
  {
    var t, y := st.trees[o], st.trees[o][q];
    assert RangeOk(st, y);
    assert Holds(st, o, q, y.backing);
    if pn !in t && Extendable(st, o, pn).Some? {
      var prev := Extendable(st, o, pn).value;
      BeforeGap(t, pn);
      assert y != prev by { assert y.Covers(q); }
      forall x: nat | w.Covers(x) && x in t ensures t[x] == prev { assert t[prev.start].Covers(x); }
    }
  }

  /** A range of its own covers page `pn`, on a backing that nothing else holds. */
  predicate Private(st: Store, o: ObjId, pn: nat) {
    Covered(st, o, pn) && !IsShared(st, o, st.trees[o][pn])
  }

  lemma PrivateOnTrees(st2: Store, st1: Store, o: ObjId, pn: nat)
    requires Private(st1, o, pn) && st2.trees == st1.trees
    ensures Private(st2, o, pn)
  {
    forall o', x: nat | Holds(st2, o', x, st2.trees[o][pn].backing)
      ensures o' == o && st2.trees[o'][x] == st2.trees[o][pn]
    {
      assert Holds(st1, o', x, st1.trees[o][pn].backing);
    }
  }

  /** A spliced range is private if its backing was held by nothing but what it replaces. */
  lemma SplicedPrivate(st': Store, st: Store, o: ObjId, pn: nat, w: PageRange)
    requires SplicedAt(st', st, o, w) && w.Covers(pn)
    requires forall o', x: nat :: Holds(st, o', x, w.backing) ==> o' == o && w.Covers(x)
    ensures Private(st', o, pn)
  {
    forall o', x: nat | Holds(st', o', x, w.backing) ensures o' == o && st'.trees[o'][x] == w {
      HoldsSpliced(st', st, o, w, o', x, w.backing);
    }
  }

  /** The page that `add_page` put where there was none is private. */
  lemma AddedPrivate(st: Store, o: ObjId, pn: nat, p: PageId, nv: VecId)
    requires StoreOk(st) && o in st.trees && PageAt(st, o, pn).None? && Unheld(st, p) && nv !in st.vecs
    ensures Private(AddPageStore(st, o, pn, p, true, nv), o, pn)
  {
    var st', t, r := AddPageStore(st, o, pn, p, true, nv), st.trees[o], Target(st, o, pn, true).0;
    AddPageSplices(st, o, pn, p, true, nv);
    TargetOk(st, o, pn, true);
    var w := PlaceInRange(st.vecs, r, pn, p, nv).0;
    forall o', x: nat | Holds(st, o', x, w.backing) ensures o' == o && w.Covers(x) {
      TargetHolders(st, o, pn, p, nv, r, w, o', x);
    }
    SplicedPrivate(st', st, o, pn, w);
  }

  lemma TargetHolders(st: Store, o: ObjId, pn: nat, p: PageId, nv: VecId, r: PageRange, w: PageRange, o': ObjId, x: nat)
    requires StoreOk(st) && o in st.trees && Unheld(st, p) && nv !in st.vecs && r == Target(st, o, pn, true).0
    requires (r.backing.Many? ==> r.backing.vec in st.vecs) && w == PlaceInRange(st.vecs, r, pn, p, nv).0
    requires Holds(st, o', x, w.backing)
    ensures o' == o && w.Covers(x)
  {
    var t := st.trees[o];
    assert RangeOk(st, st.trees[o'][x]) && st.trees[o'][x].Covers(x);
    if pn !in t && Extendable(st, o, pn).Some? {
      BeforeGap(t, pn);
    }
  }

  // Which later pages will be fit for writing.

  /** Whatever else holds the backing of the range at page `q` is on pages [first, q) of
      the same object. */
  ghost predicate FreedBefore(st: Store, o: ObjId, first: nat, q: nat)
    requires Covered(st, o, q)
  {
    var r := st.trees[o][q];
    forall o', x: nat {:trigger Holds(st, o', x, r.backing)} ::
      Holds(st, o', x, r.backing) ==> o' == o && (r.Covers(x) || first <= x < q)
  }

  /** Page `q` can be written once pages [first, q) have been: it is there; or nothing
      covers it; or it is an empty place at the start of a backing, or on a backing that
      will by then be unshared. */
  ghost predicate PageFit(st: Store, o: ObjId, first: nat, q: nat) {
    Content(st, o, q).Some? || !Covered(st, o, q) || st.trees[o][q].Index(q) == 0 || FreedBefore(st, o, first, q)
  }

  /** For an empty place whose turn it is, this is what `add_page` needs. */
  lemma FitNow(st: Store, o: ObjId, q: nat)
    requires StoreOk(st) && Covered(st, o, q) && Content(st, o, q).None?
    ensures PageFit(st, o, q, q) <==> AddPageOk(st, o, q, true)
  {
    UnsharedIsFreed(st, o, q);
  }

  /** A range is unshared exactly if nothing else holds its backing. */
  lemma UnsharedIsFreed(st: Store, o: ObjId, q: nat)
    requires StoreOk(st) && Covered(st, o, q)
    ensures !IsShared(st, o, st.trees[o][q]) <==> FreedBefore(st, o, q, q)
  {
    var r := st.trees[o][q];
    assert r.Covers(q);
    forall x: nat | Holds(st, o, x, r.backing) ensures r.Covers(x) <==> st.trees[o][x] == r {
      if r.Covers(x) { assert st.trees[o][q].Covers(x); }
    }
  }

  /** Making page `pn` writable neither helps nor harms a later page: it is fit after
      that exactly if it was before. */
  lemma FitStep(st': Store, st: Store, o: ObjId, pn: nat, next: nat, q: nat)
    requires StoreOk(st) && StoreOk(st') && o in st.trees && o in st'.trees && pn < q && next == pn + 1
    requires RangeAfter(st', st, o, pn, q) && Content(st', o, q) == Content(st, o, q)
    ensures PageFit(st', o, next, q) <==> PageFit(st, o, pn, q)
  {
    if Covered(st, o, q) && Content(st, o, q).None? && st.trees[o][q].Index(q) != 0 {
      if FreedBefore(st, o, pn, q) { FreedStep(st', st, o, pn, next, q); }
      if FreedBefore(st', o, next, q) { FreedStepBack(st', st, o, pn, next, q); }
    }
  }

  lemma FreedStep(st': Store, st: Store, o: ObjId, pn: nat, next: nat, q: nat)
    requires StoreOk(st) && StoreOk(st') && Covered(st, o, q) && pn < q && next == pn + 1
    requires RangeAfter(st', st, o, pn, q) && FreedBefore(st, o, pn, q)
    ensures FreedBefore(st', o, next, q)
  {
    var r, b := st.trees[o][q], st.trees[o][q].backing;
    assert Holds(st, o, q, b) && r.Covers(q);
    forall o', x: nat | Holds(st, o', x, b) && r.Covers(pn) ensures o' == o && st.trees[o][x] == r {
      assert st.trees[o][q].Covers(x);
    }
    if Holds(st, o, pn, b) && !r.Covers(pn) {
      assert IsShared(st, o, st.trees[o][pn]);
      assert Parted(st, o, pn, o, pn);
    }
  }

  lemma FreedStepBack(st': Store, st: Store, o: ObjId, pn: nat, next: nat, q: nat)
    requires StoreOk(st) && StoreOk(st') && Covered(st, o, q) && pn < q && next == pn + 1
    requires RangeAfter(st', st, o, pn, q) && FreedBefore(st', o, next, q)
    ensures FreedBefore(st, o, pn, q)
  {
    var b := st.trees[o][q].backing;
    forall o', x: nat | Holds(st, o', x, b) ensures o' == o && (st.trees[o][q].Covers(x) || pn <= x < q) {
      assert Holds(st', o', x, b) || Parted(st, o, pn, o', x);
    }
  }
}
