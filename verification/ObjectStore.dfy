/** All object page trees of the system together, with the page vectors and
    pages they share (src/kernel/src/obj/range.rs, src/kernel/src/obj/pagevec.rs).

    Reference-counted page vectors and pages are identities; a backing is shared
    exactly when a second range, of any object, holds it.  Page references are
    one page long. */
module ObjectStore {
  import opened Options
  import opened PageSize
  import opened PageRanges

  const MAX_EXTENSION_ALLOWED: nat := 16

  type ObjId = nat
  type PageVec = map<int, PageId>

  datatype Store = Store(trees: map<ObjId, Tree>, vecs: map<VecId, PageVec>, pages: map<PageId, seq<byte>>)

  /** `try_get_page` on a range's backing.  A single-page backing with a non-zero
      index trips an assertion in the source; no page comes back here. */
  function Resolve(vecs: map<VecId, PageVec>, s: Option<(Backing, int)>): Option<PageId> {
    match s
    case None => None
    case Some((Nothing, _)) => None
    case Some((Single(p), i)) => if i == 0 then Some(p) else None
    case Some((Many(v), i)) => if v in vecs && i in vecs[v] then Some(vecs[v][i]) else None
  }

  function SlotAt(st: Store, o: ObjId, pn: nat): Option<(Backing, int)> {
    if o in st.trees then Slot(st.trees[o], pn) else None
  }

  /** The page that object `o` has at page number `pn`. */
  function PageAt(st: Store, o: ObjId, pn: nat): Option<PageId> {
    Resolve(st.vecs, SlotAt(st, o, pn))
  }

  /** A range of object `o` covers page `pn`. */
  predicate Covered(st: Store, o: ObjId, pn: nat) { o in st.trees && pn in st.trees[o] }

  /** A range's backing exists; a single page backs exactly one page number. */
  ghost predicate RangeOk(st: Store, r: PageRange) {
    match r.backing
    case Nothing => false
    case Single(p) => p in st.pages && r.length == 1 && r.offset == 0
    case Many(v) => v in st.vecs
  }

  /** The range that covers page `pn` of object `o` is on backing `b`. */
  predicate Holds(st: Store, o: ObjId, pn: nat, b: Backing) {
    Covered(st, o, pn) && st.trees[o][pn].backing == b
  }

  /** Some range holds page `p` directly. */
  ghost predicate HeldSingly(st: Store, p: PageId) {
    exists o, pn :: Holds(st, o, pn, Single(p))
  }

  /** Page `p` is entry `i` of vector `v`. */
  predicate InVec(vecs: map<VecId, PageVec>, v: VecId, i: int, p: PageId) {
    v in vecs && i in vecs[v] && vecs[v][i] == p
  }

  /** A page sits in at most one place of one vector, or is held by ranges
      directly, never both. */
  ghost predicate Placed(st: Store) {
    && (forall v, i, w, j, p :: InVec(st.vecs, v, i, p) && InVec(st.vecs, w, j, p) ==> v == w && i == j)
    && (forall v, i, p :: InVec(st.vecs, v, i, p) ==> p in st.pages && !HeldSingly(st, p))
  }

  ghost predicate StoreOk(st: Store) {
    && (forall o :: o in st.trees ==> TreeOk(st.trees[o]))
    && (forall o, pn :: Covered(st, o, pn) ==> RangeOk(st, st.trees[o][pn]))
    && (forall p :: p in st.pages ==> |st.pages[p]| == PAGE_SIZE)
    && Placed(st)
  }

  /** `is_shared`: a second range holds the backing of range `r` of object `o`. */
  predicate IsShared(st: Store, o: ObjId, r: PageRange) {
    exists o', q :: o' in st.trees && q in st.trees[o'] && Holds(st, o', q, r.backing) &&
      !(o' == o && st.trees[o'][q] == r)
  }

  /** Page `p` is what object `o` has at `pn`, and nobody has it anywhere else. */
  ghost predicate OnlyAt(st: Store, o: ObjId, pn: nat, p: PageId) {
    && PageAt(st, o, pn) == Some(p)
    && (forall o', q: nat :: PageAt(st, o', q) == Some(p) ==> o' == o && q == pn)
  }

  /** The bytes of page `pn` of object `o`. */
  function Content(st: Store, o: ObjId, pn: nat): Option<seq<byte>> {
    match PageAt(st, o, pn)
    case None => None
    case Some(p) => if p in st.pages then Some(st.pages[p]) else None
  }

  /** No object's contents differ between two stores. */
  ghost predicate SameContents(a: Store, b: Store) {
    forall o, pn: nat :: Content(a, o, pn) == Content(b, o, pn)
  }

  lemma PageExists(st: Store, o: ObjId, pn: nat)
    requires StoreOk(st) && PageAt(st, o, pn).Some?
    ensures PageAt(st, o, pn).value in st.pages
  {
    var r := st.trees[o][pn];
    assert RangeOk(st, r);
    if r.backing.Many? {
      assert InVec(st.vecs, r.backing.vec, r.Index(pn), PageAt(st, o, pn).value);
    }
  }

  /** Two places that show one page show it through one backing and index. */
  lemma SamePageSameSlot(st: Store, o: ObjId, pn: nat, o': ObjId, q: nat)
    requires StoreOk(st) && PageAt(st, o, pn).Some? && PageAt(st, o', q) == PageAt(st, o, pn)
    ensures SlotAt(st, o, pn) == SlotAt(st, o', q)
  {
    var p := PageAt(st, o, pn).value;
    var r, x := st.trees[o][pn], st.trees[o'][q];
    assert RangeOk(st, r) && RangeOk(st, x);
    if r.backing.Many? { assert InVec(st.vecs, r.backing.vec, r.Index(pn), p); }
    if x.backing.Many? { assert InVec(st.vecs, x.backing.vec, x.Index(q), p); }
    if r.backing.Single? { assert Holds(st, o, pn, Single(p)); }
    if x.backing.Single? { assert Holds(st, o', q, Single(p)); }
  }

  /** A page of an unshared range is reachable from nowhere else. */
  lemma UnsharedIsExclusive(st: Store, o: ObjId, pn: nat)
    requires StoreOk(st) && PageAt(st, o, pn).Some? && !IsShared(st, o, st.trees[o][pn])
    ensures OnlyAt(st, o, pn, PageAt(st, o, pn).value)
  {
    var p := PageAt(st, o, pn).value;
    forall o', q: nat | PageAt(st, o', q) == Some(p) ensures o' == o && q == pn {
      SamePageSameSlot(st, o, pn, o', q);
      assert Holds(st, o', q, st.trees[o][pn].backing);
    }
  }

  /** A page that does not exist yet is not held. */
  lemma FreshNotHeld(st: Store, np: PageId)
    requires StoreOk(st) && np !in st.pages
    ensures !HeldSingly(st, np)
    ensures forall v, i :: !InVec(st.vecs, v, i, np)
  {
    forall o, q ensures !Holds(st, o, q, Single(np)) {
      if Covered(st, o, q) { assert RangeOk(st, st.trees[o][q]); }
    }
  }

  // Stores that differ by one spliced range.

  /** Object `o` has range `r` spliced in; every other tree is as before. */
  ghost predicate SplicedAt(st': Store, st: Store, o: ObjId, r: PageRange) {
    && o in st.trees && o in st'.trees && r.length > 0
    && TreeOk(st'.trees[o]) && Spliced(st'.trees[o], st.trees[o], r)
    && (forall o' :: o' != o ==> (o' in st'.trees <==> o' in st.trees))
    && (forall o' :: o' != o && o' in st.trees ==> st'.trees[o'] == st.trees[o'])
  }

  lemma SplicedSlot(st': Store, st: Store, o: ObjId, r: PageRange, o': ObjId, q: nat)
    requires SplicedAt(st', st, o, r)
    ensures SlotAt(st', o', q) == if o' == o && r.Covers(q) then Some((r.backing, r.Index(q))) else SlotAt(st, o', q)
  {
    if o' == o && !r.Covers(q) && q in st.trees[o] { assert IsPiece(st'.trees[o][q], st.trees[o][q]); }
  }

  /** The range at a place is the spliced one or a piece of the range that was there. */
  lemma SplicedRange(st': Store, st: Store, o: ObjId, r: PageRange, o': ObjId, q: nat)
    requires SplicedAt(st', st, o, r) && StoreOk(st) && Covered(st', o', q)
    ensures (o' == o && r.Covers(q) && st'.trees[o'][q] == r) ||
            (!(o' == o && r.Covers(q)) && Covered(st, o', q) && IsPiece(st'.trees[o'][q], st.trees[o'][q]))
  {
    if o' == o && r.Covers(q) {
    } else if o' == o {
      assert q in st.trees[o];
    } else {
      assert st.trees[o'][q].Covers(q);
    }
  }

  /** Ranges of every object stay well-formed, and no page but that of `r` starts
      to be held directly. */
  lemma SplicedRanges(st': Store, st: Store, o: ObjId, r: PageRange)
    requires SplicedAt(st', st, o, r) && StoreOk(st) && RangeOk(st', r)
    requires forall p :: p in st.pages ==> p in st'.pages
    requires forall v :: v in st.vecs ==> v in st'.vecs
    ensures forall o' :: o' in st'.trees ==> TreeOk(st'.trees[o'])
    ensures forall o', q :: Covered(st', o', q) ==> RangeOk(st', st'.trees[o'][q])
    ensures forall p :: HeldSingly(st', p) ==> HeldSingly(st, p) || r.backing == Single(p)
  {
    forall o', q | Covered(st', o', q) ensures RangeOk(st', st'.trees[o'][q]) {
      SplicedRange(st', st, o, r, o', q);
      if Covered(st, o', q) { assert RangeOk(st, st.trees[o'][q]); }
    }
    forall p | HeldSingly(st', p) ensures HeldSingly(st, p) || r.backing == Single(p) {
      var o', q :| Holds(st', o', q, Single(p));
      SplicedRange(st', st, o, r, o', q);
      assert r.backing == Single(p) || Holds(st, o', q, Single(p));
    }
  }

  /** New trees over the same vectors and pages. */
  lemma NewTreesOk(st': Store, st: Store)
    requires StoreOk(st) && st'.vecs == st.vecs && st'.pages == st.pages
    requires forall o :: o in st'.trees ==> TreeOk(st'.trees[o])
    requires forall o, q :: Covered(st', o, q) ==> RangeOk(st', st'.trees[o][q])
    requires forall p :: HeldSingly(st', p) ==> HeldSingly(st, p)
    ensures StoreOk(st')
  {
  }

  // Giving a place a private copy of its shared page.

  /** The store after page `pn` of object `o` was given a private copy, `np`, of
      its shared page: the range is split in three and the middle part moved to a
      new single page or a new one-page vector `nv`. */
  function CloneStore(st: Store, o: ObjId, pn: nat, np: PageId, nv: VecId): Store
    requires Content(st, o, pn).Some? && st.trees[o][pn].Covers(pn)
  {
    var r := st.trees[o][pn];
    Store(st.trees[o := SplitThree(st.trees[o], pn, CloneBacking(r, np, nv))],
          if r.backing.Single? then st.vecs else st.vecs[nv := map[r.Index(pn) := np]],
          st.pages[np := Content(st, o, pn).value])
  }

  function CloneBacking(r: PageRange, np: PageId, nv: VecId): Backing {
    if r.backing.Single? then Single(np) else Many(nv)
  }

  lemma ContentExists(st: Store, o: ObjId, pn: nat)
    requires StoreOk(st)
    ensures PageAt(st, o, pn).Some? <==> Content(st, o, pn).Some?
    ensures Content(st, o, pn).Some? ==> Covered(st, o, pn) && st.trees[o][pn].Covers(pn)
  {
    if PageAt(st, o, pn).Some? { PageExists(st, o, pn); }
  }

  lemma SplitSplices(t: Tree, pn: nat, middle: Backing)
    requires TreeOk(t) && pn in t
    ensures TreeOk(SplitThree(t, pn, middle))
    ensures Spliced(SplitThree(t, pn, middle), t, PageRange(pn, 1, t[pn].Index(pn), middle))
  {
    SplitThreeOk(t, pn, middle);
    forall q: nat | q != pn && q in t
      ensures Trimmed(SplitThree(t, pn, middle)[q], t[q], PageRange(pn, 1, t[pn].Index(pn), middle), q)
    {
      SplitThreeAt(t, pn, middle, q);
    }
    SplitThreeAt(t, pn, middle, pn);
  }

  lemma CloneSplices(st: Store, o: ObjId, pn: nat, np: PageId, nv: VecId)
    requires StoreOk(st) && PageAt(st, o, pn).Some?
    ensures Content(st, o, pn).Some? && st.trees[o][pn].Covers(pn)
    ensures var r := st.trees[o][pn];
      SplicedAt(CloneStore(st, o, pn, np, nv), st, o, PageRange(pn, 1, r.Index(pn), CloneBacking(r, np, nv)))
  {
    ContentExists(st, o, pn);
    var r := st.trees[o][pn];
    SplitSplices(st.trees[o], pn, CloneBacking(r, np, nv));
  }

  lemma ResolveKept(vecs: map<VecId, PageVec>, vecs': map<VecId, PageVec>, s: Option<(Backing, int)>)
    requires forall v :: v in vecs ==> v in vecs' && vecs'[v] == vecs[v]
    requires s.Some? && s.value.0.Many? ==> s.value.0.vec in vecs
    ensures Resolve(vecs', s) == Resolve(vecs, s)
  {
  }

  /** What a place shows is on a vector that exists. */
  lemma SlotVecOld(st: Store, o: ObjId, q: nat)
    requires StoreOk(st)
    ensures SlotAt(st, o, q).Some? && SlotAt(st, o, q).value.0.Many? ==> SlotAt(st, o, q).value.0.vec in st.vecs
  {
    if Covered(st, o, q) { assert RangeOk(st, st.trees[o][q]); }
  }

  lemma CloneSlot(st: Store, o: ObjId, pn: nat, np: PageId, nv: VecId, o': ObjId, q: nat)
    requires StoreOk(st) && Content(st, o, pn).Some? && st.trees[o][pn].Covers(pn)
    ensures var r := st.trees[o][pn];
      SlotAt(CloneStore(st, o, pn, np, nv), o', q) ==
        if o' == o && q == pn then Some((CloneBacking(r, np, nv), r.Index(pn))) else SlotAt(st, o', q)
  {
    var r, st' := st.trees[o][pn], CloneStore(st, o, pn, np, nv);
    var w := PageRange(pn, 1, r.Index(pn), CloneBacking(r, np, nv));
    CloneSplices(st, o, pn, np, nv);
    assert w.Index(pn) == r.Index(pn) && (w.Covers(q) <==> q == pn);
    SplicedSlot(st', st, o, w, o', q);
  }

  lemma ClonePageAt(st: Store, o: ObjId, pn: nat, np: PageId, nv: VecId, o': ObjId, q: nat)
    requires StoreOk(st) && Content(st, o, pn).Some? && st.trees[o][pn].Covers(pn) && nv !in st.vecs
    ensures PageAt(CloneStore(st, o, pn, np, nv), o', q) == if o' == o && q == pn then Some(np) else PageAt(st, o', q)
  {
    var r, vecs' := st.trees[o][pn], CloneStore(st, o, pn, np, nv).vecs;
    CloneSlot(st, o, pn, np, nv, o', q);
    if o' == o && q == pn {
      assert RangeOk(st, r);
      CloneResolves(st.vecs, vecs', r, pn, np, nv);
    } else {
      SlotVecOld(st, o', q);
      ResolveKept(st.vecs, vecs', SlotAt(st, o', q));
    }
  }

  /** The new backing holds the copy at the old index. */
  lemma CloneResolves(vecs: map<VecId, PageVec>, vecs': map<VecId, PageVec>, r: PageRange, pn: nat, np: PageId,
                      nv: VecId)
    requires r.Covers(pn) && (r.backing.Single? ==> r.length == 1 && r.offset == 0)
    requires vecs' == if r.backing.Single? then vecs else vecs[nv := map[r.Index(pn) := np]]
    ensures Resolve(vecs', Some((CloneBacking(r, np, nv), r.Index(pn)))) == Some(np)
  {
  }

  lemma CloneOk(st: Store, o: ObjId, pn: nat, np: PageId, nv: VecId)
    requires StoreOk(st) && Content(st, o, pn).Some? && st.trees[o][pn].Covers(pn) && np !in st.pages && nv !in st.vecs
    ensures StoreOk(CloneStore(st, o, pn, np, nv))
  {
    var r, st' := st.trees[o][pn], CloneStore(st, o, pn, np, nv);
    var w := PageRange(pn, 1, r.Index(pn), CloneBacking(r, np, nv));
    assert RangeOk(st, r);
    CloneSplices(st, o, pn, np, nv);
    SplicedRanges(st', st, o, w);
    ClonePlaced(st, st', r, pn, np, nv);
  }

  /** The new page goes to one place that no other page has. */
  lemma ClonePlaced(st: Store, st': Store, r: PageRange, pn: nat, np: PageId, nv: VecId)
    requires StoreOk(st) && np !in st.pages && nv !in st.vecs && np in st'.pages
    requires st'.vecs == if r.backing.Single? then st.vecs else st.vecs[nv := map[r.Index(pn) := np]]
    requires forall p :: p in st.pages ==> p in st'.pages
    requires forall p :: HeldSingly(st', p) ==> HeldSingly(st, p) || (r.backing.Single? && p == np)
    ensures Placed(st')
  {
    FreshNotHeld(st, np);
    forall v, i, p | InVec(st'.vecs, v, i, p)
      ensures InVec(st.vecs, v, i, p) || (!r.backing.Single? && v == nv && i == r.Index(pn) && p == np)
    {
    }
  }

  /** Copy-on-write isolation, at the level of pages: after the clone only place
      (o, pn) shows the new page, and every other place of every object shows the
      page it showed before. */
  lemma CloneKeeps(st: Store, o: ObjId, pn: nat, np: PageId, nv: VecId)
    requires StoreOk(st) && Content(st, o, pn).Some? && st.trees[o][pn].Covers(pn) && np !in st.pages && nv !in st.vecs
    ensures StoreOk(CloneStore(st, o, pn, np, nv))
    ensures SameContents(CloneStore(st, o, pn, np, nv), st)
    ensures OnlyAt(CloneStore(st, o, pn, np, nv), o, pn, np)
  {
    CloneOk(st, o, pn, np, nv);
    var st' := CloneStore(st, o, pn, np, nv);
    forall o', q: nat
      ensures Content(st', o', q) == Content(st, o', q)
      ensures PageAt(st', o', q) == Some(np) <==> o' == o && q == pn
    {
      if PageAt(st, o', q).Some? { PageExists(st, o', q); }
      ClonePageAt(st, o, pn, np, nv, o', q);
    }
  }

  // Adding a page.

  /** `PageRange::add_page`: the range and the vectors after page `p` was put at
      `pn`, which lies in the range's window. */
  function PlaceInRange(vecs: map<VecId, PageVec>, r: PageRange, pn: nat, p: PageId, nv: VecId)
    : (PageRange, map<VecId, PageVec>)
    requires r.backing.Many? ==> r.backing.vec in vecs
  {
    match r.backing
    case Nothing => (r.(backing := Single(p)), vecs)
    case Single(q) => (r.(backing := Many(nv), offset := 0), vecs[nv := map[0 := q][pn - r.start := p]])
    case Many(v) => var pv: PageVec := vecs[v]; (r, vecs[v := pv[r.Index(pn) := p]])
  }

  /** The range before `pn` that `add_page` would rather extend than start a new one. */
  function Extendable(st: Store, o: ObjId, pn: nat): Option<PageRange>
    requires o in st.trees
  {
    match LastBefore(st.trees[o], pn)
    case None => None
    case Some(prev) =>
      if !IsShared(st, o, prev) && pn - (prev.End() - 1) <= MAX_EXTENSION_ALLOWED then Some(prev) else None
  }

  /** The range that will take the page, and the tree it was taken out of: the
      page's own part of a shared range, cut out with an empty backing; the range
      that covers the page; a range before it, extended; or a new one. */
  function Target(st: Store, o: ObjId, pn: nat, hasAllocator: bool): (PageRange, Tree)
    requires StoreOk(st) && o in st.trees
  {
    var t := st.trees[o];
    if pn in t then
      if IsShared(st, o, t[pn]) && hasAllocator then
        var middle := PageRange(pn, 1, t[pn].Index(pn), Nothing);
        (middle, Remove(SplitThree(t, pn, Nothing), middle))
      else
        (t[pn], Remove(t, t[pn]))
    else
      match Extendable(st, o, pn)
      case Some(prev) => (prev.(length := pn + 1 - prev.start), Remove(t, prev))
      case None => (PageRange(pn, 1, 0, Nothing), t)
  }

  /** Page `p` is placed in range `r`, which left the tree `rest` of object `o`; then
      the range goes back in. */
  function PutBack(st: Store, o: ObjId, rest: Tree, r: PageRange, pn: nat, p: PageId, nv: VecId): Store
    requires r.backing.Many? ==> r.backing.vec in st.vecs
  {
    var (r', vecs') := PlaceInRange(st.vecs, r, pn, p, nv);
    Store(st.trees[o := InsertReplace(rest, r')], vecs', st.pages)
  }

  /** `PageRangeTree::add_page`, with or without an allocator. */
  function AddPageStore(st: Store, o: ObjId, pn: nat, p: PageId, hasAllocator: bool, nv: VecId): Store
    requires StoreOk(st) && o in st.trees
  {
    var (r, rest) := Target(st, o, pn, hasAllocator);
    TargetOk(st, o, pn, hasAllocator);
    PutBack(st, o, rest, r, pn, p, nv)
  }

  lemma BeforeGap(t: Tree, pn: nat)
    requires TreeOk(t) && pn !in t && LastBefore(t, pn).Some?
    ensures var prev := LastBefore(t, pn).value; Entry(t, prev) && prev.End() <= pn && Gap(t, prev.End(), pn + 1)
  {
    var prev := LastBefore(t, pn).value;
    var q :| 0 <= q < pn && q in t && t[q] == prev && forall x :: q < x < pn ==> x !in t;
    EntryAt(t, q);
    if prev.End() > pn { assert t[q].Covers(pn); }
    forall x | prev.End() <= x < pn + 1 ensures x !in t {}
  }

  /** The target covers the page, and is fit to take it. */
  lemma TargetOk(st: Store, o: ObjId, pn: nat, hasAllocator: bool)
    requires StoreOk(st) && o in st.trees
    ensures var r := Target(st, o, pn, hasAllocator).0;
      && r.Covers(pn) && r.length > 0
      && (r.backing.Many? ==> r.backing.vec in st.vecs)
      && (r.backing.Nothing? ==> r.length == 1)
      && (r.backing.Single? ==> r.offset == 0 && Holds(st, o, r.start, r.backing) && st.trees[o][r.start].length == 1)
      && (r.backing.Single? && pn in st.trees[o] ==> r.start == pn)
  {
    var t := st.trees[o];
    if pn in t {
      EntryAt(t, pn);
      assert RangeOk(st, t[pn]);
    } else if Extendable(st, o, pn).Some? {
      BeforeGap(t, pn);
      var prev := Extendable(st, o, pn).value;
      assert RangeOk(st, t[prev.start]);
    }
  }

  /** An unshared range takes a page up to sixteen past its end and no further; otherwise
      the page gets a range of its own. */
  lemma ExtensionLimit(st: Store, o: ObjId, pn: nat, hasAllocator: bool)
    requires StoreOk(st) && o in st.trees && pn !in st.trees[o]
    ensures var r, before := Target(st, o, pn, hasAllocator).0, LastBefore(st.trees[o], pn);
      if before.Some? && !IsShared(st, o, before.value) && pn < before.value.End() + 16
      then r == before.value.(length := pn + 1 - before.value.start)
      else r == PageRange(pn, 1, 0, Nothing)
  {
    if LastBefore(st.trees[o], pn).Some? { BeforeGap(st.trees[o], pn); }
  }

  /** Putting the target back with any backing splices it into the tree. */
  lemma TargetSplices(st: Store, o: ObjId, pn: nat, hasAllocator: bool, r': PageRange)
    requires StoreOk(st) && o in st.trees
    requires r'.start == Target(st, o, pn, hasAllocator).0.start &&
      r'.length == Target(st, o, pn, hasAllocator).0.length
    ensures TreeOk(InsertReplace(Target(st, o, pn, hasAllocator).1, r'))
    ensures Spliced(InsertReplace(Target(st, o, pn, hasAllocator).1, r'), st.trees[o], r')
  {
    var t := st.trees[o];
    if pn in t {
      EntryAt(t, pn);
      if IsShared(st, o, t[pn]) && hasAllocator {
        DiscardSplices(t, pn, r');
      } else {
        ReplaceSplices(t, t[pn], r');
      }
    } else if Extendable(st, o, pn).Some? {
      BeforeGap(t, pn);
      ReplaceSplices(t, Extendable(st, o, pn).value, r');
    } else {
      InsertInGap(t, r');
      AddedSplices(InsertReplace(t, r'), t, r');
    }
  }

  lemma AddedSplices(t': Tree, t: Tree, r: PageRange)
    requires TreeOk(t) && Added(t', t, r)
    ensures Spliced(t', t, r)
  {
    forall pn: nat | !r.Covers(pn) && pn in t ensures Trimmed(t'[pn], t[pn], r, pn) {
      EntryAt(t, pn);
    }
  }

  lemma ReplaceSplices(t: Tree, r: PageRange, r': PageRange)
    requires TreeOk(t) && Entry(t, r) && r'.start == r.start && r.length <= r'.length
    requires Gap(t, r.End(), r'.End())
    ensures TreeOk(InsertReplace(Remove(t, r), r')) && Spliced(InsertReplace(Remove(t, r), r'), t, r')
  {
    forall pn: nat | r'.Covers(pn) ensures pn !in Remove(t, r) {
      if r.Covers(pn) { assert t[r.start].Covers(pn); }
    }
    ReplaceOk(t, r, r');
    RemoveOk(t, r);
    AddedSplices(InsertReplace(Remove(t, r), r'), Remove(t, r), r');
  }

  lemma DiscardSplices(t: Tree, pn: nat, r': PageRange)
    requires TreeOk(t) && pn in t && r'.start == pn && r'.length == 1
    ensures var mid := PageRange(pn, 1, t[pn].Index(pn), Nothing);
      var t' := InsertReplace(Remove(SplitThree(t, pn, Nothing), mid), r');
      TreeOk(t') && Spliced(t', t, r')
  {
    var mid := PageRange(pn, 1, t[pn].Index(pn), Nothing);
    var t1 := SplitThree(t, pn, Nothing);
    SplitSplices(t, pn, Nothing);
    SplitThreeAt(t, pn, Nothing, pn);
    ReplaceSplices(t1, mid, r');
    SpliceTwice(InsertReplace(Remove(t1, mid), r'), t1, t, mid, r');
  }

  lemma SpliceTwice(t2: Tree, t1: Tree, t: Tree, r1: PageRange, r2: PageRange)
    requires Spliced(t1, t, r1) && Spliced(t2, t1, r2) && r1.start == r2.start && r1.length == r2.length
    ensures Spliced(t2, t, r2)
  {
    forall pn: nat | !r2.Covers(pn) ensures (pn in t2 <==> pn in t) && (pn in t ==> Trimmed(t2[pn], t[pn], r2, pn)) {
      if pn in t { assert Trimmed(t1[pn], t[pn], r1, pn); }
    }
  }

  /** The store after page `p` was placed in target `r` of object `o`. */
  ghost predicate AddedAs(st': Store, st: Store, o: ObjId, r: PageRange, pn: nat, p: PageId, nv: VecId) {
    && (r.backing.Many? ==> r.backing.vec in st.vecs)
    && SplicedAt(st', st, o, PlaceInRange(st.vecs, r, pn, p, nv).0)
    && st'.vecs == PlaceInRange(st.vecs, r, pn, p, nv).1 && st'.pages == st.pages
  }

  lemma AddPageSplices(st: Store, o: ObjId, pn: nat, p: PageId, hasAllocator: bool, nv: VecId)
    requires StoreOk(st) && o in st.trees
    ensures AddedAs(AddPageStore(st, o, pn, p, hasAllocator, nv), st, o, Target(st, o, pn, hasAllocator).0, pn, p, nv)
  {
    TargetOk(st, o, pn, hasAllocator);
    var r := Target(st, o, pn, hasAllocator).0;
    TargetSplices(st, o, pn, hasAllocator, PlaceInRange(st.vecs, r, pn, p, nv).0);
  }

  /** A page that exists and is held by nobody. */
  ghost predicate Unheld(st: Store, p: PageId) {
    p in st.pages && !HeldSingly(st, p) && forall v, i :: !InVec(st.vecs, v, i, p)
  }

  /** An unheld page is shown nowhere. */
  lemma UnheldNotShown(st: Store, p: PageId, o: ObjId, q: nat)
    requires Unheld(st, p)
    ensures PageAt(st, o, q) != Some(p)
  {
    if Covered(st, o, q) {
      var r := st.trees[o][q];
      if r.backing.Many? { assert !InVec(st.vecs, r.backing.vec, r.Index(q), p); }
      if r.backing.Single? { assert !(r.backing.page == p) || Holds(st, o, q, Single(p)); }
    }
  }

  /** `add_page` puts page `p` at place (o, pn) and changes no other place. */
  ghost predicate IsUpdate(st': Store, st: Store, o: ObjId, pn: nat, p: PageId) {
    && StoreOk(st')
    && forall o', q: nat :: PageAt(st', o', q) == if o' == o && q == pn then Some(p) else PageAt(st, o', q)
  }

  /** When `add_page` is an update of one place: a page cut out of a shared range
      must have been at the very start of its backing; otherwise the entry written
      must not be shown anywhere else, and an extended range must have nothing in
      its vector past its window. */
  ghost predicate AddPageOk(st: Store, o: ObjId, pn: nat, hasAllocator: bool)
    requires StoreOk(st) && o in st.trees
  {
    var t := st.trees[o];
    if pn in t then
      IsShared(st, o, t[pn]) ==>
        if hasAllocator then t[pn].Index(pn) == 0
        else t[pn].backing.Many? ==> forall o', q: nat :: SlotAt(st, o', q) == SlotAt(st, o, pn) ==> o' == o && q == pn
    else
      match Extendable(st, o, pn)
      case None => true
      case Some(prev) =>
        prev.backing.Many? && prev.backing.vec in st.vecs ==>
          forall q | prev.End() <= q < pn :: prev.Index(q) !in st.vecs[prev.backing.vec]
  }

  /** A new range, or one cut out with an empty backing, takes the page as its only
      one: an update exactly if its index is 0. */
  lemma AddSingleIff(st: Store, o: ObjId, pn: nat, p: PageId, hasAllocator: bool, nv: VecId)
    requires StoreOk(st) && o in st.trees && Unheld(st, p) && Target(st, o, pn, hasAllocator).0.backing.Nothing?
    ensures var r := Target(st, o, pn, hasAllocator).0;
      IsUpdate(AddPageStore(st, o, pn, p, hasAllocator, nv), st, o, pn, p) <==> r.Index(pn) == 0
  {
    var r, st' := Target(st, o, pn, hasAllocator).0, AddPageStore(st, o, pn, p, hasAllocator, nv);
    TargetOk(st, o, pn, hasAllocator);
    AddPageSplices(st, o, pn, p, hasAllocator, nv);
    SinglePut(st, st', o, pn, p, r.(backing := Single(p)));
  }

  lemma SinglePut(st: Store, st': Store, o: ObjId, pn: nat, p: PageId, r: PageRange)
    requires StoreOk(st) && Unheld(st, p) && st'.pages == st.pages && st'.vecs == st.vecs
    requires SplicedAt(st', st, o, r) && r == PageRange(pn, 1, r.offset, Single(p))
    ensures IsUpdate(st', st, o, pn, p) <==> r.offset == 0
  {
    SplicedSlot(st', st, o, r, o, pn);
    if r.offset == 0 {
      SinglePutOk(st, st', o, p, r);
      forall o', q: nat ensures PageAt(st', o', q) == if o' == o && q == pn then Some(p) else PageAt(st, o', q) {
        SplicedSlot(st', st, o, r, o', q);
      }
    }
  }

  lemma SinglePutOk(st: Store, st': Store, o: ObjId, p: PageId, r: PageRange)
    requires StoreOk(st) && Unheld(st, p) && st'.pages == st.pages && st'.vecs == st.vecs
    requires SplicedAt(st', st, o, r) && r.backing == Single(p) && r.offset == 0 && r.length == 1
    ensures StoreOk(st')
  {
    SplicedRanges(st', st, o, r);
  }

  /** The pages of the target's window that a range covered before are shown by the
      target as they were. */
  lemma TargetShows(st: Store, o: ObjId, pn: nat, hasAllocator: bool, q: nat)
    requires StoreOk(st) && o in st.trees && !Target(st, o, pn, hasAllocator).0.backing.Nothing?
    requires Target(st, o, pn, hasAllocator).0.Covers(q)
    ensures var r := Target(st, o, pn, hasAllocator).0;
      && (q in st.trees[o] ==> SlotAt(st, o, q) == Some((r.backing, r.Index(q))))
      && (pn in st.trees[o] ==> q in st.trees[o])
      && (pn !in st.trees[o] ==>
          Extendable(st, o, pn).Some? && (q in st.trees[o] <==> q < Extendable(st, o, pn).value.End()))
  {
    var t := st.trees[o];
    if pn in t {
      assert t[pn].Covers(q);
    } else {
      BeforeGap(t, pn);
      var prev := Extendable(st, o, pn).value;
      if q < prev.End() { assert t[prev.start].Covers(q); }
    }
  }

  /** A range on a single page moves, with the new page, into a new vector: always
      an update. */
  lemma AddOverSingle(st: Store, o: ObjId, pn: nat, p: PageId, hasAllocator: bool, nv: VecId)
    requires StoreOk(st) && o in st.trees && Unheld(st, p) && nv !in st.vecs
    requires Target(st, o, pn, hasAllocator).0.backing.Single?
    ensures IsUpdate(AddPageStore(st, o, pn, p, hasAllocator, nv), st, o, pn, p)
  {
    var r, st' := Target(st, o, pn, hasAllocator).0, AddPageStore(st, o, pn, p, hasAllocator, nv);
    AddPageSplices(st, o, pn, p, hasAllocator, nv);
    OverSingleUpdates(st, st', o, pn, p, hasAllocator, nv, r);
  }

  lemma OverSingleUpdates(st: Store, st': Store, o: ObjId, pn: nat, p: PageId, hasAllocator: bool, nv: VecId,
                          r: PageRange)
    requires StoreOk(st) && o in st.trees && Unheld(st, p) && nv !in st.vecs
    requires r == Target(st, o, pn, hasAllocator).0 && r.backing.Single? && AddedAs(st', st, o, r, pn, p, nv)
    ensures IsUpdate(st', st, o, pn, p)
  {
    OverSingleOk(st, st', o, pn, p, hasAllocator, nv, r);
    forall o', q: nat ensures PageAt(st', o', q) == if o' == o && q == pn then Some(p) else PageAt(st, o', q) {
      OverSinglePageAt(st, st', o, pn, p, hasAllocator, nv, r, o', q);
    }
  }

  lemma OverSingleOk(st: Store, st': Store, o: ObjId, pn: nat, p: PageId, hasAllocator: bool, nv: VecId, r: PageRange)
    requires StoreOk(st) && o in st.trees && Unheld(st, p) && nv !in st.vecs
    requires r == Target(st, o, pn, hasAllocator).0 && r.backing.Single? && AddedAs(st', st, o, r, pn, p, nv)
    ensures StoreOk(st')
  {
    OverSingleMoves(st.vecs, st'.vecs, nv, r.backing.page, pn - r.start, p);
    MovedOk(st, st', o, pn, p, hasAllocator, nv, r, r.(backing := Many(nv), offset := 0));
  }

  /** What the new vector adds to the vectors: the new page, and the moved page where
      the new one does not take its place. */
  ghost predicate MovedTo(vecs: map<VecId, PageVec>, vecs': map<VecId, PageVec>, nv: VecId, x: PageId, off: int,
                          p: PageId) {
    && nv in vecs' && (forall v :: v in vecs ==> v in vecs')
    && (forall v, i, y :: InVec(vecs', v, i, y) ==>
          InVec(vecs, v, i, y) || (v == nv && i == off && y == p) || (v == nv && i == 0 && y == x && off != 0))
  }

  lemma OverSingleMoves(vecs: map<VecId, PageVec>, vecs': map<VecId, PageVec>, nv: VecId, x: PageId, off: int,
                        p: PageId)
    requires vecs' == vecs[nv := map[0 := x][off := p]]
    ensures MovedTo(vecs, vecs', nv, x, off, p)
  {
    var pv: PageVec := map[0 := x][off := p];
    assert vecs'[nv] == pv;
  }

  lemma MovedOk(st: Store, st': Store, o: ObjId, pn: nat, p: PageId, hasAllocator: bool, nv: VecId,
                r: PageRange, r': PageRange)
    requires StoreOk(st) && o in st.trees && Unheld(st, p) && nv !in st.vecs && st'.pages == st.pages
    requires r == Target(st, o, pn, hasAllocator).0 && r.backing.Single? && r' == r.(backing := Many(nv), offset := 0)
    requires SplicedAt(st', st, o, r') && MovedTo(st.vecs, st'.vecs, nv, r.backing.page, pn - r.start, p)
    ensures StoreOk(st')
  {
    SplicedRanges(st', st, o, r');
    OverSinglePlaced(st, st', o, pn, p, hasAllocator, nv, r, r');
  }

  lemma OverSinglePageAt(st: Store, st': Store, o: ObjId, pn: nat, p: PageId, hasAllocator: bool, nv: VecId,
                         r: PageRange, o': ObjId, q: nat)
    requires StoreOk(st) && o in st.trees && nv !in st.vecs
    requires r == Target(st, o, pn, hasAllocator).0 && r.backing.Single? && AddedAs(st', st, o, r, pn, p, nv)
    ensures PageAt(st', o', q) == if o' == o && q == pn then Some(p) else PageAt(st, o', q)
  {
    TargetOk(st, o, pn, hasAllocator);
    var w := r.(backing := Many(nv), offset := 0);
    SplicedSlot(st', st, o, w, o', q);
    if o' == o && w.Covers(q) {
      OverSingleShows(st, st'.vecs, o, pn, p, hasAllocator, r, w, q);
    } else {
      SlotVecOld(st, o', q);
      ResolveKept(st.vecs, st'.vecs, SlotAt(st, o', q));
    }
  }

  /** Pages of the moved range: the new page, the old one, or nothing. */
  lemma OverSingleShows(st: Store, vecs': map<VecId, PageVec>, o: ObjId, pn: nat, p: PageId, hasAllocator: bool,
                        r: PageRange, w: PageRange, q: nat)
    requires StoreOk(st) && o in st.trees && r == Target(st, o, pn, hasAllocator).0 && r.backing.Single? && w.Covers(q)
    requires w.backing.Many? && w == r.(backing := w.backing, offset := 0)
    requires vecs' == PlaceInRange(st.vecs, r, pn, p, w.backing.vec).1
    ensures Resolve(vecs', Some((w.backing, w.Index(q)))) == if q == pn then Some(p) else PageAt(st, o, q)
  {
    TargetOk(st, o, pn, hasAllocator);
    TargetShows(st, o, pn, hasAllocator, q);
    SingleShows(st, o, r, q);
    SingleMoved(st.vecs, r.backing.page, pn - r.start, p, w.backing.vec, q - r.start);
  }

  lemma SingleMoved(vecs: map<VecId, PageVec>, x: PageId, off: int, p: PageId, nv: VecId, i: int)
    ensures Resolve(vecs[nv := map[0 := x][off := p]], Some((Many(nv), i))) ==
      if i == off then Some(p) else if i == 0 then Some(x) else None
  {
  }

  lemma SingleShows(st: Store, o: ObjId, r: PageRange, q: nat)
    requires StoreOk(st) && o in st.trees && r.backing.Single? && r.offset == 0 && r.Covers(q)
    requires Holds(st, o, r.start, r.backing)
    requires q in st.trees[o] ==> SlotAt(st, o, q) == Some((r.backing, r.Index(q)))
    ensures PageAt(st, o, q) == if q == r.start then Some(r.backing.page) else None
  {
    if q in st.trees[o] { assert RangeOk(st, st.trees[o][q]); }
  }

  lemma OverSinglePlaced(st: Store, st': Store, o: ObjId, pn: nat, p: PageId, hasAllocator: bool, nv: VecId,
                         r: PageRange, r': PageRange)
    requires StoreOk(st) && o in st.trees && Unheld(st, p) && nv !in st.vecs && st'.pages == st.pages
    requires r == Target(st, o, pn, hasAllocator).0 && r.backing.Single? && r' == r.(backing := Many(nv), offset := 0)
    requires SplicedAt(st', st, o, r') && MovedTo(st.vecs, st'.vecs, nv, r.backing.page, pn - r.start, p)
    requires forall y :: HeldSingly(st', y) ==> HeldSingly(st, y)
    ensures Placed(st')
  {
    var x := r.backing.page;
    TargetOk(st, o, pn, hasAllocator);
    if pn != r.start { ExtendedNotHeld(st, st', o, pn, hasAllocator, r, r'); }
    assert RangeOk(st, st.trees[o][r.start]);
    assert HeldSingly(st, x);
  }

  /** A single page that was moved into a vector by extending its range is no longer
      held directly. */
  lemma ExtendedNotHeld(st: Store, st': Store, o: ObjId, pn: nat, hasAllocator: bool, r: PageRange, r': PageRange)
    requires StoreOk(st) && o in st.trees && r == Target(st, o, pn, hasAllocator).0 && r.backing.Single?
    requires pn != r.start && pn !in st.trees[o]
    requires r'.start == r.start && r'.length == r.length && !r'.backing.Single? && SplicedAt(st', st, o, r')
    ensures !HeldSingly(st', r.backing.page)
  {
    var t := st.trees[o];
    BeforeGap(t, pn);
    var prev := Extendable(st, o, pn).value;
    forall o', q ensures !Holds(st', o', q, r.backing) {
      if Covered(st', o', q) {
        SplicedRange(st', st, o, r', o', q);
        assert Covered(st, o', q) ==> (Holds(st, o', q, r.backing) <==> o' == o && st.trees[o'][q] == prev);
      }
    }
  }

  /** A range on a vector: the page goes into the vector, and whoever shows that
      entry shows the page. */
  lemma AddToVec(st: Store, o: ObjId, pn: nat, p: PageId, hasAllocator: bool, nv: VecId)
    requires StoreOk(st) && o in st.trees && Unheld(st, p) && Target(st, o, pn, hasAllocator).0.backing.Many?
    ensures StoreOk(AddPageStore(st, o, pn, p, hasAllocator, nv))
    ensures forall o', q: nat ::
      PageAt(AddPageStore(st, o, pn, p, hasAllocator, nv), o', q) ==
        VecPageAt(st, o, pn, p, Target(st, o, pn, hasAllocator).0, o', q)
  {
    var r, st' := Target(st, o, pn, hasAllocator).0, AddPageStore(st, o, pn, p, hasAllocator, nv);
    AddPageSplices(st, o, pn, p, hasAllocator, nv);
    VecWriteOk(st, st', o, pn, p, r);
    forall o', q: nat ensures PageAt(st', o', q) == VecPageAt(st, o, pn, p, r, o', q) {
      SplicedSlot(st', st, o, r, o', q);
      ResolveWritten(st.vecs, r.backing.vec, r.Index(pn), p, SlotAt(st', o', q));
    }
  }

  lemma ResolveWritten(vecs: map<VecId, PageVec>, v: VecId, i: int, p: PageId, s: Option<(Backing, int)>)
    requires v in vecs
    ensures var pv: PageVec := vecs[v];
      Resolve(vecs[v := pv[i := p]], s) == if s == Some((Many(v), i)) then Some(p) else Resolve(vecs, s)
  {
  }

  lemma VecWriteOk(st: Store, st': Store, o: ObjId, pn: nat, p: PageId, r: PageRange)
    requires StoreOk(st) && Unheld(st, p) && st'.pages == st.pages && SplicedAt(st', st, o, r)
    requires r.backing.Many? && r.backing.vec in st.vecs
    requires st'.vecs == var pv: PageVec := st.vecs[r.backing.vec]; st.vecs[r.backing.vec := pv[r.Index(pn) := p]]
    ensures StoreOk(st')
  {
    SplicedRanges(st', st, o, r);
    forall v, i, y | InVec(st'.vecs, v, i, y)
      ensures InVec(st.vecs, v, i, y) || (v == r.backing.vec && i == r.Index(pn) && y == p)
    {
    }
  }

  /** What a place shows once range `r` of object `o` is in and entry `r.Index(pn)`
      of its vector is page `p`. */
  function VecPageAt(st: Store, o: ObjId, pn: nat, p: PageId, r: PageRange, o': ObjId, q: nat): Option<PageId> {
    var s := if o' == o && r.Covers(q) then Some((r.backing, r.Index(q))) else SlotAt(st, o', q);
    if s == Some((r.backing, r.Index(pn))) then Some(p) else Resolve(st.vecs, s)
  }

  /** No other place shows the backing of an unshared range. */
  lemma NotOnBacking(st: Store, o: ObjId, r: PageRange, o': ObjId, q: nat)
    requires !IsShared(st, o, r) && SlotAt(st, o', q).Some? && SlotAt(st, o', q).value.0 == r.backing
    ensures o' == o && Covered(st, o', q) && st.trees[o'][q] == r
  {
    assert Holds(st, o', q, r.backing);
  }

  lemma AddToVecIff(st: Store, o: ObjId, pn: nat, p: PageId, hasAllocator: bool, nv: VecId)
    requires StoreOk(st) && o in st.trees && Unheld(st, p) && pn in st.trees[o]
    requires Target(st, o, pn, hasAllocator).0.backing.Many?
    ensures IsUpdate(AddPageStore(st, o, pn, p, hasAllocator, nv), st, o, pn, p) <==> AddPageOk(st, o, pn, hasAllocator)
  {
    var r, st' := st.trees[o][pn], AddPageStore(st, o, pn, p, hasAllocator, nv);
    AddToVec(st, o, pn, p, hasAllocator, nv);
    forall o', q: nat
      ensures PageAt(st', o', q) == if SlotAt(st, o', q) == SlotAt(st, o, pn) then Some(p) else PageAt(st, o', q)
      ensures PageAt(st, o', q) != Some(p)
      ensures !IsShared(st, o, r) && SlotAt(st, o', q) == SlotAt(st, o, pn) ==> o' == o && q == pn
    {
      VecWrittenAt(st, o, pn, p, hasAllocator, o', q);
      if !IsShared(st, o, r) && SlotAt(st, o', q) == SlotAt(st, o, pn) { NotOnBacking(st, o, r, o', q); }
    }
  }

  /** Whoever shows the entry shows the new page. */
  lemma VecWrittenAt(st: Store, o: ObjId, pn: nat, p: PageId, hasAllocator: bool, o': ObjId, q: nat)
    requires StoreOk(st) && o in st.trees && Unheld(st, p) && pn in st.trees[o]
    requires Target(st, o, pn, hasAllocator).0.backing.Many?
    ensures VecPageAt(st, o, pn, p, Target(st, o, pn, hasAllocator).0, o', q) ==
      if SlotAt(st, o', q) == SlotAt(st, o, pn) then Some(p) else PageAt(st, o', q)
    ensures PageAt(st, o', q) != Some(p)
  {
    UnheldNotShown(st, p, o', q);
    if o' == o && st.trees[o][pn].Covers(q) { TargetShows(st, o, pn, hasAllocator, q); }
  }

  lemma AddExtendsVecIff(st: Store, o: ObjId, pn: nat, p: PageId, hasAllocator: bool, nv: VecId)
    requires StoreOk(st) && o in st.trees && Unheld(st, p) && pn !in st.trees[o]
    requires Target(st, o, pn, hasAllocator).0.backing.Many?
    ensures IsUpdate(AddPageStore(st, o, pn, p, hasAllocator, nv), st, o, pn, p) <==> AddPageOk(st, o, pn, hasAllocator)
  {
    var st', prev := AddPageStore(st, o, pn, p, hasAllocator, nv), Extendable(st, o, pn).value;
    AddToVec(st, o, pn, p, hasAllocator, nv);
    TargetOk(st, o, pn, hasAllocator);
    BeforeGap(st.trees[o], pn);
    forall o', q: nat
      ensures PageAt(st', o', q) ==
        if o' == o && q == pn then Some(p)
        else if o' == o && prev.End() <= q < pn then Resolve(st.vecs, Some((prev.backing, prev.Index(q))))
        else PageAt(st, o', q)
    {
      ExtendedPageAt(st, o, pn, p, hasAllocator, o', q);
    }
    forall q: nat | prev.End() <= q < pn
      ensures PageAt(st, o, q).None? && (PageAt(st', o, q).Some? <==> prev.Index(q) in st.vecs[prev.backing.vec])
    {
    }
  }

  /** Extending an unshared range on a vector: whatever the vector already holds
      past the range's window shows up in the gap. */
  lemma ExtendedPageAt(st: Store, o: ObjId, pn: nat, p: PageId, hasAllocator: bool, o': ObjId, q: nat)
    requires StoreOk(st) && o in st.trees && pn !in st.trees[o] && Target(st, o, pn, hasAllocator).0.backing.Many?
    ensures var prev := Extendable(st, o, pn).value;
      VecPageAt(st, o, pn, p, Target(st, o, pn, hasAllocator).0, o', q) ==
        if o' == o && q == pn then Some(p)
        else if o' == o && prev.End() <= q < pn then Resolve(st.vecs, Some((prev.backing, prev.Index(q))))
        else PageAt(st, o', q)
  {
    var r, prev := Target(st, o, pn, hasAllocator).0, Extendable(st, o, pn).value;
    BeforeGap(st.trees[o], pn);
    if o' == o && r.Covers(q) {
      TargetShows(st, o, pn, hasAllocator, q);
    } else if SlotAt(st, o', q).Some? && SlotAt(st, o', q).value.0 == prev.backing {
      NotOnBacking(st, o, prev, o', q);
      assert false;
    }
  }

  /** `add_page` updates one place of one object exactly under `AddPageOk`. */
  lemma AddPageUpdatesIff(st: Store, o: ObjId, pn: nat, p: PageId, hasAllocator: bool, nv: VecId)
    requires StoreOk(st) && o in st.trees && Unheld(st, p) && nv !in st.vecs
    ensures IsUpdate(AddPageStore(st, o, pn, p, hasAllocator, nv), st, o, pn, p) <==> AddPageOk(st, o, pn, hasAllocator)
  {
    var r := Target(st, o, pn, hasAllocator).0;
    TargetKinds(st, o, pn, hasAllocator);
    if r.backing.Nothing? {
      AddSingleIff(st, o, pn, p, hasAllocator, nv);
    } else if r.backing.Single? {
      AddOverSingle(st, o, pn, p, hasAllocator, nv);
    } else if pn in st.trees[o] {
      AddToVecIff(st, o, pn, p, hasAllocator, nv);
    } else {
      AddExtendsVecIff(st, o, pn, p, hasAllocator, nv);
    }
  }

  lemma TargetKinds(st: Store, o: ObjId, pn: nat, hasAllocator: bool)
    requires StoreOk(st) && o in st.trees
    ensures var r := Target(st, o, pn, hasAllocator).0;
      && (r.backing.Nothing? ==> (r.Index(pn) == 0 <==> AddPageOk(st, o, pn, hasAllocator)))
      && (r.backing.Single? ==> AddPageOk(st, o, pn, hasAllocator))
  {
    var t := st.trees[o];
    if pn in t {
      assert RangeOk(st, t[pn]);
    } else if Extendable(st, o, pn).Some? {
      BeforeGap(t, pn);
      assert RangeOk(st, t[Extendable(st, o, pn).value.start]);
    }
  }

  /** A freshly allocated, zeroed page. */
  function ZeroPage(): (z: seq<byte>)
    ensures |z| == PAGE_SIZE && forall i :: 0 <= i < PAGE_SIZE ==> z[i] == 0
  {
    seq(PAGE_SIZE, _ => 0)
  }

  /** Page `q` of `o` is alone in its range, on a page held directly. */
  ghost predicate OnSingle(st: Store, o: ObjId, q: nat)
    requires Covered(st, o, q)
  {
    var r := st.trees[o][q];
    r.backing.Single? && r == PageRange(q, 1, 0, r.backing) && r.backing.page in st.pages
  }

  lemma SinglesOk(st: Store)
    requires st.vecs == map[] && forall o, q :: Covered(st, o, q) ==> OnSingle(st, o, q)
    requires forall p :: p in st.pages ==> |st.pages[p]| == PAGE_SIZE
    ensures StoreOk(st)
  {
    forall o | o in st.trees ensures TreeOk(st.trees[o]) {
      forall q | q in st.trees[o] ensures st.trees[o][q].start == q && st.trees[o][q].length == 1 {
        assert OnSingle(st, o, q);
      }
    }
    forall o, q | Covered(st, o, q) ensures RangeOk(st, st.trees[o][q]) { assert OnSingle(st, o, q); }
    forall v, i, p ensures !InVec(st.vecs, v, i, p) {}
  }

  /** A page of ones. */
  function OnesPage(): (b: seq<byte>)
    ensures |b| == PAGE_SIZE && forall i :: 0 <= i < PAGE_SIZE ==> b[i] == 1
  {
    seq(PAGE_SIZE, _ => 1)
  }

  /** Object 0 has one range, which shows page 0 of a vector that still holds a page 1, of
      ones. */
  ghost predicate Stale(st: Store) {
    && StoreOk(st) && 0 in st.trees && st.trees[0] == map[0 := PageRange(0, 1, 0, Many(0))]
    && !IsShared(st, 0, PageRange(0, 1, 0, Many(0)))
    && 0 in st.vecs && 1 in st.vecs[0] && st.vecs[0][1] in st.pages && st.pages[st.vecs[0][1]] == OnesPage()
  }

  lemma StaleStore() returns (st: Store)
    ensures Stale(st) && Unheld(st, 2) && 1 !in st.vecs
  {
    var r, z := PageRange(0, 1, 0, Many(0)), ZeroPage();
    var t: Tree := map[0 := r];
    assert TreeOk(t);
    st := Store(map[0 := t], map[0 := map[0 := 0, 1 := 1]], map[0 := z, 1 := OnesPage(), 2 := z]);
    forall v, i, p | InVec(st.vecs, v, i, p) ensures v == 0 && p == i && 0 <= i <= 1 {}
    forall o, q | Covered(st, o, q) ensures o == 0 && q == 0 && st.trees[o][q] == r {}
  }

  lemma StaleExtends(st: Store)
    requires Stale(st)
    ensures Extendable(st, 0, 2) == Some(PageRange(0, 1, 0, Many(0))) && !AddPageOk(st, 0, 2, true)
  {
    var r := PageRange(0, 1, 0, Many(0));
    assert LastBefore(st.trees[0], 2) == LastBefore(st.trees[0], 1) == Some(r);
    assert r.Index(1) in st.vecs[0];
  }

  /** `add_page` is not always an update of one place: extending a range can bring
      back a page that its vector still holds past its window. */
  lemma AddPageCanBringBackPages() returns (st: Store)
    ensures StoreOk(st) && 0 in st.trees && Unheld(st, 2) && 1 !in st.vecs
    ensures !IsUpdate(AddPageStore(st, 0, 2, 2, true, 1), st, 0, 2, 2)
  {
    st := StaleStore();
    StaleExtends(st);
    AddPageUpdatesIff(st, 0, 2, 2, true, 1);
  }

  /** Two objects that share a vector with nothing at index 1. */
  lemma HoleStore() returns (st: Store)
    ensures StoreOk(st) && Unheld(st, 2) && 1 !in st.vecs && Covered(st, 0, 1) && Holds(st, 1, 0, Many(0))
    ensures st.trees[0][1] == PageRange(0, 2, 0, Many(0))
  {
    var r, z := PageRange(0, 2, 0, Many(0)), ZeroPage();
    var t: Tree := map[0 := r, 1 := r];
    assert TreeOk(t);
    st := Store(map[0 := t, 1 := t], map[0 := map[0 := 0]], map[0 := z, 2 := z]);
    forall v, i, p | InVec(st.vecs, v, i, p) ensures v == 0 && p == 0 && i == 0 {}
    forall o, q | Covered(st, o, q) ensures st.trees[o][q] == r {}
  }

  /** Nor is adding to a hole of a shared range: the new page keeps the index the
      hole had in the dropped vector, and is not found again. */
  lemma AddPageCanLoseThePage() returns (st: Store)
    ensures StoreOk(st) && 0 in st.trees && Unheld(st, 2) && 1 !in st.vecs
    ensures !IsUpdate(AddPageStore(st, 0, 1, 2, true, 1), st, 0, 1, 2)
  {
    st := HoleStore();
    assert IsShared(st, 0, st.trees[0][1]);
    AddPageUpdatesIff(st, 0, 1, 2, true, 1);
  }
}
