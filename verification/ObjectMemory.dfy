/** The operations of src/kernel/src/obj/range.rs on objects that share pages. */
module ObjectMemory {
  import opened Options
  import opened PageSize
  import opened PageRanges
  import opened ObjectStore
  import opened RangeSharing

  /** The bytes of a page; a page that is not there reads as zeros. */
  function PageBytes(st: Store, o: ObjId, pn: nat): (b: seq<byte>)
    ensures |b| == PAGE_SIZE
  {
    Bytes(Content(st, o, pn))
  }

  function Bytes(c: Option<seq<byte>>): (b: seq<byte>)
    ensures |b| == PAGE_SIZE
  {
    match c
    case Some(b) => if |b| == PAGE_SIZE then b else ZeroPage()
    case None => ZeroPage()
  }

  /** A page with `data` written at `off`. */
  function Overwrite(b: seq<byte>, off: nat, data: seq<byte>): (b': seq<byte>)
    requires off + |data| <= |b|
    ensures |b'| == |b|
    ensures forall i :: 0 <= i < |b| ==> b'[i] == if off <= i < off + |data| then data[i - off] else b[i]
  {
    b[..off] + data + b[off + |data|..]
  }

  /** The store after `data` was written at `off` into page `p`. */
  function WritePage(st: Store, p: PageId, off: nat, data: seq<byte>): Store
    requires p in st.pages && off + |data| <= |st.pages[p]|
  {
    st.(pages := st.pages[p := Overwrite(st.pages[p], off, data)])
  }

  /** The contents of all objects differ at place (o, pn) only, which has the bytes `b`. */
  ghost predicate ContentSet(st': Store, st: Store, o: ObjId, pn: nat, b: seq<byte>) {
    && Content(st', o, pn) == Some(b)
    && (forall o', q: nat :: !(o' == o && q == pn) ==> Content(st', o', q) == Content(st, o', q))
  }

  /** A write through a page that only (o, pn) shows changes only that place. */
  lemma WriteOnlyThere(st: Store, o: ObjId, pn: nat, p: PageId, off: nat, data: seq<byte>)
    requires StoreOk(st) && OnlyAt(st, o, pn, p) && p in st.pages && off + |data| <= PAGE_SIZE
    ensures StoreOk(WritePage(st, p, off, data))
    ensures ContentSet(WritePage(st, p, off, data), st, o, pn, Overwrite(PageBytes(st, o, pn), off, data))
  {
    var st' := WritePage(st, p, off, data);
    SameTreesOk(st', st);
    forall o', q: nat ensures PageAt(st', o', q) == PageAt(st, o', q) {}
  }

  /** Page contents do not matter for the shape of a store. */
  lemma SameTreesOk(st': Store, st: Store)
    requires StoreOk(st) && st'.trees == st.trees && st'.vecs == st.vecs
    requires forall p :: p in st.pages ==> p in st'.pages
    requires forall p :: p in st'.pages ==> |st'.pages[p]| == PAGE_SIZE
    ensures StoreOk(st')
  {
    forall o, pn | Covered(st', o, pn) ensures RangeOk(st', st'.trees[o][pn]) { assert RangeOk(st, st.trees[o][pn]); }
    forall p | HeldSingly(st', p) ensures HeldSingly(st, p) {
      var o, pn :| Holds(st', o, pn, Single(p));
      assert Holds(st, o, pn, Single(p));
    }
  }

  /** A new page that nobody holds changes no object. */
  lemma FreshPageKeeps(st: Store, p: PageId, data: seq<byte>)
    requires StoreOk(st) && p !in st.pages && |data| == PAGE_SIZE
    ensures StoreOk(st.(pages := st.pages[p := data]))
    ensures Unheld(st.(pages := st.pages[p := data]), p)
    ensures SameContents(st.(pages := st.pages[p := data]), st)
  {
    var st' := st.(pages := st.pages[p := data]);
    FreshNotHeld(st, p);
    SameTreesOk(st', st);
    forall o, pn ensures !Holds(st', o, pn, Single(p)) { assert !Holds(st, o, pn, Single(p)); }
    forall o, pn: nat ensures Content(st', o, pn) == Content(st, o, pn) {
      if PageAt(st, o, pn).Some? { PageExists(st, o, pn); }
    }
  }

  /** `pv` holds private copies of the entries of `src` in [start, k); its pages
      are new, numbered from `lo` below `hi`, and nothing else was added. */
  ghost predicate ClonedUpTo(pv: PageVec, src: PageVec, start: int, k: int, pages0: map<PageId, seq<byte>>,
                             pages: map<PageId, seq<byte>>, lo: PageId, hi: PageId)
  {
    && (forall i :: i in pv <==> start <= i < k && i in src)
    && (forall i :: i in pv ==>
        lo <= pv[i] < hi && pv[i] in pages && src[i] in pages0 && pages[pv[i]] == pages0[src[i]])
    && (forall i, j :: i in pv && j in pv && i != j ==> pv[i] != pv[j])
    && (forall p :: p in pages0 ==> p in pages && pages[p] == pages0[p])
    && (forall p :: p in pages ==> p in pages0 || exists i :: i in pv && pv[i] == p)
  }

  lemma CloneStep(pv: PageVec, src: PageVec, start: int, k: int, pages0: map<PageId, seq<byte>>,
                  pages: map<PageId, seq<byte>>, lo: PageId, hi: PageId)
    requires ClonedUpTo(pv, src, start, k, pages0, pages, lo, hi) && start <= k && lo <= hi
    requires k in src && src[k] in pages0 && hi !in pages
    ensures ClonedUpTo(pv[k := hi], src, start, k + 1, pages0, pages[hi := pages0[src[k]]], lo, hi + 1)
  {
    var pv', pages' := pv[k := hi], pages[hi := pages0[src[k]]];
    forall i | i in pv'
      ensures lo <= pv'[i] < hi + 1 && pv'[i] in pages' && src[i] in pages0 && pages'[pv'[i]] == pages0[src[i]]
    {
      assert i != k ==> i in pv && pv[i] < hi;
    }
    forall p | p in pages' ensures p in pages0 || exists i :: i in pv' && pv'[i] == p {
      if p == hi {
        assert pv'[k] == p;
      } else if p !in pages0 {
        var i :| i in pv && pv[i] == p;
        assert pv'[i] == p;
      }
    }
  }

  lemma SkipMissing(pv: PageVec, src: PageVec, start: int, k: int, pages0: map<PageId, seq<byte>>,
                    pages: map<PageId, seq<byte>>, lo: PageId, hi: PageId)
    requires ClonedUpTo(pv, src, start, k, pages0, pages, lo, hi) && k !in src
    ensures ClonedUpTo(pv, src, start, k + 1, pages0, pages, lo, hi)
  {
  }

  lemma NoneCloned(src: PageVec, start: int, pages0: map<PageId, seq<byte>>, lo: PageId)
    ensures ClonedUpTo(map[], src, start, start, pages0, pages0, lo, lo)
  {
  }

  /** A clone of one entry is one new page. */
  lemma OnePageClone(pv: PageVec, src: PageVec, i: int, pages0: map<PageId, seq<byte>>,
                     pages: map<PageId, seq<byte>>, lo: PageId, hi: PageId)
    requires ClonedUpTo(pv, src, i, i + 1, pages0, pages, lo, hi) && i in src
    requires forall p :: p in pages0 ==> p < lo
    ensures i in pv && lo <= pv[i] && src[i] in pages0
    ensures pv == map[i := pv[i]] && pages == pages0[pv[i] := pages0[src[i]]]
  {
    assert forall j :: j in pv ==> j == i;
    assert forall p :: p in pages <==> p in pages0 || p == pv[i];
  }

  /** What giving object `o` a private page leaves as it was: all contents, the
      other trees, and which pages of `o` are covered. */
  ghost predicate Reshaped(st': Store, st: Store, o: ObjId) {
    && StoreOk(st') && SameContents(st', st) && OtherTrees(st', st, o)
    && (forall q: nat :: Covered(st', o, q) <==> Covered(st, o, q))
    && (forall p :: p in st.pages ==> p in st'.pages && st'.pages[p] == st.pages[p])
  }

  ghost predicate OtherTrees(st': Store, st: Store, o: ObjId) {
    && st'.trees.Keys == st.trees.Keys
    && (forall o' :: o' in st.trees && o' != o ==> st'.trees[o'] == st.trees[o'])
  }

  /** The private copy is not shared, and the split covers the same pages. */
  lemma CloneReshapes(st: Store, o: ObjId, pn: nat, np: PageId, nv: VecId)
    requires StoreOk(st) && Content(st, o, pn).Some? && st.trees[o][pn].Covers(pn) && np !in st.pages && nv !in st.vecs
    ensures var st' := CloneStore(st, o, pn, np, nv);
      Reshaped(st', st, o) && Covered(st', o, pn) && !IsShared(st', o, st'.trees[o][pn])
  {
    var st', r := CloneStore(st, o, pn, np, nv), st.trees[o][pn];
    var mid := PageRange(pn, 1, r.Index(pn), CloneBacking(r, np, nv));
    CloneKeeps(st, o, pn, np, nv);
    CloneSplices(st, o, pn, np, nv);
    forall o', q | Holds(st', o', q, mid.backing) ensures o' == o && st'.trees[o'][q] == mid {
      SplicedRange(st', st, o, mid, o', q);
      if Covered(st, o', q) { assert RangeOk(st, st.trees[o'][q]); }
    }
  }

  /** There is a page, and it is shared. */
  predicate MustClone(st: Store, o: ObjId, pn: nat) {
    PageAt(st, o, pn).Some? && IsShared(st, o, st.trees[o][pn])
  }

  datatype PageStatus = Ready(page: PageId, shared: bool) | NoPage | AllocFail

  /** The objects' page trees, the vectors and pages behind them, and the frame
      allocator the operations draw on. */
  class Memory {
    var st: Store
    var frames: nat     // how many frames the allocator can still hand out
    var nextPage: PageId
    var nextVec: VecId

    ghost predicate Numbered()
      reads this
    {
      (forall p :: p in st.pages ==> p < nextPage) && (forall v :: v in st.vecs ==> v < nextVec)
    }

    ghost predicate Valid()
      reads this
    {
      StoreOk(st) && Numbered()
    }

    /** `FrameAllocator::try_allocate` for a zeroed frame, wrapped in a new page. */
    method TryAllocate() returns (p: Option<PageId>)
      requires Numbered()
      modifies this`st, this`frames, this`nextPage
      ensures Numbered()
      ensures old(frames) == 0 ==> p.None? && st == old(st) && frames == 0 && nextPage == old(nextPage)
      ensures old(frames) > 0 ==>
        && p == Some(old(nextPage)) && nextPage == old(nextPage) + 1
        && st == old(st).(pages := old(st.pages)[old(nextPage) := ZeroPage()]) && frames == old(frames) - 1
    {
      if frames == 0 {
        return None;
      }
      p := Some(nextPage);
      st := st.(pages := st.pages[nextPage := ZeroPage()]);
      nextPage, frames := nextPage + 1, frames - 1;
    }

    /** A new page with the contents of page `p`. */
    method CopyOfPage(p: PageId) returns (np: Option<PageId>)
      requires p in st.pages && Numbered()
      modifies this`st, this`frames, this`nextPage
      ensures Numbered()
      ensures old(frames) == 0 ==> np.None? && st == old(st) && frames == 0 && nextPage == old(nextPage)
      ensures old(frames) > 0 ==>
        && np == Some(old(nextPage)) && nextPage == old(nextPage) + 1
        && st == old(st).(pages := old(st.pages)[old(nextPage) := old(st.pages)[p]]) && frames == old(frames) - 1
    {
      np := TryAllocate();
      if np.Some? {
        st := st.(pages := st.pages[np.value := st.pages[p]]);
        assert st.pages == old(st.pages)[old(nextPage) := old(st.pages)[p]];
      }
    }

    /** `clone_pages_limited`: a new vector with private copies of the pages in
        [start, start + len).  If frames run out the half-built vector is dropped. */
    method ClonePagesLimited(v: VecId, start: nat, len: nat) returns (res: Option<PageVec>)
      requires v in st.vecs && (forall i :: i in st.vecs[v] ==> st.vecs[v][i] in st.pages)
      requires Numbered()
      modifies this`st, this`frames, this`nextPage
      ensures Numbered()
      ensures st.trees == old(st.trees) && st.vecs == old(st.vecs)
      ensures res.None? ==> st == old(st) && old(frames) < len
      ensures res.Some? ==> frames == old(frames) - |res.value|
      ensures old(frames) - len <= frames <= old(frames)
      ensures res.Some? ==>
        ClonedUpTo(res.value, st.vecs[v], start, start + len, old(st.pages), st.pages, old(nextPage), nextPage)
    {
      var pv: PageVec := map[];
      var src, pages0 := st.vecs[v], st.pages;
      NoneCloned(src, start, pages0, nextPage);
      for k := start to start + len
        invariant Numbered() && st.trees == old(st.trees) && st.vecs == old(st.vecs)
        invariant nextPage >= old(nextPage)
        invariant |pv| <= k - start && frames == old(frames) - |pv|
        invariant ClonedUpTo(pv, src, start, k, pages0, st.pages, old(nextPage), nextPage)
      {
        if k in src {
          var more := CloneNext(pv, src, start, k, pages0, old(nextPage));
          if more.None? {
            st := st.(pages := pages0);
            return None;
          }
          pv := more.value;
        } else {
          SkipMissing(pv, src, start, k, pages0, st.pages, old(nextPage), nextPage);
        }
      }
      return Some(pv);
    }

    /** One turn of it: a private copy of entry `k`. */
    method CloneNext(pv: PageVec, src: PageVec, ghost start: nat, k: nat, ghost pages0: map<PageId, seq<byte>>,
                     ghost lo: PageId)
      returns (res: Option<PageVec>)
      requires Numbered() && k in src && src[k] in pages0 && start <= k && lo <= nextPage
      requires ClonedUpTo(pv, src, start, k, pages0, st.pages, lo, nextPage)
      modifies this`st, this`frames, this`nextPage
      ensures Numbered() && st.trees == old(st.trees) && st.vecs == old(st.vecs) && nextPage >= old(nextPage)
      ensures res.None? ==> old(frames) == frames == 0
      ensures res.Some? ==> ClonedUpTo(res.value, src, start, k + 1, pages0, st.pages, lo, nextPage)
      ensures res.Some? ==> |res.value| == |pv| + 1 && frames == old(frames) - 1
    {
      CloneStep(pv, src, start, k, pages0, st.pages, lo, nextPage);
      assert st.pages[src[k]] == pages0[src[k]];
      var np := CopyOfPage(src[k]);
      if np.None? {
        return None;
      }
      assert k !in pv;
      return Some(pv[k := np.value]);
    }

    /** The private copy that `split_into_three` puts under page `pn`. */
    method CloneBackingPages(o: ObjId, pn: nat) returns (middle: Option<Backing>, ghost np: PageId)
      requires Valid() && Content(st, o, pn).Some? && st.trees[o][pn].Covers(pn)
      modifies this`st, this`frames, this`nextPage, this`nextVec
      ensures Numbered()
      ensures middle.None? ==> st == old(st)
      ensures if middle.None? then old(frames) == frames == 0 else frames == old(frames) - 1
      ensures st.trees == old(st.trees)
      ensures middle.Some? ==> np !in old(st.pages) && middle.value == CloneBacking(st.trees[o][pn], np, old(nextVec))
      ensures middle.Some? ==>
        var st' := CloneStore(old(st), o, pn, np, old(nextVec)); st.vecs == st'.vecs && st.pages == st'.pages
    {
      var r := st.trees[o][pn];
      assert RangeOk(st, r);
      match r.backing
      case Single(q) =>
        np := nextPage;
        var p := CopyOfPage(q);
        middle := if p.Some? then Some(Single(p.value)) else None;
      case Many(v) =>
        assert forall i :: i in st.vecs[v] ==> InVec(st.vecs, v, i, st.vecs[v][i]);
        middle, np := CloneEntry(v, r.offset + (pn - r.start));
    }

    /** The new one-page vector under a page of a vector. */
    method CloneEntry(v: VecId, i: nat) returns (middle: Option<Backing>, ghost np: PageId)
      requires Numbered() && v in st.vecs && i in st.vecs[v]
      requires forall k :: k in st.vecs[v] ==> st.vecs[v][k] in st.pages
      modifies this`st, this`frames, this`nextPage, this`nextVec
      ensures Numbered() && st.trees == old(st.trees)
      ensures middle.None? ==> st == old(st)
      ensures if middle.None? then old(frames) == frames == 0 else frames == old(frames) - 1
      ensures middle.Some? ==> np !in old(st.pages) && middle.value == Many(old(nextVec))
      ensures middle.Some? ==>
        && st.vecs == old(st.vecs)[old(nextVec) := map[i := np]]
        && st.pages == old(st.pages)[np := old(st.pages)[old(st.vecs)[v][i]]]
    {
      var pv := ClonePagesLimited(v, i, 1);
      np := if pv.Some? && i in pv.value then pv.value[i] else 0;
      if pv.Some? {
        OnePageClone(pv.value, st.vecs[v], i, old(st.pages), st.pages, old(nextPage), nextPage);
        st := st.(vecs := st.vecs[nextVec := pv.value]);
        middle := Some(Many(nextVec));
        nextVec := nextVec + 1;
      } else {
        middle := None;
      }
    }

    /** `split_into_three`: give page `pn` a range of its own, on a private copy of
        its page or, when discarding, on nothing. */
    method SplitIntoThree(o: ObjId, pn: nat, discard: bool) returns (ok: bool, ghost np: PageId)
      requires Valid() && Covered(st, o, pn) && st.trees[o][pn].Covers(pn)
      requires !discard ==> Content(st, o, pn).Some?
      modifies this
      ensures Numbered()
      ensures !discard ==> if ok then frames == old(frames) - 1 else old(frames) == frames == 0
      ensures discard ==> ok && frames == old(frames) && nextVec == old(nextVec)
      ensures discard ==> st == old(st).(trees := old(st.trees)[o := SplitThree(old(st.trees)[o], pn, Nothing)])
      ensures !discard && ok ==> np !in old(st.pages) && st == CloneStore(old(st), o, pn, np, old(nextVec))
      ensures !ok ==> st == old(st)
    {
      var middle := Some(Nothing);
      np := 0;
      if !discard {
        middle, np := CloneBackingPages(o, pn);
        if middle.None? {
          return false, 0;
        }
      }
      var t' := InsertParts(st.trees[o], pn, middle.value);
      st := st.(trees := st.trees[o := t']);
      ok := true;
    }

    /** `get_page`.  A shared page that is to be written is first given a private
        copy: no object's contents change, and the page that comes back is then
        reachable from this place only.  (A write to a shared page without an
        allocator runs into the assertion at the end of the source function.) */
    method GetPage(o: ObjId, pn: nat, write: bool, hasAllocator: bool) returns (res: PageStatus)
      requires Valid() && o in st.trees
      requires write && PageAt(st, o, pn).Some? && IsShared(st, o, st.trees[o][pn]) ==> hasAllocator
      modifies this
      ensures Valid() && Reshaped(st, old(st), o)
      ensures res.NoPage? <==> PageAt(old(st), o, pn).None?
      ensures res.Ready? ==>
        PageAt(st, o, pn) == Some(res.page) && (write ==> !res.shared && OnlyAt(st, o, pn, res.page))
      ensures res.Ready? && write ==> RangesAfter(st, old(st), o, pn) && Private(st, o, pn)
      ensures res.Ready? && !write ==> res.shared == IsShared(st, o, st.trees[o][pn])
      ensures res.AllocFail? <==> write && old(frames) == 0 && MustClone(old(st), o, pn)
      ensures !res.Ready? || !write ==> st == old(st)
      ensures frames == if write && MustClone(old(st), o, pn) && old(frames) > 0 then old(frames) - 1 else old(frames)
    {
      var page := PageAt(st, o, pn);
      if page.None? {
        return NoPage;
      }
      var shared := IsShared(st, o, st.trees[o][pn]);
      if !shared || !write {
        if !shared {
          UnsharedIsExclusive(st, o, pn);
          SameTreesAfter(st, st, o, pn);
        }
        return Ready(page.value, shared);
      }
      ghost var st0 := st;
      ContentExists(st0, o, pn);
      var ok, np := SplitIntoThree(o, pn, false);
      if !ok {
        return AllocFail;
      }
      CloneKeeps(st0, o, pn, np, old(nextVec));
      CloneReshapes(st0, o, pn, np, old(nextVec));
      CloneAfter(st0, o, pn, np, old(nextVec));
      page := PageAt(st, o, pn);
      shared := IsShared(st, o, st.trees[o][pn]);
      assert !shared;
      return Ready(page.value, shared);
    }

    /** `PageRange::add_page` on a range that is out of the tree. */
    method PlacePage(r: PageRange, pn: nat, p: PageId) returns (r': PageRange)
      requires r.Covers(pn) && (r.backing.Many? ==> r.backing.vec in st.vecs)
      requires Numbered()
      modifies this`st, this`nextVec
      ensures st.trees == old(st.trees) && st.pages == old(st.pages)
      ensures (r', st.vecs) == PlaceInRange(old(st.vecs), r, pn, p, old(nextVec))
      ensures Numbered()
    {
      var off := pn - r.start;
      match r.backing
      case Nothing =>
        r' := r.(backing := Single(p));
      case Single(q) =>
        var pv: PageVec := map[];
        pv := pv[0 := q];
        pv := pv[off := p];
        st := st.(vecs := st.vecs[nextVec := pv]);
        r' := r.(backing := Many(nextVec), offset := 0);
        nextVec := nextVec + 1;
      case Many(v) =>
        var pv: PageVec := st.vecs[v];
        st := st.(vecs := st.vecs[v := pv[r.offset + off := p]]);
        r' := r;
    }

    /** The range that `add_page` takes out of the tree where one covers the page,
        after cutting the page's part out of a shared range. */
    method TakeCovering(o: ObjId, pn: nat, hasAllocator: bool) returns (r: PageRange)
      requires Valid() && Covered(st, o, pn)
      modifies this
      ensures Numbered() && frames == old(frames) && nextVec == old(nextVec) && st.vecs == old(st.vecs) &&
        st.pages == old(st.pages)
      ensures Target(old(st), o, pn, hasAllocator).0 == r
      ensures st.trees == old(st.trees)[o := Target(old(st), o, pn, hasAllocator).1]
    {
      r := st.trees[o][pn];
      if IsShared(st, o, r) && hasAllocator {
        var _, _ := SplitIntoThree(o, pn, true);
        r := PageRange(pn, 1, r.Index(pn), Nothing);
      }
      st := st.(trees := st.trees[o := Remove(st.trees[o], r)]);
    }

    /** The range that takes the page where none covers it: the one before, if it is
        close enough and unshared, or a new one. */
    method TakeBefore(o: ObjId, pn: nat) returns (r: PageRange)
      requires Valid() && o in st.trees && pn !in st.trees[o]
      modifies this`st
      ensures Numbered() && st.vecs == old(st.vecs) && st.pages == old(st.pages)
      ensures forall hasAllocator :: Target(old(st), o, pn, hasAllocator).0 == r
      ensures forall hasAllocator :: st.trees == old(st.trees)[o := Target(old(st), o, pn, hasAllocator).1]
    {
      var prev := LastBefore(st.trees[o], pn);
      if prev.Some? {
        BeforeGap(st.trees[o], pn);
        var diff := pn - (prev.value.start + (prev.value.length - 1));
        if !IsShared(st, o, prev.value) && diff <= MAX_EXTENSION_ALLOWED {
          r := prev.value.(length := prev.value.length + diff);
          st := st.(trees := st.trees[o := Remove(st.trees[o], prev.value)]);
          return;
        }
      }
      r := PageRange(pn, 1, 0, Nothing);
    }

    /** Place the page in the range that was taken out and put the range back. */
    method PlaceAndInsert(ghost st0: Store, o: ObjId, r: PageRange, pn: nat, p: PageId)
      requires Numbered() && o in st.trees && r.Covers(pn) && (r.backing.Many? ==> r.backing.vec in st.vecs)
      requires st.trees == st0.trees[o := st.trees[o]] && st.vecs == st0.vecs && st.pages == st0.pages
      modifies this`st, this`nextVec
      ensures Numbered()
      ensures st == PutBack(st0, o, old(st.trees)[o], r, pn, p, old(nextVec))
    {
      var r' := PlacePage(r, pn, p);
      st := st.(trees := st.trees[o := InsertReplace(st.trees[o], r')]);
    }

    /** `PageRangeTree::add_page`. */
    method AddPage(o: ObjId, pn: nat, p: PageId, hasAllocator: bool) returns (page: PageId)
      requires Valid() && o in st.trees
      modifies this
      ensures st == AddPageStore(old(st), o, pn, p, hasAllocator, old(nextVec)) && Numbered()
      ensures page == p && frames == old(frames)
    {
      ghost var st0 := st;
      TargetOk(st0, o, pn, hasAllocator);
      var r;
      if pn in st.trees[o] {
        r := TakeCovering(o, pn, hasAllocator);
      } else {
        r := TakeBefore(o, pn);
      }
      PlaceAndInsert(st0, o, r, pn, p);
      page := p;
    }

    /** Store `data` at `off` through the mutable slice of page `p`. */
    method Write(p: PageId, off: nat, data: seq<byte>)
      requires p in st.pages && off + |data| <= |st.pages[p]|
      modifies this`st
      ensures st == WritePage(old(st), p, off, data)
    {
      st := st.(pages := st.pages[p := Overwrite(st.pages[p], off, data)]);
    }
  }
}
