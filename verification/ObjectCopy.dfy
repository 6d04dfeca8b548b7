/** Copying between objects (src/kernel/src/obj/copy.rs): partial pages are
    copied by bytes, whole pages are shared. */
module ObjectCopy {
  import opened Options
  import opened PageSize
  import opened PageRanges
  import opened ObjectStore
  import opened RangeSharing
  import opened ObjectMemory

  /** What a step on page `pn` of `dest` does to the trees: the others are left alone, and
      so are the ranges and backings of later pages, except that a shared page `pn` has
      parted from them; it is private now. */
  ghost predicate Frame(st': Store, st: Store, dest: ObjId, pn: nat) {
    StoreOk(st') && OtherTrees(st', st, dest) && RangesAfter(st', st, dest, pn) && Private(st', dest, pn)
  }

  /** Pages `first` to `last` of `dest` can be written to one after the other: the first
      is there or can be added, and each later one will be when its turn comes. */
  ghost predicate DestOk(st: Store, dest: ObjId, first: nat, last: nat)
    requires StoreOk(st) && dest in st.trees
  {
    (Content(st, dest, first).Some? || AddPageOk(st, dest, first, true)) && LaterFit(st, dest, first, first, last)
  }

  /** The pages after `pn` up to `last` can be written after those from `first` on. */
  ghost predicate LaterFit(st: Store, dest: ObjId, first: nat, pn: nat, last: nat) {
    forall q: nat {:trigger PageFit(st, dest, first, q)} :: pn < q <= last ==> PageFit(st, dest, first, q)
  }

  /** A page right after a covered one can be added: extending by one page brings
      nothing back. */
  lemma NextAddOk(st: Store, o: ObjId, pn: nat)
    requires StoreOk(st) && o in st.trees && pn > 0 && pn !in st.trees[o] && pn - 1 in st.trees[o]
    ensures AddPageOk(st, o, pn, true)
  {
    BeforeGap(st.trees[o], pn);
    assert LastBefore(st.trees[o], pn) == Some(st.trees[o][pn - 1]);
    assert st.trees[o][pn - 1].Covers(pn - 1);
  }

  /** A page that is fit, or uncovered, once the page before it is there can be written:
      for an empty place this is exactly what `add_page` needs. */
  lemma FitIff(st: Store, dest: ObjId, pn: nat)
    requires StoreOk(st) && dest in st.trees && pn > 0 && pn - 1 in st.trees[dest]
    ensures PageFit(st, dest, pn, pn) <==> Content(st, dest, pn).Some? || AddPageOk(st, dest, pn, true)
  {
    if Content(st, dest, pn).None? {
      if Covered(st, dest, pn) { FitNow(st, dest, pn); } else { NextAddOk(st, dest, pn); }
    }
  }

  /** A step on page `pn` leaves the pages after it as fit as they were. */
  lemma LaterStep(st': Store, st: Store, dest: ObjId, pn: nat, next: nat, last: nat, b: seq<byte>)
    requires StoreOk(st) && dest in st.trees && next == pn + 1
    requires Frame(st', st, dest, pn) && ContentSet(st', st, dest, pn, b)
    ensures LaterFit(st', dest, next, pn, last) <==> LaterFit(st, dest, pn, pn, last)
    ensures LaterFit(st, dest, pn, pn, last) ==> LaterFit(st', dest, pn, pn, last)
  {
    forall q: nat | pn < q
      ensures PageFit(st', dest, next, q) <==> PageFit(st, dest, pn, q)
      ensures PageFit(st, dest, pn, q) ==> PageFit(st', dest, pn, q)
    {
      assert RangeAfter(st', st, dest, pn, q);
      FitStep(st', st, dest, pn, next, q);
      FitEarlier(st', dest, pn, next, q);
    }
  }

  lemma FitEarlier(st: Store, dest: ObjId, pn: nat, next: nat, q: nat)
    requires pn <= next
    ensures PageFit(st, dest, next, q) ==> PageFit(st, dest, pn, q)
  {
  }

  /** A step on page `pn` leaves the pages from there on ready for the next one exactly if
      they were. */
  lemma DestStep(st': Store, st: Store, dest: ObjId, pn: nat, next: nat, last: nat, b: seq<byte>)
    requires StoreOk(st) && dest in st.trees && (Content(st, dest, pn).Some? || AddPageOk(st, dest, pn, true))
    requires Frame(st', st, dest, pn) && ContentSet(st', st, dest, pn, b) && next == pn + 1
    ensures dest in st'.trees
    ensures DestOk(st, dest, pn, last) ==> DestOk(st', dest, pn, last)
    ensures pn < last ==> (DestOk(st', dest, next, last) <==> DestOk(st, dest, pn, last))
  {
    LaterStep(st', st, dest, pn, next, last, b);
    ContentExists(st', dest, pn);
    FitIff(st', dest, next);
    if pn < last { FromNext(st', dest, pn, next, last); }
  }

  lemma FromNext(st: Store, dest: ObjId, pn: nat, next: nat, last: nat)
    requires next == pn + 1 <= last
    ensures LaterFit(st, dest, next, pn, last) <==>
      PageFit(st, dest, next, next) && LaterFit(st, dest, next, next, last)
  {
  }

  // The destination page of a partial copy.

  /** A new zeroed page added where there was none. */
  lemma AddedZeroPage(st: Store, dest: ObjId, pn: nat, p: PageId, nv: VecId)
    requires StoreOk(st) && dest in st.trees && Unheld(st, p) && nv !in st.vecs && st.pages[p] == ZeroPage()
    requires AddPageOk(st, dest, pn, true) && Content(st, dest, pn).None?
    ensures var st' := AddPageStore(st, dest, pn, p, true, nv);
      && Frame(st', st, dest, pn) && OnlyAt(st', dest, pn, p) && ContentSet(st', st, dest, pn, ZeroPage())
  {
    var st' := AddPageStore(st, dest, pn, p, true, nv);
    AddPageUpdatesIff(st, dest, pn, p, true, nv);
    AddedFrame(st, dest, pn, p, nv);
    UpdateContent(st, st', dest, pn, p);
  }

  lemma AddedFrame(st: Store, dest: ObjId, pn: nat, p: PageId, nv: VecId)
    requires StoreOk(st) && dest in st.trees && Unheld(st, p) && nv !in st.vecs && Content(st, dest, pn).None?
    requires StoreOk(AddPageStore(st, dest, pn, p, true, nv))
    ensures Frame(AddPageStore(st, dest, pn, p, true, nv), st, dest, pn)
  {
    AddPageSplices(st, dest, pn, p, true, nv);
    ContentExists(st, dest, pn);
    AddAfter(st, dest, pn, p, nv);
    AddedPrivate(st, dest, pn, p, nv);
  }

  lemma UpdateContent(st: Store, st': Store, dest: ObjId, pn: nat, p: PageId)
    requires StoreOk(st) && Unheld(st, p) && IsUpdate(st', st, dest, pn, p) && st'.pages == st.pages
    ensures OnlyAt(st', dest, pn, p) && ContentSet(st', st, dest, pn, st.pages[p])
  {
    forall o, q: nat ensures PageAt(st, o, q) != Some(p) { UnheldNotShown(st, p, o, q); }
  }

  /** The destination page is ready for writing and shown nowhere else; nothing has
      changed but that a missing page is now there, zeroed. */
  ghost predicate Writable(st': Store, st: Store, dest: ObjId, pn: nat, p: PageId) {
    && Frame(st', st, dest, pn) && OnlyAt(st', dest, pn, p) && p in st'.pages
    && ContentSet(st', st, dest, pn, PageBytes(st, dest, pn))
    && (forall x :: x in st.pages ==> x in st'.pages && st'.pages[x] == st.pages[x])
  }

  lemma ReadyWritable(st': Store, st: Store, dest: ObjId, pn: nat, p: PageId)
    requires StoreOk(st) && Reshaped(st', st, dest) && OnlyAt(st', dest, pn, p)
    requires RangesAfter(st', st, dest, pn) && Private(st', dest, pn)
    ensures Writable(st', st, dest, pn, p)
  {
    ContentExists(st', dest, pn);
    PageExists(st', dest, pn);
  }

  /** The store with a new zeroed page `p` added at page `pn` of `dest`. */
  function NewPage(st: Store, dest: ObjId, pn: nat, p: PageId, nv: VecId): Store
    requires StoreOk(st) && dest in st.trees && p !in st.pages
  {
    FreshPageKeeps(st, p, ZeroPage());
    AddPageStore(st.(pages := st.pages[p := ZeroPage()]), dest, pn, p, true, nv)
  }

  /** Where the destination page is missing, a new page is one that a copy can write to,
      with nothing else changed, exactly under `AddPageOk`. */
  lemma NewPageWritableIff(st: Store, dest: ObjId, pn: nat, p: PageId, nv: VecId)
    requires StoreOk(st) && dest in st.trees && Content(st, dest, pn).None? && p !in st.pages && nv !in st.vecs
    ensures Writable(NewPage(st, dest, pn, p, nv), st, dest, pn, p) <==> AddPageOk(st, dest, pn, true)
  {
    var st1 := st.(pages := st.pages[p := ZeroPage()]);
    FreshPageKeeps(st, p, ZeroPage());
    PagesDoNotMatter(st1, st, dest, pn);
    if AddPageOk(st, dest, pn, true) {
      NewPageWritable(st, dest, pn, p, nv);
    } else if pn in st.trees[dest] {
      CutOutLost(st1, dest, pn, p, nv);
    } else {
      var q := GapShows(st1, dest, pn, p, nv);
      assert Content(st, dest, q).None?;
    }
  }

  /** A page cut out of a shared range at an index other than 0 is not there afterwards. */
  lemma CutOutLost(st: Store, dest: ObjId, pn: nat, p: PageId, nv: VecId)
    requires StoreOk(st) && dest in st.trees && pn in st.trees[dest] && !AddPageOk(st, dest, pn, true)
    ensures PageAt(AddPageStore(st, dest, pn, p, true, nv), dest, pn).None?
  {
    AddPageSplices(st, dest, pn, p, true, nv);
    var r := PageRange(pn, 1, st.trees[dest][pn].Index(pn), Single(p));
    SplicedSlot(AddPageStore(st, dest, pn, p, true, nv), st, dest, r, dest, pn);
  }

  /** Extending a range over entries that its vector still holds shows a page of the gap
      that was not there before. */
  lemma GapShows(st: Store, dest: ObjId, pn: nat, p: PageId, nv: VecId) returns (q: nat)
    requires StoreOk(st) && dest in st.trees && Unheld(st, p) && pn !in st.trees[dest] && !AddPageOk(st, dest, pn, true)
    ensures q < pn && !Covered(st, dest, q) && Content(AddPageStore(st, dest, pn, p, true, nv), dest, q).Some?
  {
    var prev := Extendable(st, dest, pn).value;
    BeforeGap(st.trees[dest], pn);
    q :| prev.End() <= q < pn && prev.Index(q) in st.vecs[prev.backing.vec];
    TargetOk(st, dest, pn, true);
    AddToVec(st, dest, pn, p, true, nv);
    ExtendedPageAt(st, dest, pn, p, true, dest, q);
    ContentExists(AddPageStore(st, dest, pn, p, true, nv), dest, q);
  }

  lemma NewPageWritable(st: Store, dest: ObjId, pn: nat, p: PageId, nv: VecId)
    requires StoreOk(st) && dest in st.trees && Content(st, dest, pn).None? && p !in st.pages && nv !in st.vecs
    requires AddPageOk(st, dest, pn, true)
    ensures Writable(NewPage(st, dest, pn, p, nv), st, dest, pn, p)
  {
    var st1 := st.(pages := st.pages[p := ZeroPage()]);
    FreshPageKeeps(st, p, ZeroPage());
    PagesDoNotMatter(st1, st, dest, pn);
    AddedZeroPage(st1, dest, pn, p, nv);
    FreshWritable(AddPageStore(st1, dest, pn, p, true, nv), st1, st, dest, pn, p);
  }

  lemma FreshWritable(st': Store, st1: Store, st: Store, dest: ObjId, pn: nat, p: PageId)
    requires Frame(st', st1, dest, pn) && OnlyAt(st', dest, pn, p) && ContentSet(st', st1, dest, pn, ZeroPage())
    requires st1 == st.(pages := st.pages[p := ZeroPage()]) && p !in st.pages && st'.pages == st1.pages
    requires SameContents(st1, st) && Content(st, dest, pn).None?
    ensures Writable(st', st, dest, pn, p)
  {
    AfterOnTrees(st', st1, st', st, dest, pn);
  }

  lemma PagesDoNotMatter(st1: Store, st: Store, dest: ObjId, pn: nat)
    requires StoreOk(st) && StoreOk(st1) && st1.trees == st.trees && st1.vecs == st.vecs && dest in st.trees
    ensures AddPageOk(st1, dest, pn, true) <==> AddPageOk(st, dest, pn, true)
  {
    assert Extendable(st1, dest, pn) == Extendable(st, dest, pn);
  }

  /** Writing to the page takes a frame: it is missing, or shared. */
  predicate NeedsFrame(st: Store, o: ObjId, pn: nat) { PageAt(st, o, pn).None? || MustClone(st, o, pn) }

  /** The frames left once one has been taken, if there was one. */
  function FramesLeft(frames: nat, needed: bool): nat { if needed && frames > 0 then frames - 1 else frames }

  /** The destination page as `copy_single` and `copy_bytes` get it: the page there,
      made private, or else a new zeroed page. */
  method DestPage(m: Memory, dest: ObjId, pn: nat) returns (page: Option<PageId>)
    requires m.Valid() && dest in m.st.trees
    requires m.frames > 0 ==> Content(m.st, dest, pn).Some? || AddPageOk(m.st, dest, pn, true)
    modifies m
    ensures m.Valid()
    ensures page.Some? ==> Writable(m.st, old(m.st), dest, pn, page.value)
    ensures page.None? ==> m.st == old(m.st)
    ensures page.None? <==> old(m.frames) == 0 && NeedsFrame(old(m.st), dest, pn)
    ensures m.frames == FramesLeft(old(m.frames), NeedsFrame(old(m.st), dest, pn))
  {
    ghost var st := m.st;
    var res := m.GetPage(dest, pn, true, true);
    ContentExists(st, dest, pn);
    match res
    case Ready(p, _) =>
      ReadyWritable(m.st, st, dest, pn, p);
      return Some(p);
    case AllocFail =>
      return None;
    case NoPage =>
      page := AddZeroPage(m, dest, pn);
  }

  method AddZeroPage(m: Memory, dest: ObjId, pn: nat) returns (page: Option<PageId>)
    requires m.Valid() && dest in m.st.trees
    requires Content(m.st, dest, pn).None? && (m.frames > 0 ==> AddPageOk(m.st, dest, pn, true))
    modifies m
    ensures m.Valid()
    ensures page.Some? ==> Writable(m.st, old(m.st), dest, pn, page.value)
    ensures page.None? ==> m.st == old(m.st)
    ensures page.None? <==> old(m.frames) == 0
    ensures m.frames == FramesLeft(old(m.frames), true)
  {
    if m.frames > 0 { NewPageWritable(m.st, dest, pn, m.nextPage, m.nextVec); }
    page := AllocateAndAdd(m, dest, pn);
  }

  /** A new zeroed page, if there is a frame, put where `add_page` puts it. */
  method AllocateAndAdd(m: Memory, dest: ObjId, pn: nat) returns (page: Option<PageId>)
    requires m.Valid() && dest in m.st.trees
    modifies m
    ensures m.Numbered() && m.frames == FramesLeft(old(m.frames), true)
    ensures old(m.frames) == 0 ==> page.None? && m.st == old(m.st)
    ensures old(m.frames) > 0 ==>
      page == Some(old(m.nextPage)) && m.st == NewPage(old(m.st), dest, pn, old(m.nextPage), old(m.nextVec))
  {
    if m.frames > 0 { FreshPageKeeps(m.st, m.nextPage, ZeroPage()); }
    page := m.TryAllocate();
    if page.Some? {
      var p := m.AddPage(dest, pn, page.value, true);
    }
  }

  // Copying part of a page.

  /** The bytes [from, to) of a page that was looked up: the page's own, or zeros. */
  function Slice(pages: map<PageId, seq<byte>>, page: PageStatus, from: nat, to: nat): (data: seq<byte>)
    requires from <= to <= PAGE_SIZE
    requires page.Ready? ==> page.page in pages && |pages[page.page]| == PAGE_SIZE
    ensures |data| == to - from
  {
    if page.Ready? then pages[page.page][from..to] else ZeroPage()[from..to]
  }

  /** The looked-up source page holds the source's bytes. */
  ghost predicate SourcePage(st: Store, src: ObjId, pn: nat, page: PageStatus) {
    if page.Ready? then PageAt(st, src, pn) == Some(page.page) && page.page in st.pages else Content(st, src, pn).None?
  }

  /** Bytes [from, from + len) of page `spn` of `src` now stand at `off` in page `dpn`
      of `dest`, and no other place of any object has changed. */
  ghost predicate PartCopied(st': Store, st: Store, dest: ObjId, dpn: nat, off: nat, src: ObjId, spn: nat, from: nat,
                             len: nat)
    requires off + len <= PAGE_SIZE && from + len <= PAGE_SIZE
  {
    ContentSet(st', st, dest, dpn, Overwrite(PageBytes(st, dest, dpn), off, PageBytes(st, src, spn)[from..from + len]))
  }

  lemma SliceIsSource(st: Store, pages: map<PageId, seq<byte>>, src: ObjId, pn: nat, page: PageStatus, from: nat,
                      to: nat)
    requires StoreOk(st) && SourcePage(st, src, pn, page) && from <= to <= PAGE_SIZE
    requires forall x :: x in st.pages ==> x in pages && pages[x] == st.pages[x]
    ensures page.Ready? ==> page.page in pages && |pages[page.page]| == PAGE_SIZE
    ensures Slice(pages, page, from, to) == PageBytes(st, src, pn)[from..to]
  {
  }

  lemma WriteCompletes(st: Store, st1: Store, dest: ObjId, dpn: nat, p: PageId, off: nat, data: seq<byte>,
                       src: ObjId, spn: nat, from: nat, len: nat)
    requires StoreOk(st) && Writable(st1, st, dest, dpn, p) && off + len <= PAGE_SIZE && from + len <= PAGE_SIZE
    requires |data| == len && data == PageBytes(st, src, spn)[from..from + len]
    ensures StoreOk(WritePage(st1, p, off, data)) && Frame(WritePage(st1, p, off, data), st, dest, dpn)
    ensures PartCopied(WritePage(st1, p, off, data), st, dest, dpn, off, src, spn, from, len)
  {
    WriteOnlyThere(st1, dest, dpn, p, off, data);
    var st2 := WritePage(st1, p, off, data);
    SetTwice(st2, st1, st, dest, dpn, PageBytes(st, dest, dpn), Overwrite(PageBytes(st1, dest, dpn), off, data));
    SameTreesFrame(st2, st1, st, dest, dpn);
  }

  lemma SetTwice(st2: Store, st1: Store, st: Store, o: ObjId, pn: nat, b1: seq<byte>, b2: seq<byte>)
    requires ContentSet(st1, st, o, pn, b1) && ContentSet(st2, st1, o, pn, b2) && |b1| == PAGE_SIZE
    ensures ContentSet(st2, st, o, pn, b2) && PageBytes(st1, o, pn) == b1
  {
  }

  lemma SameTreesFrame(st2: Store, st1: Store, st: Store, dest: ObjId, pn: nat)
    requires Frame(st1, st, dest, pn) && StoreOk(st2) && st2.trees == st1.trees
    ensures Frame(st2, st, dest, pn)
  {
    AfterOnTrees(st2, st, st1, st, dest, pn);
    PrivateOnTrees(st2, st1, dest, pn);
  }

  /** Copy [from, from + len) of a source page into a destination page at `off`: what
      `copy_single` and a turn of `copy_bytes` have in common. */
  method CopyPart(m: Memory, dest: ObjId, dpn: nat, off: nat, src: ObjId, spn: nat, srcPage: PageStatus, from: nat,
                  len: nat)
    returns (ok: bool)
    requires m.Valid() && dest in m.st.trees && off + len <= PAGE_SIZE && from + len <= PAGE_SIZE
    requires SourcePage(m.st, src, spn, srcPage)
    requires m.frames > 0 ==> Content(m.st, dest, dpn).Some? || AddPageOk(m.st, dest, dpn, true)
    modifies m
    ensures m.Valid()
    ensures ok ==> Frame(m.st, old(m.st), dest, dpn)
    ensures ok ==> PartCopied(m.st, old(m.st), dest, dpn, off, src, spn, from, len)
    ensures !ok ==> m.st == old(m.st)
    ensures !ok <==> old(m.frames) == 0 && NeedsFrame(old(m.st), dest, dpn)
    ensures m.frames == FramesLeft(old(m.frames), NeedsFrame(old(m.st), dest, dpn))
  {
    ghost var st := m.st;
    var destPage := DestPage(m, dest, dpn);
    if destPage.None? {
      return false;
    }
    WritePart(m, st, dest, dpn, destPage.value, off, src, spn, srcPage, from, len);
    ok := true;
  }

  method WritePart(m: Memory, ghost st: Store, ghost dest: ObjId, ghost dpn: nat, p: PageId, off: nat,
                   ghost src: ObjId, ghost spn: nat, srcPage: PageStatus, from: nat, len: nat)
    requires m.Valid() && off + len <= PAGE_SIZE && from + len <= PAGE_SIZE && StoreOk(st)
    requires Writable(m.st, st, dest, dpn, p) && SourcePage(st, src, spn, srcPage)
    modifies m`st
    ensures m.Valid() && Frame(m.st, st, dest, dpn)
    ensures PartCopied(m.st, st, dest, dpn, off, src, spn, from, len)
  {
    PartWritten(st, m.st, dest, dpn, p, off, src, spn, srcPage, from, len);
    var data := Slice(m.st.pages, srcPage, from, from + len);
    m.Write(p, off, data);
  }

  lemma PartWritten(st: Store, st1: Store, dest: ObjId, dpn: nat, p: PageId, off: nat,
                    src: ObjId, spn: nat, srcPage: PageStatus, from: nat, len: nat)
    requires StoreOk(st) && off + len <= PAGE_SIZE && from + len <= PAGE_SIZE
    requires Writable(st1, st, dest, dpn, p) && SourcePage(st, src, spn, srcPage)
    ensures srcPage.Ready? ==> srcPage.page in st1.pages && |st1.pages[srcPage.page]| == PAGE_SIZE
    ensures |st1.pages[p]| == PAGE_SIZE
    ensures var st' := WritePage(st1, p, off, Slice(st1.pages, srcPage, from, from + len));
      StoreOk(st') && Frame(st', st, dest, dpn) && PartCopied(st', st, dest, dpn, off, src, spn, from, len)
  {
    SliceIsSource(st, st1.pages, src, spn, srcPage, from, from + len);
    WriteCompletes(st, st1, dest, dpn, p, off, Slice(st1.pages, srcPage, from, from + len), src, spn, from, len);
  }

  /** So a copy can change bytes outside its window: whatever is written into page 2 of the
      stale object, page 1, which was not there, comes back with its old bytes. */
  lemma CopyBringsBack(st: Store, p: PageId, nv: VecId, off: nat, data: seq<byte>)
    requires Stale(st) && p !in st.pages && nv !in st.vecs && off + |data| <= PAGE_SIZE
    ensures !DestOk(st, 0, 2, 2) && Content(st, 0, 1).None?
    ensures var st' := NewPage(st, 0, 2, p, nv);
      && PageAt(st', 0, 2) == Some(p) && p in st'.pages && |st'.pages[p]| == PAGE_SIZE
      && Content(WritePage(st', p, off, data), 0, 1) == Some(OnesPage())
  {
    var st1 := st.(pages := st.pages[p := ZeroPage()]);
    FreshPageKeeps(st, p, ZeroPage());
    StaleExtends(st);
    StaleShows(st1, p, nv);
    WrittenContent(NewPage(st, 0, 2, p, nv), p, off, data, 0, 1);
  }

  /** A write into one page leaves a place that shows another as it was. */
  lemma WrittenContent(st: Store, p: PageId, off: nat, data: seq<byte>, o: ObjId, q: nat)
    requires p in st.pages && off + |data| <= |st.pages[p]| && PageAt(st, o, q) != Some(p)
    ensures Content(WritePage(st, p, off, data), o, q) == Content(st, o, q)
  {
    assert PageAt(WritePage(st, p, off, data), o, q) == PageAt(st, o, q);
  }

  lemma StaleShows(st: Store, p: PageId, nv: VecId)
    requires Stale(st) && Unheld(st, p)
    ensures var st' := AddPageStore(st, 0, 2, p, true, nv);
      st'.pages == st.pages && PageAt(st', 0, 2) == Some(p) && PageAt(st', 0, 1) == Some(st.vecs[0][1])
  {
    StaleExtends(st);
    AddToVec(st, 0, 2, p, true, nv);
    ExtendedPageAt(st, 0, 2, p, true, 0, 1);
    ExtendedPageAt(st, 0, 2, p, true, 0, 2);
  }

  /** A look-up without writing. */
  method SourceLookup(m: Memory, src: ObjId, pn: nat) returns (page: PageStatus)
    requires m.Valid() && src in m.st.trees
    modifies m
    ensures m.Valid() && m.st == old(m.st) && m.frames == old(m.frames) && SourcePage(m.st, src, pn, page)
    ensures page.Ready? <==> Content(m.st, src, pn).Some?
  {
    page := m.GetPage(src, pn, false, false);
    ContentExists(m.st, src, pn);
    if page.Ready? { PageExists(m.st, src, pn); }
  }

  /** `copy_single`: copy bytes [offset, max) of one page. */
  method CopySingle(m: Memory, dest: ObjId, src: ObjId, destPoint: nat, srcPoint: nat, offset: nat, max: nat)
    returns (ok: bool)
    requires m.Valid() && dest in m.st.trees && src in m.st.trees && offset <= max <= PAGE_SIZE
    requires m.frames > 0 ==> Content(m.st, dest, destPoint).Some? || AddPageOk(m.st, dest, destPoint, true)
    modifies m
    ensures m.Valid()
    ensures ok ==> Frame(m.st, old(m.st), dest, destPoint)
    ensures ok ==> PartCopied(m.st, old(m.st), dest, destPoint, offset, src, srcPoint, offset, max - offset)
    ensures !ok ==> m.st == old(m.st)
    ensures !ok <==> old(m.frames) == 0 && NeedsFrame(old(m.st), dest, destPoint)
    ensures m.frames == FramesLeft(old(m.frames), NeedsFrame(old(m.st), dest, destPoint))
  {
    var srcPage := SourceLookup(m, src, srcPoint);
    ok := CopyPart(m, dest, destPoint, offset, src, srcPoint, srcPage, offset, max - offset);
  }
}
