/** From dirty bits to evict requests: the dirty set of an object
    (src/kernel/src/obj/mod.rs) and the requests that sync it
    (src/kernel/src/pager/request.rs). */
module SyncRegion {
  import opened PageSize

  // Runs of dirty pages.

  datatype Run = Run(start: nat, len: nat) {
    predicate Has(pn: nat) { start <= pn < start + len }
  }

  predicate Dirty(bits: seq<bool>, pn: nat) { pn < |bits| && bits[pn] }

  predicate InRuns(runs: seq<Run>, pn: nat) { exists i :: 0 <= i < |runs| && runs[i].Has(pn) }

  /** Non-empty runs in increasing order with at least one page between them. */
  ghost predicate Separate(runs: seq<Run>) {
    && (forall i :: 0 <= i < |runs| ==> runs[i].len > 0)
    && (forall i, j :: 0 <= i < j < |runs| ==> runs[i].start + runs[i].len < runs[j].start)
  }

  /** The runs are exactly the dirty pages below `n`. */
  ghost predicate RunsBelow(runs: seq<Run>, bits: seq<bool>, n: nat) {
    && Separate(runs)
    && (forall i, pn: nat {:trigger runs[i].Has(pn)} :: 0 <= i < |runs| && runs[i].Has(pn) ==>
        pn < n && Dirty(bits, pn))
    && (forall pn: nat :: pn < n && Dirty(bits, pn) ==> InRuns(runs, pn))
  }

  /** The last run ends with the last page, if that is dirty. */
  lemma LastRunEnds(runs: seq<Run>, bits: seq<bool>, b: nat)
    requires RunsBelow(runs, bits, b) && b > 0 && Dirty(bits, b - 1)
    ensures |runs| > 0 && runs[|runs| - 1].start + runs[|runs| - 1].len == b
  {
    assert InRuns(runs, b - 1);
    var k :| 0 <= k < |runs| && runs[k].Has(b - 1);
    var last := |runs| - 1;
    if k < last {
      assert runs[last].Has(runs[last].start);
      assert false;
    }
    assert !runs[last].Has(b);
  }

  lemma ExtendRuns(runs: seq<Run>, bits: seq<bool>, b: nat)
    requires RunsBelow(runs, bits, b) && Dirty(bits, b) && b > 0 && Dirty(bits, b - 1)
    ensures |runs| > 0 &&
      RunsBelow(runs[|runs| - 1 := Run(runs[|runs| - 1].start, runs[|runs| - 1].len + 1)], bits, b + 1)
  {
    LastRunEnds(runs, bits, b);
    var last := |runs| - 1;
    var runs' := runs[last := Run(runs[last].start, runs[last].len + 1)];
    forall pn: nat | pn < b + 1 && Dirty(bits, pn) ensures InRuns(runs', pn) {
      ExtendedHas(runs, runs', bits, b, last, pn);
    }
    forall i, pn: nat | 0 <= i < |runs'| && runs'[i].Has(pn) ensures pn < b + 1 && Dirty(bits, pn) {
      assert pn == b || runs[i].Has(pn);
    }
  }

  lemma ExtendedHas(runs: seq<Run>, runs': seq<Run>, bits: seq<bool>, b: nat, last: nat, pn: nat)
    requires last < |runs| && runs' == runs[last := Run(runs[last].start, runs[last].len + 1)]
    requires pn == b ==> runs[last].start + runs[last].len == b
    requires pn != b ==> InRuns(runs, pn)
    ensures InRuns(runs', pn)
  {
    if pn == b {
      assert runs'[last].Has(pn);
    } else {
      var i :| 0 <= i < |runs| && runs[i].Has(pn);
      assert runs'[i].Has(pn);
    }
  }

  lemma StartRun(runs: seq<Run>, bits: seq<bool>, b: nat)
    requires RunsBelow(runs, bits, b) && Dirty(bits, b) && (b > 0 ==> !Dirty(bits, b - 1))
    ensures RunsBelow(runs + [Run(b, 1)], bits, b + 1)
  {
    var runs' := runs + [Run(b, 1)];
    forall i | 0 <= i < |runs| ensures runs[i].start + runs[i].len < b {
      assert runs[i].Has(runs[i].start + runs[i].len - 1);
    }
    forall pn: nat | pn < b + 1 && Dirty(bits, pn) ensures InRuns(runs', pn) {
      if pn == b {
        assert runs'[|runs|].Has(pn);
      } else {
        assert InRuns(runs, pn);
        var i :| 0 <= i < |runs| && runs[i].Has(pn);
        assert runs'[i].Has(pn);
      }
    }
    forall i, pn: nat | 0 <= i < |runs'| && runs'[i].Has(pn) ensures pn < b + 1 && Dirty(bits, pn) {
      assert i < |runs| ==> runs[i].Has(pn);
    }
  }

  /** Growing by whole bytes leads to the next byte boundary after the bits needed. */
  lemma WholeBytes(len: nat, needed: nat)
    requires len % 8 == 0 && needed > len
    ensures len + 8 * ((needed - len) / 8 + 1) == 8 * (needed / 8 + 1)
  {
  }

  class DirtySet {
    var bits: seq<bool>   // a vector of bytes, eight bits each

    ghost predicate Valid()
      reads this
    {
      |bits| % 8 == 0
    }

    constructor ()
      ensures Valid() && bits == []
    {
      bits := [];
    }

    /** `add_dirty`: grow by whole bytes until the pages fit, then set their bits. */
    method AddDirty(pn: nat, num: nat)
      requires Valid()
      modifies this
      ensures Valid()
      ensures forall q: nat :: Dirty(bits, q) <==> Dirty(old(bits), q) || pn <= q < pn + num
      ensures |bits| == if pn + num <= |old(bits)| then |old(bits)| else 8 * ((pn + num) / 8 + 1)
    {
      if pn + num > |bits| {
        var add := (pn + num - |bits|) / 8 + 1;
        WholeBytes(|bits|, pn + num);
        bits := bits + seq(8 * add, _ => false);
      }
      ghost var grown := bits;
      for i := 0 to num
        invariant |bits| == |grown| && pn + num <= |bits|
        invariant forall q: nat :: q < |bits| ==> bits[q] == (grown[q] || pn <= q < pn + i)
      {
        bits := bits[pn + i := true];
      }
    }

    method ResetDirty(pn: nat)
      requires Valid()
      modifies this
      ensures Valid() && forall q: nat :: Dirty(bits, q) <==> Dirty(old(bits), q) && q != pn
    {
      if pn < |bits| {
        bits := bits[pn := false];
      }
    }

    /** `drain_all`: the dirty pages as increasing maximal runs; none is dirty afterwards. */
    method DrainAll() returns (pages: seq<Run>)
      requires Valid()
      modifies this
      ensures Valid() && |bits| == |old(bits)| && forall q: nat :: !Dirty(bits, q)
      ensures Separate(pages) && forall q: nat :: InRuns(pages, q) <==> Dirty(old(bits), q)
    {
      pages := [];
      for b := 0 to |bits|
        invariant bits == old(bits) && RunsBelow(pages, bits, b)
      {
        if bits[b] {
          if b > 0 && bits[b - 1] {
            ExtendRuns(pages, bits, b);
            pages := pages[|pages| - 1 := Run(pages[|pages| - 1].start, pages[|pages| - 1].len + 1)];
          } else {
            StartRun(pages, bits, b);
            pages := pages + [Run(b, 1)];
          }
        }
      }
      bits := seq(|bits|, _ => false);
    }
  }

  // Backed pages.

  /** A page of the object and the address of its frame. */
  datatype Page = Page(pn: nat, pa: nat)

  /** What the page tree answers: the frame of each page that has one. */
  type Backing = map<nat, nat>

  ghost predicate Increasing(pages: seq<Page>) {
    forall i, j :: 0 <= i < j < |pages| ==> pages[i].pn < pages[j].pn
  }

  predicate Listed(pages: seq<Page>, pn: nat) { exists i :: 0 <= i < |pages| && pages[i].pn == pn }

  /** The list has the backed pages among those of the first `n` runs and the first `off`
      pages of the next, in increasing order, each with its frame. */
  ghost predicate BackedUpTo(pages: seq<Page>, runs: seq<Run>, tree: Backing, n: nat, off: nat) {
    && Increasing(pages)
    && (forall i :: 0 <= i < |pages| ==> PageOk(pages[i], runs, tree, n, off))
    && (forall pn: nat {:trigger SeenPage(runs, n, off, pn)} :: pn in tree && SeenPage(runs, n, off, pn) ==>
        Listed(pages, pn))
  }

  predicate PageOk(p: Page, runs: seq<Run>, tree: Backing, n: nat, off: nat) {
    p.pn in tree && tree[p.pn] == p.pa && SeenPage(runs, n, off, p.pn)
  }

  predicate SeenPage(runs: seq<Run>, n: nat, off: nat, pn: nat) {
    (exists i :: 0 <= i < n && i < |runs| && runs[i].Has(pn)) ||
      (n < |runs| && runs[n].start <= pn < runs[n].start + off)
  }

  lemma ListPage(pages: seq<Page>, runs: seq<Run>, tree: Backing, n: nat, off: nat)
    requires Separate(runs) && n < |runs| && off < runs[n].len && BackedUpTo(pages, runs, tree, n, off)
    ensures var pn := runs[n].start + off;
      if pn in tree then BackedUpTo(pages + [Page(pn, tree[pn])], runs, tree, n, off + 1)
      else BackedUpTo(pages, runs, tree, n, off + 1)
  {
    var pn := runs[n].start + off;
    forall q: nat | SeenPage(runs, n, off, q) ensures q < pn {}
    forall q: nat ensures SeenPage(runs, n, off + 1, q) <==> SeenPage(runs, n, off, q) || q == pn {}
    forall i | 0 <= i < |pages| ensures PageOk(pages[i], runs, tree, n, off + 1) && pages[i].pn < pn {
      assert PageOk(pages[i], runs, tree, n, off);
    }
    if pn in tree {
      var pages' := pages + [Page(pn, tree[pn])];
      assert pages'[|pages|].pn == pn;
      forall q: nat | q in tree && SeenPage(runs, n, off + 1, q) ensures Listed(pages', q) {
        if q != pn {
          assert SeenPage(runs, n, off, q);
          var i :| 0 <= i < |pages| && pages[i].pn == q;
          assert pages'[i].pn == q;
        }
      }
    } else {
      forall q: nat | q in tree && SeenPage(runs, n, off + 1, q) ensures Listed(pages, q) {
        assert SeenPage(runs, n, off, q);
      }
    }
  }

  lemma NextRun(pages: seq<Page>, runs: seq<Run>, tree: Backing, n: nat)
    requires n < |runs| && BackedUpTo(pages, runs, tree, n, runs[n].len)
    ensures BackedUpTo(pages, runs, tree, n + 1, 0)
  {
    forall q: nat ensures SeenPage(runs, n + 1, 0, q) <==> SeenPage(runs, n, runs[n].len, q) {
      if SeenPage(runs, n, runs[n].len, q) && runs[n].Has(q) { assert SeenPage(runs, n + 1, 0, q); }
    }
    forall i | 0 <= i < |pages| ensures PageOk(pages[i], runs, tree, n + 1, 0) {
      assert PageOk(pages[i], runs, tree, n, runs[n].len);
    }
    forall q: nat | q in tree && SeenPage(runs, n + 1, 0, q) ensures Listed(pages, q) {
      assert SeenPage(runs, n, runs[n].len, q);
    }
  }

  /** The look-ups at the start of `new_sync_region`, for one-page frames: dirty pages
      without a frame are skipped. */
  method BackedPages(runs: seq<Run>, tree: Backing) returns (pages: seq<Page>)
    requires Separate(runs)
    ensures BackedUpTo(pages, runs, tree, |runs|, 0)
  {
    pages := [];
    for n := 0 to |runs|
      invariant BackedUpTo(pages, runs, tree, n, 0)
    {
      var off := 0;
      while off < runs[n].len
        invariant off <= runs[n].len && BackedUpTo(pages, runs, tree, n, off)
      {
        ListPage(pages, runs, tree, n, off);
        var pn := runs[n].start + off;
        if pn in tree {
          pages := pages + [Page(pn, tree[pn])];
        }
        off := off + 1;
      }
      NextRun(pages, runs, tree, n);
    }
  }

  // Slices that are contiguous in the object and in memory.

  predicate Adjacent(a: Page, b: Page) { a.pn + 1 == b.pn && a.pa + PAGE_SIZE == b.pa }

  /** Page `j` of the list continues the page before it. */
  predicate Joined(data: seq<Page>, j: nat) { 0 < j < |data| && Adjacent(data[j - 1], data[j]) }

  datatype Slice = Slice(begin: nat, end: nat)

  /** A contiguous piece that cannot be continued. */
  ghost predicate SliceOk(data: seq<Page>, s: Slice) {
    && s.begin < s.end <= |data|
    && (forall j: nat {:trigger Joined(data, j)} :: s.begin < j < s.end ==> Joined(data, j))
    && !Joined(data, s.end)
  }

  /** Slice `i` begins where the one before it ends. */
  predicate Chained(slices: seq<Slice>, i: nat) {
    i < |slices| ==> slices[i].begin == if i == 0 then 0 else slices[i - 1].end
  }

  /** The slices cut the first `done` pages into maximal contiguous pieces. */
  ghost predicate SlicesUpTo(slices: seq<Slice>, data: seq<Page>, done: nat) {
    && (forall i :: 0 <= i < |slices| ==> SliceOk(data, slices[i]))
    && (forall i: nat {:trigger Chained(slices, i)} :: Chained(slices, i))
    && done == (if slices == [] then 0 else slices[|slices| - 1].end)
  }

  lemma AddSlice(slices: seq<Slice>, data: seq<Page>, begin: nat, end: nat)
    requires SlicesUpTo(slices, data, begin) && SliceOk(data, Slice(begin, end))
    ensures SlicesUpTo(slices + [Slice(begin, end)], data, end)
  {
    var slices' := slices + [Slice(begin, end)];
    forall i: nat ensures Chained(slices', i) { assert Chained(slices, i); }
  }

  /** `consecutive_slices`. */
  method ConsecutiveSlices(data: seq<Page>) returns (slices: seq<Slice>)
    ensures SlicesUpTo(slices, data, |data|)
  {
    slices := [];
    var sliceStart := 0;
    for i := 1 to |data| + 1
      invariant sliceStart <= i - 1 && (i <= |data| ==> sliceStart < i) && (i == |data| + 1 ==> sliceStart == |data|)
      invariant SlicesUpTo(slices, data, sliceStart)
      invariant forall j: nat {:trigger Joined(data, j)} :: sliceStart < j < i && j < |data| ==> Joined(data, j)
    {
      if i == |data| || data[i - 1].pa + PAGE_SIZE != data[i].pa || data[i - 1].pn + 1 != data[i].pn {
        AddSlice(slices, data, sliceStart, i);
        slices := slices + [Slice(sliceStart, i)];
        sliceStart := i;
      }
    }
  }

  lemma {:induction false} SliceRuns(data: seq<Page>, s: Slice, j: nat)
    requires SliceOk(data, s) && s.begin <= j < s.end
    ensures data[j].pn == data[s.begin].pn + (j - s.begin) && data[j].pa == data[s.begin].pa + PAGE_SIZE * (j - s.begin)
  {
    if j > s.begin {
      SliceRuns(data, s, j - 1);
      assert Joined(data, j);
    }
  }

  /** Every page of the list is in exactly one slice. */
  lemma {:induction false} SliceOf(slices: seq<Slice>, data: seq<Page>, done: nat, j: nat) returns (i: nat)
    requires SlicesUpTo(slices, data, done) && j < done
    ensures i < |slices| && slices[i].begin <= j < slices[i].end
    decreases |slices|
  {
    var last := |slices| - 1;
    if slices[last].begin <= j {
      i := last;
    } else {
      assert Chained(slices, last);
      var before := slices[..last];
      forall k: nat ensures Chained(before, k) { assert Chained(slices, k); }
      i := SliceOf(before, data, slices[last].begin, j);
    }
  }

  lemma {:induction false} SlicesOrdered(slices: seq<Slice>, data: seq<Page>, done: nat, i: nat, k: nat)
    requires SlicesUpTo(slices, data, done) && i < k < |slices|
    ensures slices[i].end <= slices[k].begin
    decreases k
  {
    assert Chained(slices, k);
    if i < k - 1 {
      SlicesOrdered(slices, data, done, i, k - 1);
      assert SliceOk(data, slices[k - 1]);
    }
  }

  // Requests.

  /** An evict request: a range of bytes of the object and of physical memory. */
  datatype Evict = Evict(start: nat, end: nat, physStart: nat, physEnd: nat, fence: bool) {
    predicate Has(b: nat) { start <= b < end }
  }

  function RequestFor(data: seq<Page>, s: Slice, isLast: bool): Evict
    requires s.begin < s.end <= |data|
  {
    var first, last := data[s.begin], data[s.end - 1];
    Evict(PAGE_SIZE * first.pn, PAGE_SIZE * (last.pn + 1), first.pa, last.pa + PAGE_SIZE, isLast)
  }

  /** Where request `i` has byte `b`, its page is dirty and backed, and at its place in the
      request's memory is the same byte of the page's own frame. */
  ghost predicate RightAt(reqs: seq<Evict>, runs: seq<Run>, tree: Backing, i: nat, b: nat) {
    i < |reqs| && reqs[i].Has(b) ==>
      var pn := b / PAGE_SIZE;
      && InRuns(runs, pn) && pn in tree
      && tree[pn] + b % PAGE_SIZE == reqs[i].physStart + (b - reqs[i].start)
  }

  ghost predicate InRequest(reqs: seq<Evict>, b: nat) { exists i :: 0 <= i < |reqs| && reqs[i].Has(b) }

  /** The bytes requested are those of the backed dirty pages and no others, each where it
      is in memory. */
  ghost predicate Exact(reqs: seq<Evict>, runs: seq<Run>, tree: Backing) {
    && (forall i: nat, b: nat {:trigger RightAt(reqs, runs, tree, i, b)} :: RightAt(reqs, runs, tree, i, b))
    && (forall b: nat {:trigger InRequest(reqs, b)} ::
          InRuns(runs, b / PAGE_SIZE) && b / PAGE_SIZE in tree ==> InRequest(reqs, b))
  }

  /** Disjoint, in order, and none could be joined with the next; each as long in memory
      as in the object; the fence is on the last one only. */
  ghost predicate WellCut(reqs: seq<Evict>) {
    && (forall i, j :: 0 <= i < j < |reqs| ==> reqs[i].end <= reqs[j].start)
    && (forall i :: 0 <= i < |reqs| ==>
          reqs[i].start < reqs[i].end && reqs[i].end - reqs[i].start == reqs[i].physEnd - reqs[i].physStart)
    && (forall i {:trigger reqs[i].physEnd} :: 0 <= i < |reqs| - 1 ==>
          !(reqs[i].end == reqs[i + 1].start && reqs[i].physEnd == reqs[i + 1].physStart))
    && (forall i :: 0 <= i < |reqs| ==> (reqs[i].fence <==> i == |reqs| - 1))
  }

  /** `new_sync_region`. */
  method NewSyncRegion(runs: seq<Run>, tree: Backing) returns (reqs: seq<Evict>)
    requires Separate(runs)
    ensures Exact(reqs, runs, tree) && WellCut(reqs)
  {
    var pages := BackedPages(runs, tree);
    var slices := ConsecutiveSlices(pages);
    reqs := [];
    for i := 0 to |slices|
      invariant |reqs| == i
      invariant forall j :: 0 <= j < i ==>
        SliceOk(pages, slices[j]) && reqs[j] == RequestFor(pages, slices[j], j == |slices| - 1)
    {
      var isLast := i == |slices| - 1;
      reqs := reqs + [RequestFor(pages, slices[i], isLast)];
    }
    RequestsExact(reqs, slices, pages, runs, tree);
    RequestsWellCut(reqs, slices, pages);
  }

  ghost predicate RequestsOf(reqs: seq<Evict>, slices: seq<Slice>, pages: seq<Page>) {
    && |reqs| == |slices| && SlicesUpTo(slices, pages, |pages|)
    && (forall j :: 0 <= j < |slices| ==>
        SliceOk(pages, slices[j]) && reqs[j] == RequestFor(pages, slices[j], j == |slices| - 1))
  }

  /** A byte that a request has is of a page of its slice. */
  lemma RequestPage(reqs: seq<Evict>, slices: seq<Slice>, pages: seq<Page>, i: nat, b: nat) returns (j: nat)
    requires RequestsOf(reqs, slices, pages) && i < |reqs| && reqs[i].Has(b)
    ensures slices[i].begin <= j < slices[i].end <= |pages| && pages[j].pn == b / PAGE_SIZE
    ensures pages[j].pa + b % PAGE_SIZE == reqs[i].physStart + (b - reqs[i].start)
  {
    var s, pn := slices[i], b / PAGE_SIZE;
    SliceRuns(pages, s, s.end - 1);
    j := s.begin + (pn - pages[s.begin].pn);
    SliceRuns(pages, s, j);
  }

  lemma RequestsExact(reqs: seq<Evict>, slices: seq<Slice>, pages: seq<Page>, runs: seq<Run>, tree: Backing)
    requires RequestsOf(reqs, slices, pages) && BackedUpTo(pages, runs, tree, |runs|, 0)
    ensures Exact(reqs, runs, tree)
  {
    forall i: nat, b: nat ensures RightAt(reqs, runs, tree, i, b) {
      RequestRight(reqs, slices, pages, runs, tree, i, b);
    }
    forall b: nat | InRuns(runs, b / PAGE_SIZE) && b / PAGE_SIZE in tree ensures InRequest(reqs, b) {
      BackedIsRequested(reqs, slices, pages, runs, tree, b);
    }
  }

  lemma RequestRight(reqs: seq<Evict>, slices: seq<Slice>, pages: seq<Page>, runs: seq<Run>, tree: Backing, i: nat,
                     b: nat)
    requires RequestsOf(reqs, slices, pages) && BackedUpTo(pages, runs, tree, |runs|, 0)
    ensures RightAt(reqs, runs, tree, i, b)
  {
    if i < |reqs| && reqs[i].Has(b) {
      var j := RequestPage(reqs, slices, pages, i, b);
      ListedIsBacked(pages, runs, tree, j);
    }
  }

  lemma BackedIsRequested(reqs: seq<Evict>, slices: seq<Slice>, pages: seq<Page>, runs: seq<Run>, tree: Backing, b: nat)
    requires RequestsOf(reqs, slices, pages) && BackedUpTo(pages, runs, tree, |runs|, 0)
    requires InRuns(runs, b / PAGE_SIZE) && b / PAGE_SIZE in tree
    ensures InRequest(reqs, b)
  {
    var j := BackedIsListed(pages, runs, tree, b / PAGE_SIZE);
    var i := PageRequest(reqs, slices, pages, j, b);
  }

  lemma ListedIsBacked(pages: seq<Page>, runs: seq<Run>, tree: Backing, j: nat)
    requires BackedUpTo(pages, runs, tree, |runs|, 0) && j < |pages|
    ensures InRuns(runs, pages[j].pn) && pages[j].pn in tree && tree[pages[j].pn] == pages[j].pa
  {
    assert PageOk(pages[j], runs, tree, |runs|, 0);
  }

  lemma BackedIsListed(pages: seq<Page>, runs: seq<Run>, tree: Backing, pn: nat) returns (j: nat)
    requires BackedUpTo(pages, runs, tree, |runs|, 0) && InRuns(runs, pn) && pn in tree
    ensures j < |pages| && pages[j].pn == pn
  {
    assert SeenPage(runs, |runs|, 0, pn);
    assert Listed(pages, pn);
    j :| 0 <= j < |pages| && pages[j].pn == pn;
  }

  /** Every byte of a page of the list is in the request of its slice. */
  lemma PageRequest(reqs: seq<Evict>, slices: seq<Slice>, pages: seq<Page>, j: nat, b: nat) returns (i: nat)
    requires RequestsOf(reqs, slices, pages) && j < |pages| && b / PAGE_SIZE == pages[j].pn
    ensures i < |reqs| && reqs[i].Has(b)
  {
    i := SliceOf(slices, pages, |pages|, j);
    SliceRuns(pages, slices[i], j);
    SliceRuns(pages, slices[i], slices[i].end - 1);
  }

  lemma RequestsWellCut(reqs: seq<Evict>, slices: seq<Slice>, pages: seq<Page>)
    requires RequestsOf(reqs, slices, pages) && Increasing(pages)
    ensures WellCut(reqs)
  {
    forall i, j | 0 <= i < j < |reqs| ensures reqs[i].end <= reqs[j].start {
      SlicesOrdered(slices, pages, |pages|, i, j);
      assert pages[slices[i].end - 1].pn < pages[slices[j].begin].pn;
    }
    forall i | 0 <= i < |reqs|
      ensures reqs[i].start < reqs[i].end && reqs[i].end - reqs[i].start == reqs[i].physEnd - reqs[i].physStart
    {
      SliceRuns(pages, slices[i], slices[i].end - 1);
    }
    forall i | 0 <= i < |reqs| - 1
      ensures !(reqs[i].end == reqs[i + 1].start && reqs[i].physEnd == reqs[i + 1].physStart)
    {
      assert SliceOk(pages, slices[i]) && SliceOk(pages, slices[i + 1]) && Chained(slices, i + 1);
      assert !Joined(pages, slices[i].end);
    }
  }
}
