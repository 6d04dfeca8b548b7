/** Page ranges and the tree of disjoint ranges that makes up an object
    (src/kernel/src/obj/range.rs, src/kernel/src/obj/copy.rs).

    A range is a window (start, length, offset) onto backing pages.  The tree maps
    each covered page number to the range that covers it; it stands for the
    non-overlapping interval tree, whose contract is: `get` finds the range that
    contains a page, `insert_replace` puts a range in and returns every overlapping
    range it kicked out, `range` yields the overlapping ranges in increasing order. */
module PageRanges {
  import opened Options

  type PageId = nat   // identity of an Arc<Page>
  type VecId = nat    // identity of an Arc<Mutex<PageVec>>

  datatype Backing = Nothing | Single(page: PageId) | Many(vec: VecId)

  datatype PageRange = PageRange(start: nat, length: nat, offset: nat, backing: Backing) {
    function End(): nat { start + length }

    predicate Covers(pn: nat) { start <= pn < End() }

    predicate Overlaps(lo: nat, hi: nat) { start < hi && lo < End() }

    /** `new_from`: another window onto the same backing pages. */
    function NewFrom(newStart: nat, newOffset: nat, newLength: nat): PageRange {
      PageRange(newStart, newLength, newOffset, backing)
    }

    /** The index into the backing pages that page `pn` of the object uses. */
    function Index(pn: nat): int { offset + pn - start }
  }

  /** `part` is a piece of `whole`: a sub-window that shows the same backing
      page at each page number. */
  ghost predicate IsPiece(part: PageRange, whole: PageRange) {
    && part.length > 0
    && whole.start <= part.start && part.End() <= whole.End()
    && part.backing == whole.backing
    && part.offset == whole.Index(part.start)
  }

  type Tree = map<nat, PageRange>

  /** Every page a range covers is filed under that range. */
  ghost predicate TreeOk(t: Tree) {
    && (forall pn :: pn in t ==> t[pn].Covers(pn))
    && (forall pn, q: nat {:trigger t[pn].Covers(q)} :: pn in t && t[pn].Covers(q) ==> q in t && t[q] == t[pn])
  }

  /** `r` is an entry of the tree. */
  predicate Entry(t: Tree, r: PageRange) { r.length > 0 && r.start in t && t[r.start] == r }

  /** What a tree shows at a page: the backing and the index into it. */
  function Slot(t: Tree, pn: nat): Option<(Backing, int)> {
    if pn in t then Some((t[pn].backing, t[pn].Index(pn))) else None
  }

  /** The pages of a range, all filed under it. */
  function Window(r: PageRange): (w: Tree)
    ensures forall pn: nat :: pn in w <==> r.Covers(pn)
    ensures forall pn :: pn in w ==> w[pn] == r
  {
    map pn: nat | r.start <= pn < r.End() && r.Covers(pn) :: r
  }

  /** `tree.insert_replace`, the tree after the insertion. */
  function InsertReplace(t: Tree, r: PageRange): Tree {
    (map pn | pn in t && !t[pn].Overlaps(r.start, r.End()) :: t[pn]) + Window(r)
  }

  /** `tree.remove` of the range `r`. */
  function Remove(t: Tree, r: PageRange): Tree {
    map pn | pn in t && t[pn] != r :: t[pn]
  }

  lemma EntryAt(t: Tree, pn: nat)
    requires TreeOk(t) && pn in t
    ensures Entry(t, t[pn])
  {
    assert t[pn].Covers(t[pn].start);
  }

  lemma EntriesDisjoint(t: Tree, x: PageRange, y: PageRange)
    requires TreeOk(t) && Entry(t, x) && Entry(t, y)
    ensures x == y || x.End() <= y.start || y.End() <= x.start
  {
    if x.Covers(y.start) { assert t[x.start].Covers(y.start); }
    if y.Covers(x.start) { assert t[y.start].Covers(x.start); }
  }

  /** Inserting keeps the ranges disjoint and kicks exactly the overlapping ones. */
  lemma InsertOk(t: Tree, r: PageRange)
    requires TreeOk(t)
    ensures TreeOk(InsertReplace(t, r))
  {
    var t' := InsertReplace(t, r);
    forall pn, q: nat | pn in t' && t'[pn].Covers(q) ensures q in t' && t'[q] == t'[pn] {
      if !r.Covers(pn) { assert t[pn].Covers(q); }
    }
  }

  lemma RemoveOk(t: Tree, r: PageRange)
    requires TreeOk(t)
    ensures TreeOk(Remove(t, r))
  {
    var t' := Remove(t, r);
    forall pn, q: nat | pn in t' && t'[pn].Covers(q) ensures q in t' && t'[q] == t'[pn] {
      assert t[pn].Covers(q);
    }
  }

  /** The ranges that overlap [lo, hi), in increasing order: what `tree.range`
      yields and what `tree.insert_replace` kicks out. */
  function Overlapping(t: Tree, lo: nat, hi: nat): (s: seq<PageRange>)
    requires TreeOk(t)
    decreases hi - lo
  {
    if hi <= lo then []
    else if lo !in t then Overlapping(t, lo + 1, hi)
    else [t[lo]] + if t[lo].End() < hi then Overlapping(t, t[lo].End(), hi) else []
  }

  /** `s` lists entries of `t` that overlap [lo, hi), in increasing order. */
  ghost predicate Entries(s: seq<PageRange>, t: Tree, lo: nat, hi: nat) {
    && (forall i :: 0 <= i < |s| ==> Entry(t, s[i]) && s[i].Overlaps(lo, hi))
    && (forall i, j :: 0 <= i < j < |s| ==> s[i].End() <= s[j].start)
  }

  /** `Overlapping` is the contract of the interval tree's `range`: overlapping
      entries, each once, in increasing order ... */
  lemma {:induction false} OverlappingIsRange(t: Tree, lo: nat, hi: nat)
    requires TreeOk(t)
    ensures Entries(Overlapping(t, lo, hi), t, lo, hi)
    decreases hi - lo
  {
    if lo >= hi {
    } else if lo !in t {
      OverlappingIsRange(t, lo + 1, hi);
    } else {
      var r := t[lo];
      EntryAt(t, lo);
      if r.End() < hi {
        OverlappingIsRange(t, r.End(), hi);
        var rest := Overlapping(t, r.End(), hi);
        forall j | 0 <= j < |rest| ensures r.End() <= rest[j].start {
          EntriesDisjoint(t, r, rest[j]);
        }
      }
    }
  }

  /** ... and all of them. */
  lemma {:induction false} OverlappingComplete(t: Tree, lo: nat, hi: nat, pn: nat)
    requires TreeOk(t) && lo <= pn < hi && pn in t
    ensures t[pn] in Overlapping(t, lo, hi)
    decreases hi - lo
  {
    if lo !in t {
      OverlappingComplete(t, lo + 1, hi, pn);
    } else if pn < t[lo].End() {
      assert t[lo].Covers(pn);
    } else {
      OverlappingComplete(t, t[lo].End(), hi, pn);
    }
  }

  /** The last range that begins before `pn`, if there is one:
      `tree.range_mut(0..pn).last()`. */
  function LastBefore(t: Tree, pn: nat): (r: Option<PageRange>)
    ensures r.Some? ==> pn > 0 && exists q ::
      0 <= q < pn && q in t && t[q] == r.value && forall x :: q < x < pn ==> x !in t
    ensures r.None? ==> forall q: nat :: q < pn ==> q !in t
  {
    if pn == 0 then None
    else if pn - 1 in t then Some(t[pn - 1])
    else LastBefore(t, pn - 1)
  }

  /** `split_range`: what is left of `r` before and after [lo, hi). */
  function SplitRange(r: PageRange, lo: nat, hi: nat): (Option<PageRange>, Option<PageRange>)
    requires lo < hi && r.Overlaps(lo, hi)
  {
    var r1 := if r.start < lo then Some(r.NewFrom(r.start, r.offset, lo - r.start)) else None;
    var r2 := if r.End() > hi then
      Some(r.NewFrom(hi, r.offset + (hi - r.start), r.End() - hi)) else None;
    (r1, r2)
  }

  /** `split_at`: the parts of `r` before, at and after page `pn`. */
  function SplitAt(r: PageRange, pn: nat): (Option<PageRange>, PageRange, Option<PageRange>)
    requires r.Covers(pn)
  {
    var r1 := if pn > r.start then Some(r.NewFrom(r.start, r.offset, pn - r.start)) else None;
    var r3 := if pn < r.start + (r.length - 1) then
      Some(r.NewFrom(pn + 1, r.offset + (pn + 1 - r.start), r.start + (r.length - 1) - pn)) else None;
    (r1, r.NewFrom(pn, r.offset + (pn - r.start), 1), r3)
  }

  ghost predicate Gap(t: Tree, lo: nat, hi: nat) {
    forall pn :: lo <= pn < hi ==> pn !in t
  }

  lemma {:induction false} GapHasNone(t: Tree, lo: nat, hi: nat)
    requires TreeOk(t) && Gap(t, lo, hi)
    ensures Overlapping(t, lo, hi) == []
    decreases hi - lo
  {
    if lo >= hi {
    } else {
      GapHasNone(t, lo + 1, hi);
    }
  }

  /** `t'` is `t` with range `r` added. */
  ghost predicate Added(t': Tree, t: Tree, r: PageRange) {
    && (forall pn: nat :: pn in t' <==> pn in t || r.Covers(pn))
    && (forall pn :: pn in t' ==> t'[pn] == if r.Covers(pn) then r else t[pn])
  }

  /** Inserting into a gap kicks nothing and adds just the one range. */
  lemma InsertInGap(t: Tree, r: PageRange)
    requires TreeOk(t) && r.length > 0 && Gap(t, r.start, r.End())
    ensures Overlapping(t, r.start, r.End()) == []
    ensures TreeOk(InsertReplace(t, r)) && Added(InsertReplace(t, r), t, r)
  {
    GapHasNone(t, r.start, r.End());
    forall pn | pn in t ensures !t[pn].Overlaps(r.start, r.End()) {
      EntryAt(t, pn);
      if t[pn].start < r.start { assert !t[pn].Covers(r.start); }
    }
    InsertOk(t, r);
  }

  /** `split_into_three` and the like insert where nothing is in the way, so the
      assertion that follows the insertion in the source holds. */
  method InsertNoKick(t: Tree, r: PageRange) returns (t': Tree)
    requires TreeOk(t) && r.length > 0 && Gap(t, r.start, r.End())
    ensures TreeOk(t') && Added(t', t, r)
  {
    InsertInGap(t, r);
    var res := Overlapping(t, r.start, r.End());
    assert res == [];
    t' := InsertReplace(t, r);
  }

  /** The part of `r` that shows page `q` once `r` is split around page `pn`. */
  function Part(r: PageRange, pn: nat, middle: Backing, q: nat): PageRange
    requires r.Covers(pn)
  {
    var (r1, r2, r3) := SplitAt(r, pn);
    if q < pn && r1.Some? then r1.value else if pn < q && r3.Some? then r3.value else r2.(backing := middle)
  }

  /** A tree with one range replaced by its three parts around page `pn`, the
      middle part on another backing: where `split_into_three` ends up. */
  function SplitThree(t: Tree, pn: nat, middle: Backing): Tree
    requires pn in t && t[pn].Covers(pn)
  {
    map q | q in t :: if t[q] == t[pn] then Part(t[pn], pn, middle, q) else t[q]
  }

  /** The insertions of `split_into_three`: the three parts go into the gap that
      taking the range out left, so each of its assertions holds. */
  method InsertParts(t: Tree, pn: nat, middle: Backing) returns (t': Tree)
    requires TreeOk(t) && pn in t
    ensures t' == SplitThree(t, pn, middle) && TreeOk(t')
  {
    var r := t[pn];
    RemoveOk(t, r);
    t' := Remove(t, r);
    var (r1, r2, r3) := SplitAt(r, pn);
    r2 := r2.(backing := middle);
    RemoveLeavesGap(t, pn);
    if r1.Some? {
      t' := InsertNoKick(t', r1.value);
    }
    ghost var t1 := t';
    t' := InsertNoKick(t', r2);
    ghost var t2 := t';
    if r3.Some? {
      t' := InsertNoKick(t', r3.value);
    }
    PartsAdded(t, pn, middle, t1, t2, t');
  }

  /** `t'` is `t`, or `t` with range `r` added if there is one. */
  ghost predicate AddedIfAny(t': Tree, t: Tree, r: Option<PageRange>) {
    if r.Some? then Added(t', t, r.value) else t' == t
  }

  lemma PartsAdded(t: Tree, pn: nat, middle: Backing, t1: Tree, t2: Tree, t3: Tree)
    requires TreeOk(t) && pn in t && AddedIfAny(t1, Remove(t, t[pn]), SplitAt(t[pn], pn).0)
    requires Added(t2, t1, SplitAt(t[pn], pn).1.(backing := middle)) && AddedIfAny(t3, t2, SplitAt(t[pn], pn).2)
    ensures t3 == SplitThree(t, pn, middle)
  {
    PartsMakeSplit(t, pn, middle, t3);
  }

  lemma PartsMakeSplit(t: Tree, pn: nat, middle: Backing, t': Tree)
    requires TreeOk(t) && pn in t
    requires forall q: nat :: q in t' <==> q in Remove(t, t[pn]) || t[pn].Covers(q)
    requires forall q: nat :: q in t' ==> t'[q] == if t[pn].Covers(q) then Part(t[pn], pn, middle, q) else t[q]
    ensures t' == SplitThree(t, pn, middle)
  {
    forall q: nat ensures t[pn].Covers(q) <==> q in t && t[q] == t[pn] {}
  }

  lemma RemoveLeavesGap(t: Tree, pn: nat)
    requires TreeOk(t) && pn in t
    ensures Gap(Remove(t, t[pn]), t[pn].start, t[pn].End())
  {
    forall q: nat | t[pn].Covers(q) ensures q !in Remove(t, t[pn]) {
      assert t[pn].Covers(q);
    }
  }

  /** The parts of a split range cover its pages without overlap. */
  lemma PartCovers(r: PageRange, pn: nat, middle: Backing, x: nat, q: nat)
    requires r.Covers(pn) && r.Covers(x) && Part(r, pn, middle, x).Covers(q)
    ensures r.Covers(q) && Part(r, pn, middle, q) == Part(r, pn, middle, x)
  {
  }

  lemma SplitThreeOk(t: Tree, pn: nat, middle: Backing)
    requires TreeOk(t) && pn in t
    ensures TreeOk(SplitThree(t, pn, middle))
  {
    var t', r := SplitThree(t, pn, middle), t[pn];
    forall x, q: nat | x in t' && t'[x].Covers(q) ensures q in t' && t'[q] == t'[x] {
      if t[x] == r {
        PartCovers(r, pn, middle, x, q);
      }
      assert t[x].Covers(q);
    }
  }

  /** Splitting gives page `pn` a range of its own on the new backing; every other
      page keeps its range or gets a piece of it. */
  lemma SplitThreeAt(t: Tree, pn: nat, middle: Backing, q: nat)
    requires TreeOk(t) && pn in t
    ensures SplitThree(t, pn, middle)[pn] == PageRange(pn, 1, t[pn].Index(pn), middle)
    ensures q in t && q != pn ==>
      Trimmed(SplitThree(t, pn, middle)[q], t[q], PageRange(pn, 1, t[pn].Index(pn), middle), q)
    ensures q != pn ==> Slot(SplitThree(t, pn, middle), q) == Slot(t, q)
  {
  }

  /** Taking range `r` out and putting `r'` in, where `r'` fits the gap. */
  lemma ReplaceOk(t: Tree, r: PageRange, r': PageRange)
    requires TreeOk(t) && r'.length > 0 && Gap(Remove(t, r), r'.start, r'.End())
    ensures TreeOk(InsertReplace(Remove(t, r), r'))
    ensures Added(InsertReplace(Remove(t, r), r'), Remove(t, r), r')
  {
    RemoveOk(t, r);
    InsertInGap(Remove(t, r), r');
  }

  /** What inserting window `w` leaves of range `whole` at a page `pn` outside: the
      whole of it where the two do not meet, and else all that lies on that side. */
  ghost predicate Trimmed(part: PageRange, whole: PageRange, w: PageRange, pn: nat) {
    && IsPiece(part, whole)
    && (!whole.Overlaps(w.start, w.End()) ==> part == whole)
    && (pn < w.start ==> part.start == whole.start)
    && (pn >= w.End() ==> part.End() == whole.End())
  }

  /** The tree while the kicked ranges in `todo` are still out: the inserted window
      shows `r`; any other page shows what is left of its old range, or nothing if that
      range is waiting to be put back. */
  ghost predicate Splicing(t: Tree, t0: Tree, r: PageRange, todo: seq<PageRange>) {
    && TreeOk(t) && TreeOk(t0)
    && (forall pn: nat :: r.Covers(pn) ==> pn in t && t[pn] == r)
    && (forall pn: nat :: pn in t && !r.Covers(pn) ==>
          pn in t0 && t0[pn] !in todo && Trimmed(t[pn], t0[pn], r, pn))
    && (forall pn: nat :: pn in t0 && !r.Covers(pn) && t0[pn] !in todo ==> pn in t)
  }

  lemma InsertStartsSplice(t: Tree, r: PageRange, todo: seq<PageRange>)
    requires TreeOk(t) && forall pn :: pn in t ==> (t[pn] in todo <==> t[pn].Overlaps(r.start, r.End()))
    ensures Splicing(InsertReplace(t, r), t, r, todo)
  {
    InsertOk(t, r);
  }

  /** A piece of a range that is waiting fits into a gap of the tree. */
  lemma WaitingPieceFits(t: Tree, t0: Tree, r: PageRange, todo: seq<PageRange>, k: PageRange, piece: PageRange)
    requires Splicing(t, t0, r, todo) && k in todo && Entry(t0, k)
    requires IsPiece(piece, k) && !piece.Overlaps(r.start, r.End())
    ensures Gap(t, piece.start, piece.End())
  {
    forall pn: nat | piece.Covers(pn) ensures pn !in t {
      assert t0[k.start].Covers(pn);
    }
  }

  /** One turn of the source's loop over the kicked ranges: the parts of `k`
      before and after the inserted window go back in, and neither kicks. */
  method Reinsert(t: Tree, ghost t0: Tree, r: PageRange, ghost todo: seq<PageRange>, k: PageRange) returns (t': Tree)
    requires Splicing(t, t0, r, [k] + todo) && k !in todo && Entry(t0, k) && r.length > 0 &&
      k.Overlaps(r.start, r.End())
    ensures Splicing(t', t0, r, todo)
  {
    t' := t;
    var (r1, r2) := SplitRange(k, r.start, r.End());
    if r1.Some? {
      WaitingPieceFits(t, t0, r, [k] + todo, k, r1.value);
      t' := InsertNoKick(t', r1.value);
    }
    if r2.Some? {
      WaitingPieceFits(t, t0, r, [k] + todo, k, r2.value);
      t' := InsertNoKick(t', r2.value);
    }
    ReinsertKeeps(t', t, t0, r, todo, k);
  }

  lemma ReinsertKeeps(t': Tree, t: Tree, t0: Tree, r: PageRange, todo: seq<PageRange>, k: PageRange)
    requires Splicing(t, t0, r, [k] + todo) && k !in todo && Entry(t0, k) && r.length > 0 &&
      k.Overlaps(r.start, r.End())
    requires TreeOk(t')
    requires forall pn: nat :: pn in t' <==> pn in t || (k.Covers(pn) && !r.Covers(pn))
    requires forall pn: nat :: pn in t' && !(k.Covers(pn) && !r.Covers(pn)) ==> t'[pn] == t[pn]
    requires forall pn: nat :: k.Covers(pn) && !r.Covers(pn) ==> Trimmed(t'[pn], k, r, pn)
    ensures Splicing(t', t0, r, todo)
  {
    forall pn: nat ensures k.Covers(pn) <==> pn in t0 && t0[pn] == k {
      assert t0[k.start].Covers(pn) <==> k.Covers(pn);
    }
  }

  /** `copy_range_to_object_tree`: show `range[offset .. offset + length)` at
      `destPoint`.  Ranges kicked out by the insertion are cut down to what lies
      outside the inserted window and put back; putting them back never kicks
      anything, so the two assertions of the source hold.  (`gc_pagevec` only
      calls a stub and does nothing here.) */
  method CopyRangeToObjectTree(t: Tree, destPoint: nat, range: PageRange, offset: nat, length: nat)
    returns (t': Tree)
    requires TreeOk(t) && length > 0
    ensures TreeOk(t') && Spliced(t', t, range.NewFrom(destPoint, range.offset + offset, length))
  {
    var newRange := range.NewFrom(destPoint, range.offset + offset, length);
    var kicked := Overlapping(t, newRange.start, newRange.End());
    t' := InsertReplace(t, newRange);
    KickedStartSplice(t, newRange);
    OverlappingIsRange(t, newRange.start, newRange.End());
    for i := 0 to |kicked|
      invariant Splicing(t', t, newRange, kicked[i..])
    {
      NextKicked(t, kicked, i, newRange.start, newRange.End());
      t' := Reinsert(t', t, newRange, kicked[i + 1..], kicked[i]);
    }
    SpliceDone(t', t, newRange, kicked[|kicked|..]);
  }

  /** The inserted window shows `r`; every other page shows what is left of the range it
      showed before, or nothing as before. */
  ghost predicate Spliced(t': Tree, t: Tree, r: PageRange) {
    && (forall pn: nat :: r.Covers(pn) ==> pn in t' && t'[pn] == r)
    && (forall pn: nat :: !r.Covers(pn) ==>
          (pn in t' <==> pn in t) && (pn in t ==> Trimmed(t'[pn], t[pn], r, pn)))
  }

  lemma SpliceDone(t': Tree, t: Tree, r: PageRange, todo: seq<PageRange>)
    requires Splicing(t', t, r, todo) && todo == []
    ensures Spliced(t', t, r)
  {
  }

  lemma KickedStartSplice(t: Tree, r: PageRange)
    requires TreeOk(t) && r.length > 0
    ensures Splicing(InsertReplace(t, r), t, r, Overlapping(t, r.start, r.End()))
  {
    KickedAreOverlapping(t, r.start, r.End());
    InsertStartsSplice(t, r, Overlapping(t, r.start, r.End()));
  }

  lemma NextKicked(t: Tree, s: seq<PageRange>, i: nat, lo: nat, hi: nat)
    requires Entries(s, t, lo, hi) && i < |s|
    ensures s[i..] == [s[i]] + s[i + 1..] && s[i] !in s[i + 1..] && Entry(t, s[i]) && s[i].Overlaps(lo, hi)
  {
    assert Entry(t, s[i]);
    forall j | i < j < |s| ensures s[j] != s[i] {
      assert s[i].End() <= s[j].start;
    }
  }

  /** The kicked list holds each overlapping range exactly once. */
  lemma KickedAreOverlapping(t: Tree, lo: nat, hi: nat)
    requires TreeOk(t) && lo < hi
    ensures Entries(Overlapping(t, lo, hi), t, lo, hi)
    ensures forall pn :: pn in t ==> (t[pn] in Overlapping(t, lo, hi) <==> t[pn].Overlaps(lo, hi))
  {
    OverlappingIsRange(t, lo, hi);
    forall pn | pn in t && t[pn].Overlaps(lo, hi) ensures t[pn] in Overlapping(t, lo, hi) {
      var q := if t[pn].start < lo then lo else t[pn].start;
      assert t[pn].Covers(q);
      OverlappingComplete(t, lo, hi, q);
    }
  }

  /** Range `x` shows at page `pn` what range `y` shows at page `qn`. */
  ghost predicate Shows(x: PageRange, pn: nat, y: PageRange, qn: nat) {
    x.backing == y.backing && x.Index(pn) == y.Index(qn) && x.length <= y.length
  }

  /** What page `pn` of the destination shows once pages [0, done) of the copy have
      been done: the source's view where a source range covers the page, what is left of
      its own range elsewhere, which after the window is all that lay there. */
  ghost predicate CopiedPage(t': Tree, t: Tree, src: Tree, destStart: nat, srcStart: nat, done: nat, pn: nat) {
    if destStart <= pn < destStart + done && srcStart + (pn - destStart) in src then
      pn in t' && Shows(t'[pn], pn, src[srcStart + (pn - destStart)], srcStart + (pn - destStart))
    else
      (pn in t' <==> pn in t) &&
      (pn in t ==> IsPiece(t'[pn], t[pn]) && (pn >= destStart + done ==> t'[pn].End() == t[pn].End()))
  }

  ghost predicate CopiedUpTo(t': Tree, t: Tree, src: Tree, destStart: nat, srcStart: nat, done: nat) {
    forall pn: nat :: CopiedPage(t', t, src, destStart, srcStart, done, pn)
  }

  /** A page before the next listed entry, and at or after the previous one, is a hole. */
  lemma HoleBefore(src: Tree, s: seq<PageRange>, i: nat, lo: nat, hi: nat, pn: nat)
    requires TreeOk(src) && s == Overlapping(src, lo, hi) && i <= |s| && lo <= pn < hi
    requires i > 0 ==> s[i - 1].End() <= pn
    requires i < |s| ==> pn < s[i].start
    ensures pn !in src
  {
    OverlappingIsRange(src, lo, hi);
    forall j | 0 <= j < |s| ensures !s[j].Covers(pn) {
      assert j < i - 1 ==> s[j].End() <= s[i - 1].start;
      assert i < j ==> s[i].End() <= s[j].start;
    }
    if pn in src {
      OverlappingComplete(src, lo, hi, pn);
      assert false;
    }
  }

  /** Pages of the window up to the next listed source range are holes, so they
      count as copied without touching the destination. */
  lemma SkipHole(t: Tree, dest: Tree, src: Tree, destStart: nat, srcStart: nat, done: nat, done': nat)
    requires CopiedUpTo(t, dest, src, destStart, srcStart, done) && done <= done'
    requires Gap(src, srcStart + done, srcStart + done')
    ensures CopiedUpTo(t, dest, src, destStart, srcStart, done')
  {
    forall pn: nat ensures CopiedPage(t, dest, src, destStart, srcStart, done', pn) {
      assert CopiedPage(t, dest, src, destStart, srcStart, done, pn);
    }
  }

  lemma GapBefore(src: Tree, s: seq<PageRange>, i: nat, lo: nat, hi: nat, point: nat)
    requires TreeOk(src) && s == Overlapping(src, lo, hi) && i <= |s| && lo <= point <= hi
    requires i > 0 ==> s[i - 1].End() <= point || point == hi
    ensures i < |s| && s[i].start <= hi ==> Gap(src, point, s[i].start)
    ensures i == |s| ==> Gap(src, point, hi)
  {
    forall pn | point <= pn < hi && (i < |s| ==> pn < s[i].start) ensures pn !in src {
      HoleBefore(src, s, i, lo, hi, pn);
    }
  }

  lemma SpliceCopies(t': Tree, t: Tree, dest: Tree, src: Tree, destStart: nat, srcStart: nat, done: nat,
                     range: PageRange, r: PageRange)
    requires TreeOk(src) && Entry(src, range) && TreeOk(t') && TreeOk(t) && Spliced(t', t, r)
    requires CopiedUpTo(t, dest, src, destStart, srcStart, done)
    requires range.Covers(srcStart + done) && 0 < r.length <= range.End() - (srcStart + done)
    requires r == range.NewFrom(destStart + done, range.offset + (srcStart + done - range.start), r.length)
    ensures CopiedUpTo(t', dest, src, destStart, srcStart, done + r.length)
  {
    var done' := done + r.length;
    forall pn: nat ensures CopiedPage(t', dest, src, destStart, srcStart, done', pn) {
      assert CopiedPage(t, dest, src, destStart, srcStart, done, pn);
      if r.Covers(pn) {
        assert src[range.start].Covers(srcStart + (pn - destStart));
      }
    }
  }

  /** One turn of the page-copy loop on the part of `range` that is wanted. */
  method CopyWindow(t: Tree, ghost dest: Tree, ghost src: Tree, ghost destStart: nat, ghost srcStart: nat,
                    ghost done: nat, destPoint: nat, range: PageRange, offset: nat, len: nat)
    returns (t': Tree)
    requires TreeOk(t) && TreeOk(src) && Entry(src, range)
    requires CopiedUpTo(t, dest, src, destStart, srcStart, done) && destPoint == destStart + done
    requires range.start + offset == srcStart + done && 0 < len <= range.length - offset
    ensures TreeOk(t') && CopiedUpTo(t', dest, src, destStart, srcStart, done + len)
  {
    t' := CopyRangeToObjectTree(t, destPoint, range, offset, len);
    SpliceCopies(t', t, dest, src, destStart, srcStart, done, range,
                 range.NewFrom(destPoint, range.offset + offset, len));
  }

  /** The loop that copies whole pages, as it stands in `copy_ranges` and again
      in `copy_range_to_shadow`.  The branch for a hole bigger than what is left
      of the copy is unreachable. */
  method CopyFullPages(src: Tree, srcStart: nat, dest: Tree, destStart: nat, n: nat, ghost last: int)
    returns (t': Tree, srcPoint: nat, destPoint: nat, remaining: nat)
    requires TreeOk(src) && TreeOk(dest) && last == srcStart + n - 1
    ensures TreeOk(t') && CopiedUpTo(t', dest, src, destStart, srcStart, n)
    ensures srcPoint + remaining == srcStart + n && destPoint + remaining == destStart + n
    ensures remaining == 0 <==> n == 0 || last in src
  {
    t', srcPoint, destPoint, remaining := dest, srcStart, destStart, n;
    if n > 0 {
      ghost var srcEnd := srcStart + n;
      var ranges := Overlapping(src, srcStart, srcStart + n);
      OverlappingIsRange(src, srcStart, srcEnd);
      for i := 0 to |ranges|
        invariant TreeOk(t')
        invariant srcPoint + remaining == srcEnd && destPoint + remaining == destStart + n && srcStart <= srcPoint
        invariant i > 0 ==> srcPoint == if ranges[i - 1].End() < srcEnd then ranges[i - 1].End() else srcEnd
        invariant i == 0 ==> srcPoint == srcStart
        invariant CopiedUpTo(t', dest, src, destStart, srcStart, srcPoint - srcStart)
      {
        var range := ranges[i];
        assert Entry(src, range) && range.Overlaps(srcStart, srcEnd);
        assert i > 0 ==> ranges[i - 1].End() <= range.start;
        if srcPoint < range.start {
          var diff := range.start - srcPoint;
          if diff >= remaining {
            assert false;
          }
          GapBefore(src, ranges, i, srcStart, srcEnd, srcPoint);
          SkipHole(t', dest, src, destStart, srcStart, srcPoint - srcStart, range.start - srcStart);
          destPoint := destPoint + diff;
          srcPoint := srcPoint + diff;
          remaining := remaining - diff;
        }
        var offset := if srcPoint < range.start then 0 else srcPoint - range.start;
        var len := if range.length - offset < remaining then range.length - offset else remaining;
        t' := CopyWindow(t', dest, src, destStart, srcStart, srcPoint - srcStart, destPoint, range, offset, len);
        destPoint := destPoint + len;
        srcPoint := srcPoint + len;
        remaining := remaining - len;
      }
      LastPageCopied(src, ranges, srcStart, srcEnd, srcPoint);
      GapBefore(src, ranges, |ranges|, srcStart, srcEnd, srcPoint);
      SkipHole(t', dest, src, destStart, srcStart, srcPoint - srcStart, n);
    }
  }

  /** The copy point reaches the end of the window exactly when the last page of the
      window is covered. */
  lemma LastPageCopied(src: Tree, s: seq<PageRange>, lo: nat, hi: nat, point: nat)
    requires TreeOk(src) && s == Overlapping(src, lo, hi) && lo < hi
    requires |s| > 0 ==> point == if s[|s| - 1].End() < hi then s[|s| - 1].End() else hi
    requires |s| == 0 ==> point == lo
    ensures lo <= point <= hi && (point == hi <==> hi - 1 in src)
  {
    OverlappingIsRange(src, lo, hi);
    if |s| > 0 {
      var r := s[|s| - 1];
      assert Entry(src, r) && r.Overlaps(lo, hi);
      if point == hi { assert src[r.start].Covers(hi - 1); }
    }
    if point < hi { HoleBefore(src, s, |s|, lo, hi, hi - 1); }
  }
}
