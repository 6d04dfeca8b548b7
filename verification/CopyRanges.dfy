/** `copy_ranges` with equal misalignment and `copy_range_to_shadow`
    (src/kernel/src/obj/copy.rs): a partial page, shared whole pages, a partial page. */
module CopyRanges {
  import opened Options
  import opened PageSize
  import opened PageRanges
  import opened ObjectStore
  import opened ObjectMemory
  import opened ObjectCopy
  import opened LastPage

  // Whole pages.

  /** What place (o, q) has after `n` whole pages were copied: the source's page
      where a source range covers it, its own elsewhere. */
  function FullContent(st: Store, dest: ObjId, destStart: nat, src: ObjId, srcStart: nat, n: nat, o: ObjId,
                       q: nat): Option<seq<byte>> {
    if o == dest && destStart <= q < destStart + n && Covered(st, src, srcStart + (q - destStart))
    then Content(st, src, srcStart + (q - destStart))
    else Content(st, o, q)
  }

  ghost predicate FullContents(st': Store, st: Store, dest: ObjId, destStart: nat, src: ObjId, srcStart: nat, n: nat) {
    forall o, q: nat :: Content(st', o, q) == FullContent(st, dest, destStart, src, srcStart, n, o, q)
  }

  ghost predicate FullCopied(st': Store, st: Store, dest: ObjId, destStart: nat, src: ObjId, srcStart: nat, n: nat) {
    && StoreOk(st') && OtherTrees(st', st, dest)
    && FullContents(st', st, dest, destStart, src, srcStart, n)
    && (forall q: nat :: Covered(st', dest, q) <==>
          Covered(st, dest, q) || (destStart <= q < destStart + n && Covered(st, src, srcStart + (q - destStart))))
  }

  lemma ShowsOk(st: Store, x: PageRange, pn: nat, y: PageRange, qn: nat)
    requires RangeOk(st, y) && Shows(x, pn, y, qn) && x.Covers(pn) && y.Covers(qn)
    ensures RangeOk(st, x)
  {
  }

  /** The range at a page of the copied-into tree shows what some range, of the
      destination or of the source, showed. */
  lemma CopiedRange(st: Store, t': Tree, dest: ObjId, destStart: nat, src: ObjId, srcStart: nat, n: nat, pn: nat)
    requires StoreOk(st) && dest in st.trees && src in st.trees && TreeOk(t') && pn in t'
    requires CopiedUpTo(t', st.trees[dest], st.trees[src], destStart, srcStart, n)
    ensures RangeOk(st, t'[pn])
    ensures t'[pn].backing.Single? ==> HeldSingly(st, t'[pn].backing.page)
  {
    assert CopiedPage(t', st.trees[dest], st.trees[src], destStart, srcStart, n, pn);
    if destStart <= pn < destStart + n && srcStart + (pn - destStart) in st.trees[src] {
      var qn := srcStart + (pn - destStart);
      assert Covered(st, src, qn);
      ShowsOk(st, t'[pn], pn, st.trees[src][qn], qn);
      assert Holds(st, src, qn, t'[pn].backing);
    } else {
      assert Covered(st, dest, pn);
      ShowsOk(st, t'[pn], pn, st.trees[dest][pn], pn);
      assert Holds(st, dest, pn, t'[pn].backing);
    }
  }

  /** Sharing whole pages keeps the store well-formed. */
  lemma FullCopyOk(st: Store, t': Tree, dest: ObjId, destStart: nat, src: ObjId, srcStart: nat, n: nat)
    requires StoreOk(st) && dest in st.trees && src in st.trees && TreeOk(t')
    requires CopiedUpTo(t', st.trees[dest], st.trees[src], destStart, srcStart, n)
    ensures StoreOk(st.(trees := st.trees[dest := t']))
  {
    var st' := st.(trees := st.trees[dest := t']);
    forall o, q | Covered(st', o, q) ensures RangeOk(st', st'.trees[o][q]) {
      FullCopiedRange(st, st', t', dest, destStart, src, srcStart, n, o, q);
    }
    forall p | HeldSingly(st', p) ensures HeldSingly(st, p) {
      var o, q :| Holds(st', o, q, Single(p));
      FullCopiedRange(st, st', t', dest, destStart, src, srcStart, n, o, q);
    }
    NewTreesOk(st', st);
  }

  lemma FullCopiedRange(st: Store, st': Store, t': Tree, dest: ObjId, destStart: nat, src: ObjId, srcStart: nat, n: nat,
                        o: ObjId, q: nat)
    requires StoreOk(st) && dest in st.trees && src in st.trees && TreeOk(t') && Covered(st', o, q)
    requires CopiedUpTo(t', st.trees[dest], st.trees[src], destStart, srcStart, n)
    requires st' == st.(trees := st.trees[dest := t'])
    ensures RangeOk(st', st'.trees[o][q])
    ensures st'.trees[o][q].backing.Single? ==> HeldSingly(st, st'.trees[o][q].backing.page)
  {
    if o == dest {
      CopiedRange(st, t', dest, destStart, src, srcStart, n, q);
    } else {
      assert Covered(st, o, q) && RangeOk(st, st.trees[o][q]);
      assert Holds(st, o, q, st.trees[o][q].backing);
    }
  }

  lemma FullCopyIsCopied(st: Store, t': Tree, dest: ObjId, destStart: nat, src: ObjId, srcStart: nat, n: nat)
    requires StoreOk(st) && dest in st.trees && src in st.trees && TreeOk(t')
    requires CopiedUpTo(t', st.trees[dest], st.trees[src], destStart, srcStart, n)
    ensures FullCopied(st.(trees := st.trees[dest := t']), st, dest, destStart, src, srcStart, n)
  {
    var st' := st.(trees := st.trees[dest := t']);
    FullCopyOk(st, t', dest, destStart, src, srcStart, n);
    ContentsAreCopied(st, st', t', dest, destStart, src, srcStart, n);
    forall q: nat
      ensures Covered(st', dest, q) <==>
        Covered(st, dest, q) || (destStart <= q < destStart + n && Covered(st, src, srcStart + (q - destStart)))
    {
      CopiedAt(st, st', t', dest, destStart, src, srcStart, n, dest, q);
    }
  }

  lemma ContentsAreCopied(st: Store, st': Store, t': Tree, dest: ObjId, destStart: nat, src: ObjId, srcStart: nat,
                          n: nat)
    requires dest in st.trees && src in st.trees && st' == st.(trees := st.trees[dest := t'])
    requires CopiedUpTo(t', st.trees[dest], st.trees[src], destStart, srcStart, n)
    ensures FullContents(st', st, dest, destStart, src, srcStart, n)
  {
    forall o, q: nat ensures Content(st', o, q) == FullContent(st, dest, destStart, src, srcStart, n, o, q) {
      CopiedAt(st, st', t', dest, destStart, src, srcStart, n, o, q);
    }
  }

  lemma CopiedAt(st: Store, st': Store, t': Tree, dest: ObjId, destStart: nat, src: ObjId, srcStart: nat, n: nat,
                 o: ObjId, q: nat)
    requires dest in st.trees && src in st.trees && st' == st.(trees := st.trees[dest := t'])
    requires CopiedUpTo(t', st.trees[dest], st.trees[src], destStart, srcStart, n)
    ensures Content(st', o, q) == FullContent(st, dest, destStart, src, srcStart, n, o, q)
    ensures Covered(st', dest, q) <==>
      Covered(st, dest, q) || (destStart <= q < destStart + n && Covered(st, src, srcStart + (q - destStart)))
  {
    assert CopiedPage(t', st.trees[dest], st.trees[src], destStart, srcStart, n, q);
  }

  lemma RangesAreCopied(st: Store, st': Store, t': Tree, dest: ObjId, destStart: nat, src: ObjId, srcStart: nat,
                        n: nat, stop: nat)
    requires dest in st.trees && src in st.trees && st' == st.(trees := st.trees[dest := t']) && stop == destStart + n
    requires CopiedUpTo(t', st.trees[dest], st.trees[src], destStart, srcStart, n)
    ensures RangesCopied(st', st, dest, destStart, src, srcStart, stop)
  {
    forall q: nat ensures RangeCopied(st', st, dest, destStart, src, srcStart, stop, q) {
      assert CopiedPage(t', st.trees[dest], st.trees[src], destStart, srcStart, n, q);
    }
  }

  lemma WholeIsCopied(st: Store, st': Store, t': Tree, dest: ObjId, destStart: nat, src: ObjId, srcStart: nat, n: nat,
                      stop: nat)
    requires dest in st.trees && src in st.trees && st' == st.(trees := st.trees[dest := t']) && stop == destStart + n
    requires CopiedUpTo(t', st.trees[dest], st.trees[src], destStart, srcStart, n) && StoreOk(st')
    ensures WholeCopied(st', st, dest, destStart, src, srcStart, stop)
  {
    RangesAreCopied(st, st', t', dest, destStart, src, srcStart, n, stop);
    CopiedAt(st, st', t', dest, destStart, src, srcStart, n, dest, stop);
  }

  /** The whole-page part of a copy, on the objects' trees.  All `n` pages are
      accounted for exactly if there are none or a source range covers the last. */
  method ShareFullPages(m: Memory, src: ObjId, srcStart: nat, dest: ObjId, destStart: nat, n: nat, ghost last: int,
                        ghost stop: nat)
    returns (srcPoint: nat, destPoint: nat, remaining: nat)
    requires m.Valid() && src in m.st.trees && dest in m.st.trees && last == srcStart + n - 1 && stop == destStart + n
    modifies m`st
    ensures m.Valid() && FullCopied(m.st, old(m.st), dest, destStart, src, srcStart, n)
    ensures WholeCopied(m.st, old(m.st), dest, destStart, src, srcStart, stop)
    ensures srcPoint + remaining == srcStart + n && destPoint + remaining == destStart + n
    ensures remaining == 0 <==> n == 0 || Covered(old(m.st), src, last)
  {
    var t';
    t', srcPoint, destPoint, remaining :=
      CopyFullPages(m.st.trees[src], srcStart, m.st.trees[dest], destStart, n, last);
    FullCopyIsCopied(m.st, t', dest, destStart, src, srcStart, n);
    WholeIsCopied(m.st, m.st.(trees := m.st.trees[dest := t']), t', dest, destStart, src, srcStart, n, stop);
    m.st := m.st.(trees := m.st.trees[dest := t']);
  }

  /** `copy_range_to_shadow`, on the page-aligned windows it asserts. */
  method CopyRangeToShadow(m: Memory, src: ObjId, srcOff: nat, dest: ObjId, destOff: nat, byteLength: nat)
    requires m.Valid() && src in m.st.trees && dest in m.st.trees
    requires srcOff % PAGE_SIZE == 0 && (srcOff + byteLength) % PAGE_SIZE == 0
    modifies m`st
    ensures m.Valid()
    ensures FullCopied(m.st, old(m.st), dest, destOff / PAGE_SIZE, src, srcOff / PAGE_SIZE, byteLength / PAGE_SIZE)
  {
    var srcStart, destStart, nrPages := srcOff / PAGE_SIZE, destOff / PAGE_SIZE, byteLength / PAGE_SIZE;
    var _, _, _ := ShareFullPages(m, src, srcStart, dest, destStart, nrPages, srcStart + nrPages - 1,
                                  destStart + nrPages);
  }

  // Bytes.

  /** How many pages `copy_ranges` reckons it touches. */
  function NrPages(srcOff: nat, byteLength: nat): nat {
    var startOffset, endOffset := srcOff % PAGE_SIZE, (srcOff + byteLength) % PAGE_SIZE;
    var partial := (if startOffset > 0 then PAGE_SIZE - startOffset else 0) + endOffset;
    (if byteLength > partial then byteLength - partial else 0) / PAGE_SIZE
      + (if startOffset == 0 && endOffset == 0 then 0 else if startOffset == 0 || endOffset == 0 then 1 else 2)
  }

  /** How many bytes those pages come to: from the start offset in the first to the
      end offset in the last. */
  function EffectiveLength(srcOff: nat, byteLength: nat): int {
    var startOffset, endOffset := srcOff % PAGE_SIZE, (srcOff + byteLength) % PAGE_SIZE;
    PAGE_SIZE * NrPages(srcOff, byteLength) - startOffset - (if endOffset > 0 then PAGE_SIZE - endOffset else 0)
  }

  /** The bytes copied are the bytes asked for exactly if the copy starts on a page
      boundary or reaches one; else a whole page too many. */
  lemma EffectiveLengthIff(srcOff: nat, byteLength: nat)
    ensures EffectiveLength(srcOff, byteLength) == byteLength <==>
      srcOff % PAGE_SIZE == 0 || srcOff % PAGE_SIZE + byteLength >= PAGE_SIZE
    ensures EffectiveLength(srcOff, byteLength) == byteLength ||
      EffectiveLength(srcOff, byteLength) == byteLength + PAGE_SIZE
  {
  }

  /** The contents of all objects, place by place, and the source pages that a range
      covers; the copy is composed at this level. */
  type Contents = (ObjId, nat) -> Option<seq<byte>>

  ghost function ContentsOf(st: Store): Contents { (o: ObjId, q: nat) => Content(st, o, q) }

  ghost function CoverageOf(st: Store, src: ObjId): nat -> bool { (q: nat) => Covered(st, src, q) }

  /** A byte of an object; a page that is not there reads as zeros. */
  ghost function ByteAt(c: Contents, o: ObjId, a: nat): byte { Bytes(c(o, a / PAGE_SIZE))[a % PAGE_SIZE] }

  /** The flat view of a copy: `len` bytes of `dest` from `d0` are replaced by the
      bytes of `src` from `s0`; no other byte of any object changes. */
  ghost predicate FlatCopy(c': Contents, c: Contents, dest: ObjId, d0: nat, src: ObjId, s0: nat, len: nat) {
    forall o: ObjId, a: nat {:trigger FlatAt(c', c, dest, d0, src, s0, len, o, a)} ::
      FlatAt(c', c, dest, d0, src, s0, len, o, a)
  }

  ghost predicate FlatAt(c': Contents, c: Contents, dest: ObjId, d0: nat, src: ObjId, s0: nat, len: nat, o: ObjId,
                         a: nat) {
    ByteAt(c', o, a) == if o == dest && d0 <= a < d0 + len then ByteAt(c, src, s0 + (a - d0)) else ByteAt(c, o, a)
  }

  /** What place (o, q) has after the aligned copy of `nr` pages that starts at byte
      `from` of the first page and ends before byte `to` of the last (0: no partial
      page at that end), where a partial page may have been left as it was. */
  ghost function AlignedContent(c: Contents, cov: nat -> bool, dest: ObjId, dp: nat, src: ObjId, sp: nat,
                                from: nat, to: nat, nr: nat, first: bool, last: bool, o: ObjId, q: nat)
    : Option<seq<byte>>
    requires from < PAGE_SIZE && to < PAGE_SIZE
  {
    if !(o == dest && dp <= q < dp + nr) then c(o, q)
    else if q == dp && from > 0 then
      if first then Some(Overwrite(Bytes(c(dest, q)), from, Bytes(c(src, sp))[from..])) else c(o, q)
    else if q == dp + nr - 1 && to > 0 then
      if last then Some(Overwrite(Bytes(c(dest, q)), 0, Bytes(c(src, sp + (q - dp)))[..to])) else c(o, q)
    else if cov(sp + (q - dp)) then c(src, sp + (q - dp))
    else c(o, q)
  }

  ghost predicate PartlyCopied(c': Contents, c: Contents, cov: nat -> bool, dest: ObjId, dp: nat, src: ObjId, sp: nat,
                               from: nat, to: nat, nr: nat, first: bool, last: bool)
    requires from < PAGE_SIZE && to < PAGE_SIZE
  {
    forall o, q: nat {:trigger c'(o, q)} ::
      c'(o, q) == AlignedContent(c, cov, dest, dp, src, sp, from, to, nr, first, last, o, q)
  }

  /** Both partial pages were copied. */
  ghost predicate AlignedCopied(c': Contents, c: Contents, cov: nat -> bool, dest: ObjId, dp: nat, src: ObjId, sp: nat,
                                from: nat, to: nat, nr: nat)
    requires from < PAGE_SIZE && to < PAGE_SIZE
  {
    PartlyCopied(c', c, cov, dest, dp, src, sp, from, to, nr, true, true)
  }

  ghost predicate SetAt(c': Contents, c: Contents, o: ObjId, pn: nat, b: seq<byte>) {
    c'(o, pn) == Some(b) && forall o', q: nat :: !(o' == o && q == pn) ==> c'(o', q) == c(o', q)
  }

  /** The contents after the first partial page, if there is one and it was copied. */
  ghost predicate FirstDone(c': Contents, c: Contents, dest: ObjId, dp: nat, src: ObjId, sp: nat, from: nat, ok: bool)
    requires from < PAGE_SIZE
  {
    if from > 0 && ok then SetAt(c', c, dest, dp, Overwrite(Bytes(c(dest, dp)), from, Bytes(c(src, sp))[from..]))
    else forall o, q: nat :: c'(o, q) == c(o, q)
  }

  /** The contents after the whole pages. */
  ghost predicate FullDone(c': Contents, c: Contents, cov: nat -> bool, dest: ObjId, dp: nat, src: ObjId, sp: nat,
                           n: nat) {
    forall o, q: nat {:trigger c'(o, q)} ::
      c'(o, q) == if o == dest && dp <= q < dp + n && cov(sp + (q - dp)) then c(src, sp + (q - dp)) else c(o, q)
  }

  /** The contents after the last partial page, if there is one and it was copied. */
  ghost predicate LastDone(c': Contents, c: Contents, dest: ObjId, dp: nat, src: ObjId, sp: nat, to: nat, ok: bool)
    requires to < PAGE_SIZE
  {
    if to > 0 && ok then SetAt(c', c, dest, dp, Overwrite(Bytes(c(dest, dp)), 0, Bytes(c(src, sp))[..to]))
    else forall o, q: nat :: c'(o, q) == c(o, q)
  }

  /** First partial page, whole pages and last partial page make up the aligned copy,
      with no gap and no overlap. */
  lemma PiecesCompose(c: Contents, c1: Contents, c2: Contents, c3: Contents, cov: nat -> bool, dest: ObjId, src: ObjId,
                      dp: nat, sp: nat, dp1: nat, sp1: nat, dp2: nat, sp2: nat, from: nat, to: nat, vecPages: nat,
                      nr: nat, first: bool, last: bool)
    requires src != dest && from < PAGE_SIZE && to < PAGE_SIZE
    requires dp1 - dp == sp1 - sp == (if from > 0 then 1 else 0) && dp2 - dp1 == sp2 - sp1 == vecPages
    requires dp + nr == dp2 + (if to > 0 then 1 else 0)
    requires FirstDone(c1, c, dest, dp, src, sp, from, first)
    requires FullDone(c2, c1, cov, dest, dp1, src, sp1, vecPages)
    requires LastDone(c3, c2, dest, dp2, src, sp2, to, last)
    ensures PartlyCopied(c3, c, cov, dest, dp, src, sp, from, to, nr, first, last)
  {
    forall o, q: nat ensures c3(o, q) == AlignedContent(c, cov, dest, dp, src, sp, from, to, nr, first, last, o, q) {
      if dp <= q {
        var x: nat := sp + (q - dp);
        assert c1(src, x) == c(src, x);
        assert c2(src, x) == c1(src, x);
      }
      if o == dest && q == dp2 && to > 0 {
        assert c2(dest, q) == c1(dest, q) == c(dest, q);
      } else {
        assert c3(o, q) == c2(o, q);
      }
    }
  }

  /** Byte by byte: the window of the effective length has the source's bytes, except
      that whole pages over a hole of the source tree keep their own. */
  lemma AlignedByte(c': Contents, c: Contents, cov: nat -> bool, dest: ObjId, destOff: nat, src: ObjId, srcOff: nat,
                    len: nat, o: ObjId, a: nat)
    requires srcOff % PAGE_SIZE == destOff % PAGE_SIZE
    requires AlignedCopied(c', c, cov, dest, destOff / PAGE_SIZE, src, srcOff / PAGE_SIZE, srcOff % PAGE_SIZE,
                           (srcOff + len) % PAGE_SIZE, NrPages(srcOff, len))
    ensures var eff := EffectiveLength(srcOff, len);
      ByteAt(c', o, a) ==
        if o == dest && destOff <= a < destOff + eff && !HoleAt(cov, destOff, srcOff, len, a)
        then ByteAt(c, src, srcOff + (a - destOff)) else ByteAt(c, o, a)
  {
    var from, to, nr := srcOff % PAGE_SIZE, (srcOff + len) % PAGE_SIZE, NrPages(srcOff, len);
    var dp, sp, q := destOff / PAGE_SIZE, srcOff / PAGE_SIZE, a / PAGE_SIZE;
    assert c'(o, q) == AlignedContent(c, cov, dest, dp, src, sp, from, to, nr, true, true, o, q);
    WindowByte(srcOff, destOff, len, a);
    if o == dest && dp <= q < dp + nr { SameOffset(srcOff, destOff, a); }
  }

  /** Which bytes are in the window: those of its pages, from the start offset in the first
      on and before the end offset in the last. */
  lemma WindowByte(srcOff: nat, destOff: nat, len: nat, a: nat)
    requires srcOff % PAGE_SIZE == destOff % PAGE_SIZE
    ensures var dp, q, nr := destOff / PAGE_SIZE, a / PAGE_SIZE, NrPages(srcOff, len);
      var from, to := srcOff % PAGE_SIZE, (srcOff + len) % PAGE_SIZE;
      destOff <= a < destOff + EffectiveLength(srcOff, len) <==>
        dp <= q < dp + nr && (q == dp ==> a % PAGE_SIZE >= from) && (q == dp + nr - 1 && to > 0 ==> a % PAGE_SIZE < to)
  {
  }

  lemma SameOffset(srcOff: nat, destOff: nat, a: nat)
    requires srcOff % PAGE_SIZE == destOff % PAGE_SIZE && a / PAGE_SIZE >= destOff / PAGE_SIZE
    ensures srcOff + (a - destOff) >= 0
    ensures (srcOff + (a - destOff)) / PAGE_SIZE == srcOff / PAGE_SIZE + (a / PAGE_SIZE - destOff / PAGE_SIZE)
    ensures (srcOff + (a - destOff)) % PAGE_SIZE == a % PAGE_SIZE
  {
  }

  /** Byte `a` lies in a whole page of the copy over a hole of the source tree. */
  ghost predicate HoleAt(cov: nat -> bool, destOff: nat, srcOff: nat, len: nat, a: nat) {
    var k := a / PAGE_SIZE - destOff / PAGE_SIZE;
    && 0 <= k < NrPages(srcOff, len)
    && !(k == 0 && srcOff % PAGE_SIZE > 0)
    && !(k == NrPages(srcOff, len) - 1 && (srcOff + len) % PAGE_SIZE > 0)
    && !cov(srcOff / PAGE_SIZE + k)
  }

  /** The two ways in which the copy can fall short of a flat one: bytes under holes of
      the source that are not copied, and bytes past the end that are. */
  ghost predicate Harmless(c: Contents, cov: nat -> bool, dest: ObjId, destOff: nat, src: ObjId, srcOff: nat,
                           len: nat) {
    forall a: nat {:trigger HarmlessAt(c, cov, dest, destOff, src, srcOff, len, a)} ::
      HarmlessAt(c, cov, dest, destOff, src, srcOff, len, a)
  }

  ghost predicate HarmlessAt(c: Contents, cov: nat -> bool, dest: ObjId, destOff: nat, src: ObjId, srcOff: nat,
                             len: nat, a: nat) {
    Differs(cov, destOff, srcOff, len, a) ==> ByteAt(c, dest, a) == ByteAt(c, src, srcOff + (a - destOff))
  }

  /** Byte `a` is asked for and not copied, or copied and not asked for. */
  ghost predicate Differs(cov: nat -> bool, destOff: nat, srcOff: nat, len: nat, a: nat) {
    && destOff <= a < destOff + EffectiveLength(srcOff, len)
    && (a < destOff + len <==> HoleAt(cov, destOff, srcOff, len, a))
  }

  /** `copy_ranges` is the flat copy that was asked for exactly if what it leaves out
      and what it does too much make no difference. */
  lemma AlignedFlatIff(c': Contents, c: Contents, cov: nat -> bool, dest: ObjId, destOff: nat, src: ObjId, srcOff: nat,
                       len: nat)
    requires srcOff % PAGE_SIZE == destOff % PAGE_SIZE
    requires AlignedCopied(c', c, cov, dest, destOff / PAGE_SIZE, src, srcOff / PAGE_SIZE, srcOff % PAGE_SIZE,
                           (srcOff + len) % PAGE_SIZE, NrPages(srcOff, len))
    ensures FlatCopy(c', c, dest, destOff, src, srcOff, len) <==> Harmless(c, cov, dest, destOff, src, srcOff, len)
  {
    if FlatCopy(c', c, dest, destOff, src, srcOff, len) {
      forall a: nat ensures HarmlessAt(c, cov, dest, destOff, src, srcOff, len, a) {
        FlatMeansHarmless(c', c, cov, dest, destOff, src, srcOff, len, a);
      }
    }
    if Harmless(c, cov, dest, destOff, src, srcOff, len) {
      forall o: ObjId, a: nat ensures FlatAt(c', c, dest, destOff, src, srcOff, len, o, a) {
        HarmlessMeansFlat(c', c, cov, dest, destOff, src, srcOff, len, o, a);
      }
    }
  }

  lemma FlatMeansHarmless(c': Contents, c: Contents, cov: nat -> bool, dest: ObjId, destOff: nat, src: ObjId,
                          srcOff: nat, len: nat, a: nat)
    requires srcOff % PAGE_SIZE == destOff % PAGE_SIZE && FlatCopy(c', c, dest, destOff, src, srcOff, len)
    requires AlignedCopied(c', c, cov, dest, destOff / PAGE_SIZE, src, srcOff / PAGE_SIZE, srcOff % PAGE_SIZE,
                           (srcOff + len) % PAGE_SIZE, NrPages(srcOff, len))
    ensures HarmlessAt(c, cov, dest, destOff, src, srcOff, len, a)
  {
    EffectiveLengthIff(srcOff, len);
    AlignedByte(c', c, cov, dest, destOff, src, srcOff, len, dest, a);
    assert FlatAt(c', c, dest, destOff, src, srcOff, len, dest, a);
  }

  lemma HarmlessMeansFlat(c': Contents, c: Contents, cov: nat -> bool, dest: ObjId, destOff: nat, src: ObjId,
                          srcOff: nat, len: nat, o: ObjId, a: nat)
    requires srcOff % PAGE_SIZE == destOff % PAGE_SIZE && Harmless(c, cov, dest, destOff, src, srcOff, len)
    requires AlignedCopied(c', c, cov, dest, destOff / PAGE_SIZE, src, srcOff / PAGE_SIZE, srcOff % PAGE_SIZE,
                           (srcOff + len) % PAGE_SIZE, NrPages(srcOff, len))
    ensures FlatAt(c', c, dest, destOff, src, srcOff, len, o, a)
  {
    EffectiveLengthIff(srcOff, len);
    AlignedByte(c', c, cov, dest, destOff, src, srcOff, len, o, a);
    assert HarmlessAt(c, cov, dest, destOff, src, srcOff, len, a);
  }

  lemma CoveredHarmless(c: Contents, cov: nat -> bool, dest: ObjId, destOff: nat, src: ObjId, srcOff: nat, len: nat)
    requires srcOff % PAGE_SIZE == destOff % PAGE_SIZE
    requires srcOff % PAGE_SIZE == 0 || srcOff % PAGE_SIZE + len >= PAGE_SIZE
    requires forall q: nat :: srcOff / PAGE_SIZE <= q < srcOff / PAGE_SIZE + NrPages(srcOff, len) ==> cov(q)
    ensures Harmless(c, cov, dest, destOff, src, srcOff, len)
  {
    EffectiveLengthIff(srcOff, len);
    forall a: nat ensures HarmlessAt(c, cov, dest, destOff, src, srcOff, len, a) {}
  }

  /** With a page boundary in reach and every source page there, the copy is flat. */
  lemma AlignedFlat(c': Contents, c: Contents, cov: nat -> bool, dest: ObjId, destOff: nat, src: ObjId, srcOff: nat,
                    len: nat)
    requires srcOff % PAGE_SIZE == destOff % PAGE_SIZE
    requires srcOff % PAGE_SIZE == 0 || srcOff % PAGE_SIZE + len >= PAGE_SIZE
    requires forall q: nat :: srcOff / PAGE_SIZE <= q < srcOff / PAGE_SIZE + NrPages(srcOff, len) ==> cov(q)
    requires AlignedCopied(c', c, cov, dest, destOff / PAGE_SIZE, src, srcOff / PAGE_SIZE, srcOff % PAGE_SIZE,
                           (srcOff + len) % PAGE_SIZE, NrPages(srcOff, len))
    ensures FlatCopy(c', c, dest, destOff, src, srcOff, len)
  {
    CoveredHarmless(c, cov, dest, destOff, src, srcOff, len);
    AlignedFlatIff(c', c, cov, dest, destOff, src, srcOff, len);
  }

  /** Asked to copy no bytes at offset 1, it copies a page and a byte less. */
  lemma EmptyCopyWrites(c': Contents, c: Contents, cov: nat -> bool, dest: ObjId, src: ObjId)
    requires AlignedCopied(c', c, cov, dest, 0, src, 0, 1, 1, NrPages(1, 0))
    requires ByteAt(c, dest, 5) != ByteAt(c, src, 5)
    ensures !FlatCopy(c', c, dest, 1, src, 1, 0)
  {
    assert 1 / PAGE_SIZE == 0 && 1 % PAGE_SIZE == 1 && NrPages(1, 0) == 2 && EffectiveLength(1, 0) == PAGE_SIZE;
    AlignedFlatIff(c', c, cov, dest, 1, src, 1, 0);
    assert Differs(cov, 1, 1, 0, 5);
    assert !HarmlessAt(c, cov, dest, 1, src, 1, 0, 5);
  }

  // The method.

  /** The copy gets past its `whole` whole pages: it stops there unless a source range
      covers the last of them, page `full`. */
  predicate Reached(st: Store, src: ObjId, full: int, whole: int) {
    whole == 0 || (full >= 0 && Covered(st, src, full))
  }

  /** The partial pages of the destination can be written: the first is there or can be
      added, and so it will be with the last when the copy gets there. */
  ghost predicate EndsOk(st: Store, dest: ObjId, dp: nat, src: ObjId, sp: nat, from: nat, to: nat, last: int,
                         full: int, whole: int)
    requires StoreOk(st) && dest in st.trees
  {
    && (from > 0 ==> Content(st, dest, dp).Some? || AddPageOk(st, dest, dp, true))
    && (to > 0 && last >= 0 && Reached(st, src, full, whole) ==> LastOk(st, dest, dp, src, sp, from, last))
  }

  lemma PartIsFirst(st': Store, st: Store, dest: ObjId, dp: nat, src: ObjId, sp: nat, from: nat)
    requires 0 < from < PAGE_SIZE && PartCopied(st', st, dest, dp, from, src, sp, from, PAGE_SIZE - from)
    ensures FirstDone(ContentsOf(st'), ContentsOf(st), dest, dp, src, sp, from, true)
  {
    assert PageBytes(st, src, sp)[from..from + (PAGE_SIZE - from)] == PageBytes(st, src, sp)[from..];
    assert ContentsOf(st)(dest, dp) == Content(st, dest, dp) && ContentsOf(st)(src, sp) == Content(st, src, sp);
  }

  lemma PartIsLast(st': Store, st: Store, dest: ObjId, dp: nat, src: ObjId, sp: nat, to: nat)
    requires 0 < to < PAGE_SIZE && PartCopied(st', st, dest, dp, 0, src, sp, 0, to)
    ensures LastDone(ContentsOf(st'), ContentsOf(st), dest, dp, src, sp, to, true)
  {
    assert PageBytes(st, src, sp)[0..0 + to] == PageBytes(st, src, sp)[..to];
    assert ContentsOf(st)(dest, dp) == Content(st, dest, dp) && ContentsOf(st)(src, sp) == Content(st, src, sp);
  }

  /** Step 3a: the first partial page, if there is one. */
  method CopyFirst(m: Memory, src: ObjId, sp: nat, dest: ObjId, dp: nat, from: nat) returns (ghost ok: bool)
    requires m.Valid() && dest in m.st.trees && src in m.st.trees && from < PAGE_SIZE
    requires from > 0 && m.frames > 0 ==> Content(m.st, dest, dp).Some? || AddPageOk(m.st, dest, dp, true)
    modifies m
    ensures m.Valid() && m.frames == FramesLeft(old(m.frames), from > 0 && NeedsFrame(old(m.st), dest, dp))
    ensures ok <==> !(from > 0 && old(m.frames) == 0 && NeedsFrame(old(m.st), dest, dp))
    ensures if from > 0 && ok then Frame(m.st, old(m.st), dest, dp) else m.st == old(m.st)
    ensures FirstDone(ContentsOf(m.st), ContentsOf(old(m.st)), dest, dp, src, sp, from, ok)
  {
    ok := true;
    if from != 0 {
      var done := CopySingle(m, dest, src, dp, sp, from, PAGE_SIZE);
      if done { PartIsFirst(m.st, old(m.st), dest, dp, src, sp, from); }
      ok := done;
    }
  }

  /** Step 3c: the last partial page, if there is one. */
  method CopyLast(m: Memory, src: ObjId, sp: nat, dest: ObjId, dp: nat, to: nat) returns (ghost ok: bool)
    requires m.Valid() && dest in m.st.trees && src in m.st.trees && to < PAGE_SIZE
    requires to > 0 && m.frames > 0 ==> LastReady(m.st, dest, dp)
    modifies m
    ensures m.Valid() && (ok <==> !(to > 0 && old(m.frames) == 0 && NeedsFrame(old(m.st), dest, dp)))
    ensures LastDone(ContentsOf(m.st), ContentsOf(old(m.st)), dest, dp, src, sp, to, ok)
  {
    ok := true;
    if to > 0 {
      var done := CopySingle(m, dest, src, dp, sp, 0, to);
      if done { PartIsLast(m.st, old(m.st), dest, dp, src, sp, to); }
      ok := done;
    }
  }

  /** What the first partial page leaves for the last. */
  lemma AfterFirst(st: Store, st1: Store, dest: ObjId, dp: nat, src: ObjId, sp: nat, from: nat, dp1: nat, sp1: nat,
                   last: nat)
    requires StoreOk(st) && dest in st.trees && src in st.trees && src != dest && 0 < from < PAGE_SIZE
    requires dp1 == dp + 1 && sp1 == sp + 1 && dp1 <= last
    requires Frame(st1, st, dest, dp) && FirstDone(ContentsOf(st1), ContentsOf(st), dest, dp, src, sp, from, true)
    ensures dest in st1.trees
    ensures LastOk(st1, dest, dp1, src, sp1, 0, last) <==> LastOk(st, dest, dp, src, sp, from, last)
    ensures LastNeeds(st1, dest, dp1, src, sp1, 0, last) <==> LastNeeds(st, dest, dp, src, sp, from, last)
  {
    FirstContents(st1, st, dest, dp, src, sp, from, last);
    ContentExists(st1, dest, dp);
    AfterFirstIff(st1, st, dest, dp, src, sp, from, dp1, sp1, last);
    NeedsAfterFirst(st1, st, dest, dp, src, sp, from, dp1, sp1, last);
  }

  lemma FirstContents(st1: Store, st: Store, dest: ObjId, dp: nat, src: ObjId, sp: nat, from: nat, last: nat)
    requires 0 < from < PAGE_SIZE && dp < last
    requires FirstDone(ContentsOf(st1), ContentsOf(st), dest, dp, src, sp, from, true)
    ensures Content(st1, dest, dp).Some? && Content(st1, dest, last) == Content(st, dest, last)
  {
    assert ContentsOf(st1)(dest, last) == ContentsOf(st)(dest, last);
    assert ContentsOf(st1)(dest, dp).Some?;
  }

  lemma FullIsDone(st2: Store, st1: Store, dest: ObjId, dp: nat, src: ObjId, sp: nat, n: nat)
    requires FullContents(st2, st1, dest, dp, src, sp, n)
    ensures FullDone(ContentsOf(st2), ContentsOf(st1), CoverageOf(st1, src), dest, dp, src, sp, n)
  {
    var c', c, cov := ContentsOf(st2), ContentsOf(st1), CoverageOf(st1, src);
    forall o, q: nat
      ensures c'(o, q) == if o == dest && dp <= q < dp + n && cov(sp + (q - dp)) then c(src, sp + (q - dp)) else c(o, q)
    {
      FullDoneAt(st1, c, cov, dest, dp, src, sp, n, o, q);
      assert c'(o, q) == FullContent(st1, dest, dp, src, sp, n, o, q);
    }
  }

  lemma FullDoneAt(st: Store, c: Contents, cov: nat -> bool, dest: ObjId, dp: nat, src: ObjId, sp: nat, n: nat,
                   o: ObjId, q: nat)
    requires c == ContentsOf(st) && cov == CoverageOf(st, src)
    ensures FullContent(st, dest, dp, src, sp, n, o, q) ==
      if o == dest && dp <= q < dp + n && cov(sp + (q - dp)) then c(src, sp + (q - dp)) else c(o, q)
  {
    if dp <= q {
      var x: nat := sp + (q - dp);
      assert cov(x) == Covered(st, src, x) && c(src, x) == Content(st, src, x);
    }
  }

  /** A step on the destination leaves the coverage of the source alone. */
  lemma SameCoverage(c': Contents, c: Contents, st1: Store, st: Store, dest: ObjId, dp: nat, src: ObjId, sp: nat,
                     n: nat)
    requires src != dest && OtherTrees(st1, st, dest) && FullDone(c', c, CoverageOf(st1, src), dest, dp, src, sp, n)
    ensures FullDone(c', c, CoverageOf(st, src), dest, dp, src, sp, n)
  {
    forall q: nat ensures CoverageOf(st1, src)(q) == CoverageOf(st, src)(q) {}
  }

  /** Step 3b: the whole pages, the last of them page `full` of the source.  The third
      closing assertion of the source holds exactly if there are none or a source range
      covers the last of them. */
  method CopyFull(m: Memory, src: ObjId, sp: nat, dest: ObjId, dp: nat, vecPages: nat, ghost stop: nat, ghost full: int)
    returns (srcPoint: nat, destPoint: nat, remaining: nat)
    requires m.Valid() && src in m.st.trees && dest in m.st.trees && stop == dp + vecPages && full == sp + vecPages - 1
    modifies m`st
    ensures m.Valid() && src in m.st.trees && dest in m.st.trees
    ensures FullDone(ContentsOf(m.st), ContentsOf(old(m.st)), CoverageOf(old(m.st), src), dest, dp, src, sp, vecPages)
    ensures if vecPages == 0 then m.st == old(m.st) else WholeCopied(m.st, old(m.st), dest, dp, src, sp, stop)
    ensures srcPoint + remaining == sp + vecPages && destPoint + remaining == dp + vecPages
    ensures remaining == 0 <==> Reached(old(m.st), src, full, vecPages)
  {
    srcPoint, destPoint, remaining := sp, dp, vecPages;
    if vecPages > 0 {
      srcPoint, destPoint, remaining := ShareFullPages(m, src, sp, dest, dp, vecPages, full, stop);
      FullIsDone(m.st, old(m.st), dest, dp, src, sp, vecPages);
    }
  }

  /** Step 3b, and what it leaves for the last partial page. */
  method CopyFullBeforeLast(m: Memory, src: ObjId, sp: nat, dest: ObjId, dp: nat, vecPages: nat, ghost to: nat,
                            ghost last: nat, ghost full: int)
    returns (srcPoint: nat, destPoint: nat, remaining: nat)
    requires m.Valid() && src in m.st.trees && dest in m.st.trees && src != dest
    requires last == dp + vecPages && full == sp + vecPages - 1
    requires to > 0 && m.frames > 0 && Reached(m.st, src, full, vecPages) ==> LastOk(m.st, dest, dp, src, sp, 0, last)
    modifies m`st
    ensures m.Valid() && src in m.st.trees && dest in m.st.trees
    ensures FullDone(ContentsOf(m.st), ContentsOf(old(m.st)), CoverageOf(old(m.st), src), dest, dp, src, sp, vecPages)
    ensures srcPoint + remaining == sp + vecPages && destPoint + remaining == last
    ensures remaining == 0 <==> Reached(old(m.st), src, full, vecPages)
    ensures to > 0 && m.frames > 0 && remaining == 0 ==> LastReady(m.st, dest, last)
    ensures remaining == 0 ==> (NeedsFrame(m.st, dest, last) <==> LastNeeds(old(m.st), dest, dp, src, sp, 0, last))
  {
    ghost var st1 := m.st;
    srcPoint, destPoint, remaining := CopyFull(m, src, sp, dest, dp, vecPages, last, full);
    if remaining == 0 {
      AfterRest(m.st, st1, dest, dp, src, sp, last, full);
      NeedsAfterRest(m.st, st1, dest, dp, src, sp, last, full);
    }
  }

  /** Steps 3b and 3c of `copy_ranges`.  `completed` is false where the third closing
      assertion stops the kernel. */
  method CopyRest(m: Memory, src: ObjId, sp: nat, dest: ObjId, dp: nat, vecPages: nat, to: nat, ghost last: nat,
                  ghost full: int)
    returns (completed: bool, ghost ok: bool, ghost st2: Store, srcPoint: nat, destPoint: nat)
    requires m.Valid() && src in m.st.trees && dest in m.st.trees && src != dest && to < PAGE_SIZE
    requires last == dp + vecPages && full == sp + vecPages - 1
    requires to > 0 && m.frames > 0 && Reached(m.st, src, full, vecPages) ==> LastOk(m.st, dest, dp, src, sp, 0, last)
    modifies m
    ensures m.Valid()
    ensures FullDone(ContentsOf(st2), ContentsOf(old(m.st)), CoverageOf(old(m.st), src), dest, dp, src, sp, vecPages)
    ensures completed <==> Reached(old(m.st), src, full, vecPages)
    ensures completed ==> srcPoint == sp + vecPages && destPoint == dp + vecPages
    ensures completed ==> LastDone(ContentsOf(m.st), ContentsOf(st2), dest, destPoint, src, srcPoint, to, ok)
    ensures ok <==>
      !(completed && to > 0 && old(m.frames) == 0 && LastNeeds(old(m.st), dest, dp, src, sp, 0, last))
  {
    var remaining;
    srcPoint, destPoint, remaining := CopyFullBeforeLast(m, src, sp, dest, dp, vecPages, to, last, full);
    st2 := m.st;
    completed, ok := false, true;
    if remaining == 0 {
      assert destPoint == last;
      ok := CopyLast(m, src, srcPoint, dest, destPoint, to);
      completed := true;
    }
  }

  lemma StoresCompose(st: Store, st1: Store, st2: Store, st3: Store, dest: ObjId, src: ObjId, dp: nat, sp: nat,
                      dp1: nat, sp1: nat, dp2: nat, sp2: nat, from: nat, to: nat, vecPages: nat, nr: nat,
                      first: bool, last: bool)
    requires src != dest && from < PAGE_SIZE && to < PAGE_SIZE && OtherTrees(st1, st, dest)
    requires dp1 - dp == sp1 - sp == (if from > 0 then 1 else 0) && dp2 - dp1 == sp2 - sp1 == vecPages
    requires dp + nr == dp2 + (if to > 0 then 1 else 0)
    requires FirstDone(ContentsOf(st1), ContentsOf(st), dest, dp, src, sp, from, first)
    requires FullDone(ContentsOf(st2), ContentsOf(st1), CoverageOf(st1, src), dest, dp1, src, sp1, vecPages)
    requires LastDone(ContentsOf(st3), ContentsOf(st2), dest, dp2, src, sp2, to, last)
    ensures PartlyCopied(ContentsOf(st3), ContentsOf(st), CoverageOf(st, src), dest, dp, src, sp, from, to, nr, first,
                         last)
  {
    SameCoverage(ContentsOf(st2), ContentsOf(st1), st1, st, dest, dp1, src, sp1, vecPages);
    PiecesCompose(ContentsOf(st), ContentsOf(st1), ContentsOf(st2), ContentsOf(st3), CoverageOf(st, src), dest, src,
                  dp, sp, dp1, sp1, dp2, sp2, from, to, vecPages, nr, first, last);
  }

  /** How many frames the partial pages take: one for each that is missing, or shared when
      the copy gets to it. */
  ghost function FramesFor(st: Store, dest: ObjId, dp: nat, src: ObjId, sp: nat, from: nat, to: nat, last: nat): nat {
    (if from > 0 && NeedsFrame(st, dest, dp) then 1 else 0) +
    (if to > 0 && LastNeeds(st, dest, dp, src, sp, from, last) then 1 else 0)
  }

  /** Steps 3a to 3c of `copy_ranges`, for `nr` pages from byte `from` of the first to
      byte `to` of the last.  A partial page that finds no frame is left as it was, which
      goes unnoticed, as in the source. */
  method CopyPieces(m: Memory, src: ObjId, sp: nat, dest: ObjId, dp: nat, from: nat, to: nat, nr: nat, ghost last: nat,
                    ghost full: int)
    returns (completed: bool, ghost firstOk: bool, ghost lastOk: bool, ghost dp1: nat, ghost sp1: nat)
    requires m.Valid() && src in m.st.trees && dest in m.st.trees && src != dest && from < PAGE_SIZE && to < PAGE_SIZE
    requires WholePages(from, to, nr) >= 0 && last == dp + nr - (if to > 0 then 1 else 0) &&
      full == sp + (last - dp) - 1
    requires m.frames > 0 ==> EndsOk(m.st, dest, dp, src, sp, from, to, last, full, WholePages(from, to, nr))
    modifies m
    ensures m.Valid()
    ensures completed <==> Reached(old(m.st), src, full, WholePages(from, to, nr))
    ensures firstOk <==> !(from > 0 && old(m.frames) == 0 && NeedsFrame(old(m.st), dest, dp))
    ensures completed ==>
      (firstOk && lastOk <==> old(m.frames) >= FramesFor(old(m.st), dest, dp, src, sp, from, to, last))
    ensures completed && !firstOk ==>
      && dp1 == dp + 1 && sp1 == sp + 1
      && (lastOk <==> !(to > 0 && LastNeeds(old(m.st), dest, dp1, src, sp1, 0, last)))
    ensures completed ==>
      PartlyCopied(ContentsOf(m.st), ContentsOf(old(m.st)), CoverageOf(old(m.st), src), dest, dp, src, sp, from, to,
                   nr, firstOk, lastOk)
  {
    ghost var st := m.st;
    var destPoint, srcPoint, remainingPages;
    firstOk, destPoint, srcPoint, remainingPages := CopyHead(m, src, sp, dest, dp, from, to, nr, last, full);
    ghost var st1 := m.st;
    dp1, sp1 := destPoint, srcPoint;
    var vecPages := remainingPages - if to > 0 then 1 else 0;
    assert vecPages == WholePages(from, to, nr);
    remainingPages := remainingPages - vecPages;
    assert (remainingPages == 1 <==> to > 0) && (remainingPages == 1 || remainingPages == 0);
    ghost var st2;
    var srcLast, destLast;
    completed, lastOk, st2, srcLast, destLast := CopyRest(m, src, srcPoint, dest, destPoint, vecPages, to, last, full);
    if completed {
      StoresCompose(st, st1, st2, m.st, dest, src, dp, sp, destPoint, srcPoint, destLast, srcLast, from, to, vecPages,
                    nr, firstOk, lastOk);
    }
  }

  /** Step 3a of `copy_ranges`: the first partial page, and the points after it. */
  method CopyHead(m: Memory, src: ObjId, sp: nat, dest: ObjId, dp: nat, from: nat, ghost to: nat, nr: nat,
                  ghost last: nat, ghost full: int)
    returns (ghost ok: bool, destPoint: nat, srcPoint: nat, remainingPages: nat)
    requires m.Valid() && src in m.st.trees && dest in m.st.trees && src != dest && from < PAGE_SIZE && to < PAGE_SIZE
    requires WholePages(from, to, nr) >= 0 && last == dp + nr - (if to > 0 then 1 else 0)
    requires m.frames > 0 ==> EndsOk(m.st, dest, dp, src, sp, from, to, last, full, WholePages(from, to, nr))
    modifies m
    ensures m.Valid() && OtherTrees(m.st, old(m.st), dest)
    ensures m.frames == FramesLeft(old(m.frames), from > 0 && NeedsFrame(old(m.st), dest, dp))
    ensures ok <==> !(from > 0 && old(m.frames) == 0 && NeedsFrame(old(m.st), dest, dp))
    ensures FirstDone(ContentsOf(m.st), ContentsOf(old(m.st)), dest, dp, src, sp, from, ok)
    ensures destPoint - dp == srcPoint - sp == nr - remainingPages == if from > 0 then 1 else 0
    ensures Reached(m.st, src, full, WholePages(from, to, nr)) <==>
      Reached(old(m.st), src, full, WholePages(from, to, nr))
    ensures to > 0 && m.frames > 0 && Reached(m.st, src, full, WholePages(from, to, nr)) ==>
      LastOk(m.st, dest, destPoint, src, srcPoint, 0, last)
    ensures to > 0 && ok ==>
      (LastNeeds(m.st, dest, destPoint, src, srcPoint, 0, last) <==>
       LastNeeds(old(m.st), dest, dp, src, sp, from, last))
    ensures !ok ==> m.st == old(m.st)
  {
    ghost var st := m.st;
    destPoint, srcPoint, remainingPages := dp, sp, nr;
    ok := CopyFirst(m, src, sp, dest, dp, from);
    if from != 0 {
      destPoint, srcPoint, remainingPages := destPoint + 1, srcPoint + 1, remainingPages - 1;
      if to > 0 && ok { AfterFirst(st, m.st, dest, dp, src, sp, from, destPoint, srcPoint, last); }
    }
  }

  /** How many of `nr` pages are copied whole. */
  function WholePages(from: nat, to: nat, nr: nat): int {
    nr - (if from > 0 then 1 else 0) - (if to > 0 then 1 else 0)
  }

  /** The pieces fit: whole pages, with the partial ones, make up the pages counted. */
  lemma PagesFit(srcOff: nat, len: nat)
    ensures WholePages(srcOff % PAGE_SIZE, (srcOff + len) % PAGE_SIZE, NrPages(srcOff, len)) >= 0
  {
  }

  /** `copy_ranges` for source and destination offsets that are misaligned by the same
      amount.  `completed` is false where the third closing assertion stops the kernel. */
  method CopyAligned(m: Memory, src: ObjId, srcOff: nat, dest: ObjId, destOff: nat, byteLength: nat)
    returns (completed: bool, ghost firstOk: bool, ghost lastOk: bool, ghost lastFull: int, ghost dp1: nat,
             ghost sp1: nat)
    requires m.Valid() && src in m.st.trees && dest in m.st.trees && src != dest
    requires srcOff % PAGE_SIZE == destOff % PAGE_SIZE
    requires m.frames > 0 ==> WindowOk(m.st, src, srcOff, dest, destOff, byteLength)
    modifies m
    ensures m.Valid()
    ensures completed ==>
      (firstOk && lastOk <==>
       old(m.frames) >= FramesFor(old(m.st), dest, destOff / PAGE_SIZE, src, srcOff / PAGE_SIZE, srcOff % PAGE_SIZE,
                                  (srcOff + byteLength) % PAGE_SIZE, WindowLast(srcOff, destOff, byteLength)))
    ensures firstOk <==>
      !(srcOff % PAGE_SIZE > 0 && old(m.frames) == 0 && NeedsFrame(old(m.st), dest, destOff / PAGE_SIZE))
    ensures completed && !firstOk ==>
      && dp1 == destOff / PAGE_SIZE + 1 && sp1 == srcOff / PAGE_SIZE + 1
      && (lastOk <==> !((srcOff + byteLength) % PAGE_SIZE > 0 &&
                        LastNeeds(old(m.st), dest, dp1, src, sp1, 0, WindowLast(srcOff, destOff, byteLength))))
    ensures WholePagesOf(srcOff, byteLength) > 0 ==> lastFull == (srcOff + byteLength) / PAGE_SIZE - 1
    ensures completed <==> WholePagesOf(srcOff, byteLength) == 0 || Covered(old(m.st), src, lastFull)
    ensures completed ==> CopyResult(m.st, old(m.st), src, srcOff, dest, destOff, byteLength, firstOk, lastOk)
    ensures completed && firstOk && lastOk ==>
      (FlatCopy(ContentsOf(m.st), ContentsOf(old(m.st)), dest, destOff, src, srcOff, byteLength) <==>
       Harmless(ContentsOf(old(m.st)), CoverageOf(old(m.st), src), dest, destOff, src, srcOff, byteLength))
  {
    var srcStart, destStart := srcOff / PAGE_SIZE, destOff / PAGE_SIZE;
    var startOffset, endOffset := srcOff % PAGE_SIZE, (srcOff + byteLength) % PAGE_SIZE;
    var nrPages := NrPages(srcOff, byteLength);
    PagesFit(srcOff, byteLength);
    lastFull := srcStart + (WindowLast(srcOff, destOff, byteLength) - destStart) - 1;
    completed, firstOk, lastOk, dp1, sp1 :=
      CopyPieces(m, src, srcStart, dest, destStart, startOffset, endOffset, nrPages,
                 WindowLast(srcOff, destOff, byteLength), lastFull);
    if completed && firstOk && lastOk {
      AlignedFlatIff(ContentsOf(m.st), ContentsOf(old(m.st)), CoverageOf(old(m.st), src), dest, destOff, src, srcOff,
                     byteLength);
    }
  }

  /** The destination page after the whole pages: the last partial one, if there is one. */
  function WindowLast(srcOff: nat, destOff: nat, len: nat): nat {
    destOff / PAGE_SIZE + NrPages(srcOff, len) - if (srcOff + len) % PAGE_SIZE > 0 then 1 else 0
  }

  /** The partial pages at the ends of the window can be written. */
  ghost predicate WindowOk(st: Store, src: ObjId, srcOff: nat, dest: ObjId, destOff: nat, len: nat)
    requires StoreOk(st) && dest in st.trees
  {
    var dp, sp, last := destOff / PAGE_SIZE, srcOff / PAGE_SIZE, WindowLast(srcOff, destOff, len);
    EndsOk(st, dest, dp, src, sp, srcOff % PAGE_SIZE, (srcOff + len) % PAGE_SIZE, last, sp + (last - dp) - 1,
           WholePagesOf(srcOff, len))
  }

  function WholePagesOf(srcOff: nat, len: nat): int {
    WholePages(srcOff % PAGE_SIZE, (srcOff + len) % PAGE_SIZE, NrPages(srcOff, len))
  }

  /** The source window of a copy, page by page. */
  ghost predicate CopyResult(st': Store, st: Store, src: ObjId, srcOff: nat, dest: ObjId, destOff: nat, len: nat,
                             firstOk: bool, lastOk: bool)
  {
    PartlyCopied(ContentsOf(st'), ContentsOf(st), CoverageOf(st, src), dest, destOff / PAGE_SIZE, src,
                 srcOff / PAGE_SIZE, srcOff % PAGE_SIZE, (srcOff + len) % PAGE_SIZE, NrPages(srcOff, len), firstOk,
                 lastOk)
  }

  /** Two objects with one page each: zeros in object 0, ones in object 1. */
  lemma OnePageEach() returns (st: Store)
    ensures StoreOk(st) && 0 in st.trees && 1 in st.trees && !Covered(st, 0, 1) && !Covered(st, 1, 1)
    ensures Content(st, 0, 0) == Some(ZeroPage()) && Content(st, 1, 0) == Some(OnesPage())
  {
    var x, y := PageRange(0, 1, 0, Single(0)), PageRange(0, 1, 0, Single(1));
    var t: Tree, u: Tree := map[0 := x], map[0 := y];
    st := Store(map[0 := t, 1 := u], map[], map[0 := ZeroPage(), 1 := OnesPage()]);
    forall o, q | Covered(st, o, q) ensures OnSingle(st, o, q) {
      assert q == 0 && (o == 0 || o == 1);
    }
    SinglesOk(st);
  }

  /** A store and a copy of two whole pages at which the third closing assertion stops the
      kernel: no range of the source covers the last of them. */
  lemma GapStopsCopy() returns (st: Store)
    ensures StoreOk(st) && 0 in st.trees && 1 in st.trees && WindowOk(st, 1, 0, 0, 0, 2 * PAGE_SIZE)
    ensures WholePagesOf(0, 2 * PAGE_SIZE) == 2 && !Reached(st, 1, 2 * PAGE_SIZE / PAGE_SIZE - 1, 2)
  {
    st := OnePageEach();
  }

  /** A store on which `copy_ranges`, asked to copy no bytes, finds everything it needs and
      yet changes the destination. */
  lemma EmptyCopyExample() returns (st: Store)
    ensures StoreOk(st) && 0 in st.trees && 1 in st.trees && WindowOk(st, 1, 1, 0, 1, 0)
    ensures forall st' :: CopyResult(st', st, 1, 1, 0, 1, 0, true, true) ==>
      !FlatCopy(ContentsOf(st'), ContentsOf(st), 0, 1, 1, 1, 0)
  {
    st := OnePageEach();
    assert ByteAt(ContentsOf(st), 0, 5) == 0 && ByteAt(ContentsOf(st), 1, 5) == 1;
    forall st' | CopyResult(st', st, 1, 1, 0, 1, 0, true, true)
      ensures !FlatCopy(ContentsOf(st'), ContentsOf(st), 0, 1, 1, 1, 0)
    {
      EmptyCopyWrites(ContentsOf(st'), ContentsOf(st), CoverageOf(st, 1), 0, 1);
    }
  }
}
