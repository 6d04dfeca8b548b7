/** `copy_bytes` (src/kernel/src/obj/copy.rs): the copy between offsets that are
    misaligned by different amounts. */
module ByteCopy {
  import opened Options
  import opened PageSize
  import opened PageRanges
  import opened ObjectStore
  import opened RangeSharing
  import opened ObjectMemory
  import opened ObjectCopy
  import opened CopyRanges

  /** Byte `i` of the window is zeroed although its source page is there: the zeroing
      of the missing page before it, which began in this page of the destination, does
      not stop at the end of the missing page. */
  ghost predicate Swallowed(c: Contents, src: ObjId, srcOff: nat, destOff: nat, i: nat) {
    var page := (srcOff + i) / PAGE_SIZE;
    && c(src, page).Some? && PAGE_SIZE * page > srcOff && c(src, page - 1).None?
    && i - (destOff + i) % PAGE_SIZE < PAGE_SIZE * page - srcOff
  }

  ghost function CopiedByte(c: Contents, src: ObjId, srcOff: nat, destOff: nat, i: nat): byte {
    if Swallowed(c, src, srcOff, destOff, i) then 0 else ByteAt(c, src, srcOff + i)
  }

  /** The first `done` bytes of the window have been copied; no other byte of any
      object has changed. */
  ghost predicate BytesCopied(c': Contents, c: Contents, dest: ObjId, destOff: nat, src: ObjId, srcOff: nat,
                              done: nat) {
    forall o, a: nat {:trigger ByteAt(c', o, a)} ::
      ByteAt(c', o, a) ==
        if o == dest && destOff <= a < destOff + done then CopiedByte(c, src, srcOff, destOff, a - destOff)
        else ByteAt(c, o, a)
  }

  ghost predicate OthersSame(c': Contents, c: Contents, dest: ObjId) {
    forall o, q: nat {:trigger c'(o, q)} :: o != dest ==> c'(o, q) == c(o, q)
  }

  /** Where a turn of the loop may begin: not in the shadow of a missing page. */
  ghost predicate Clear(c: Contents, src: ObjId, srcOff: nat, destOff: nat, i: nat) {
    var page := (srcOff + i) / PAGE_SIZE;
    PAGE_SIZE * page > srcOff && c(src, page - 1).None? ==> i - (destOff + i) % PAGE_SIZE >= PAGE_SIZE * page - srcOff
  }

  /** A turn on a page that is there copies the source's bytes, and the next turn
      begins in the clear. */
  lemma PresentTurn(c: Contents, src: ObjId, srcOff: nat, destOff: nat, done: nat, len: nat, i: nat)
    requires Clear(c, src, srcOff, destOff, done) && c(src, (srcOff + done) / PAGE_SIZE).Some?
    requires (srcOff + done) % PAGE_SIZE + len <= PAGE_SIZE && (destOff + done) % PAGE_SIZE + len <= PAGE_SIZE &&
      done <= i <= done + len
    ensures i < done + len ==>
      !Swallowed(c, src, srcOff, destOff, i) && (srcOff + i) / PAGE_SIZE == (srcOff + done) / PAGE_SIZE
    ensures Clear(c, src, srcOff, destOff, done + len)
  {
  }

  /** A turn on a missing page zeroes: its own bytes read as zero, and those of the next
      page are in its shadow.  The next turn, at a page boundary of the destination,
      begins in the clear. */
  lemma MissingTurn(c: Contents, src: ObjId, srcOff: nat, destOff: nat, done: nat, len: nat, i: nat)
    requires c(src, (srcOff + done) / PAGE_SIZE).None?
    requires (destOff + done) % PAGE_SIZE + len <= PAGE_SIZE && done <= i < done + len
    ensures CopiedByte(c, src, srcOff, destOff, i) == 0
    ensures (destOff + done) % PAGE_SIZE + len == PAGE_SIZE ==> Clear(c, src, srcOff, destOff, done + len)
  {
  }

  /** Writing the next bytes of the window into one page of the destination. */
  lemma WriteTurn(c2: Contents, c1: Contents, c: Contents, dest: ObjId, destOff: nat, src: ObjId, srcOff: nat,
                  done: nat, dpn: nat, off: nat, data: seq<byte>)
    requires BytesCopied(c1, c, dest, destOff, src, srcOff, done) && off + |data| <= PAGE_SIZE
    requires SetAt(c2, c1, dest, dpn, Overwrite(Bytes(c1(dest, dpn)), off, data))
    requires dpn == (destOff + done) / PAGE_SIZE && off == (destOff + done) % PAGE_SIZE
    requires forall j :: 0 <= j < |data| ==> data[j] == CopiedByte(c, src, srcOff, destOff, done + j)
    ensures BytesCopied(c2, c, dest, destOff, src, srcOff, done + |data|)
  {
    var next := done + |data|;
    forall o, a: nat
      ensures ByteAt(c2, o, a) ==
        if o == dest && destOff <= a < destOff + next then CopiedByte(c, src, srcOff, destOff, a - destOff)
        else ByteAt(c, o, a)
    {
      WriteTurnAt(c2, c1, c, dest, destOff, src, srcOff, done, dpn, off, data, next, o, a);
    }
  }

  lemma WriteTurnAt(c2: Contents, c1: Contents, c: Contents, dest: ObjId, destOff: nat, src: ObjId, srcOff: nat,
                    done: nat, dpn: nat, off: nat, data: seq<byte>, next: nat, o: ObjId, a: nat)
    requires BytesCopied(c1, c, dest, destOff, src, srcOff, done) && off + |data| <= PAGE_SIZE && next == done + |data|
    requires SetAt(c2, c1, dest, dpn, Overwrite(Bytes(c1(dest, dpn)), off, data))
    requires dpn == (destOff + done) / PAGE_SIZE && off == (destOff + done) % PAGE_SIZE
    requires forall j :: 0 <= j < |data| ==> data[j] == CopiedByte(c, src, srcOff, destOff, done + j)
    ensures ByteAt(c2, o, a) ==
      if o == dest && destOff <= a < destOff + next then CopiedByte(c, src, srcOff, destOff, a - destOff)
      else ByteAt(c, o, a)
  {
    assert ByteAt(c1, o, a) ==
      if o == dest && destOff <= a < destOff + done then CopiedByte(c, src, srcOff, destOff, a - destOff)
      else ByteAt(c, o, a);
    var q, i := a / PAGE_SIZE, a % PAGE_SIZE;
    if o == dest && q == dpn {
      OverwrittenByte(Bytes(c1(dest, dpn)), off, data, i);
      if off <= i < off + |data| {
        var j := i - off;
        assert a - destOff == done + j;
      }
    } else {
      assert c2(o, q) == c1(o, q);
    }
  }

  lemma OverwrittenByte(b: seq<byte>, off: nat, data: seq<byte>, i: nat)
    requires off + |data| <= |b| == PAGE_SIZE && i < PAGE_SIZE
    ensures Bytes(Some(Overwrite(b, off, data)))[i] == if off <= i < off + |data| then data[i - off] else b[i]
  {
  }

  lemma PartIsSet(st': Store, st: Store, dest: ObjId, dpn: nat, off: nat, src: ObjId, spn: nat, from: nat, len: nat)
    requires off + len <= PAGE_SIZE && from + len <= PAGE_SIZE &&
      PartCopied(st', st, dest, dpn, off, src, spn, from, len)
    ensures var c', c := ContentsOf(st'), ContentsOf(st);
      SetAt(c', c, dest, dpn, Overwrite(Bytes(c(dest, dpn)), off, Bytes(c(src, spn))[from..from + len]))
  {
    assert ContentsOf(st)(dest, dpn) == Content(st, dest, dpn) && ContentsOf(st)(src, spn) == Content(st, src, spn);
  }

  /** How far a turn gets: to the end of either page, or, where the source page is
      missing, of the destination page. */
  function TurnLength(present: bool, srcIn: nat, destIn: nat, remaining: nat): (len: nat)
    requires srcIn < PAGE_SIZE && destIn < PAGE_SIZE
    ensures remaining > 0 ==> 0 < len <= remaining
    ensures destIn + len <= PAGE_SIZE && (present ==> srcIn + len <= PAGE_SIZE)
    ensures !present && len < remaining ==> destIn + len == PAGE_SIZE
  {
    var room := if present && PAGE_SIZE - srcIn < PAGE_SIZE - destIn then PAGE_SIZE - srcIn else PAGE_SIZE - destIn;
    if room < remaining then room else remaining
  }

  /** What the loop keeps: `done` bytes are copied, and no other object has changed. */
  ghost predicate Progress(c': Contents, c: Contents, dest: ObjId, destOff: nat, src: ObjId, srcOff: nat, done: nat) {
    BytesCopied(c', c, dest, destOff, src, srcOff, done) && OthersSame(c', c, dest)
  }

  /** The bytes that a turn writes are the ones the window should have. */
  lemma TurnData(c: Contents, src: ObjId, srcOff: nat, destOff: nat, done: nat, spn: nat, from: nat, len: nat, j: nat)
    requires Clear(c, src, srcOff, destOff, done) && spn == (srcOff + done) / PAGE_SIZE
    requires (destOff + done) % PAGE_SIZE + len <= PAGE_SIZE && from + len <= PAGE_SIZE && j < len
    requires c(src, spn).Some? ==> from == (srcOff + done) % PAGE_SIZE
    ensures Bytes(c(src, spn))[from..from + len][j] == CopiedByte(c, src, srcOff, destOff, done + j)
  {
    if c(src, spn).Some? {
      PresentTurn(c, src, srcOff, destOff, done, len, done + j);
      SamePage(srcOff + done, j);
    } else {
      MissingTurn(c, src, srcOff, destOff, done, len, done + j);
      assert Bytes(c(src, spn))[from + j] == 0;
    }
  }

  lemma SamePage(at: nat, j: nat)
    requires at % PAGE_SIZE + j < PAGE_SIZE
    ensures (at + j) / PAGE_SIZE == at / PAGE_SIZE && (at + j) % PAGE_SIZE == at % PAGE_SIZE + j
  {
  }

  /** A turn's write makes progress. */
  lemma TurnProgress(c2: Contents, c1: Contents, c: Contents, dest: ObjId, destOff: nat, src: ObjId, srcOff: nat,
                     done: nat, dpn: nat, off: nat, spn: nat, from: nat, len: nat, next: nat)
    requires next == done + len && src != dest && Progress(c1, c, dest, destOff, src, srcOff, done) &&
      Clear(c, src, srcOff, destOff, done)
    requires dpn == (destOff + done) / PAGE_SIZE && off == (destOff + done) % PAGE_SIZE &&
      spn == (srcOff + done) / PAGE_SIZE
    requires off + len <= PAGE_SIZE && from + len <= PAGE_SIZE
    requires SetAt(c2, c1, dest, dpn, Overwrite(Bytes(c1(dest, dpn)), off, Bytes(c1(src, spn))[from..from + len]))
    requires c1(src, spn).Some? ==> from == (srcOff + done) % PAGE_SIZE
    ensures Progress(c2, c, dest, destOff, src, srcOff, next)
  {
    assert c1(src, spn) == c(src, spn);
    var data := Bytes(c1(src, spn))[from..from + len];
    forall j | 0 <= j < len ensures data[j] == CopiedByte(c, src, srcOff, destOff, done + j) {
      TurnData(c, src, srcOff, destOff, done, spn, from, len, j);
    }
    WriteTurn(c2, c1, c, dest, destOff, src, srcOff, done, dpn, off, data);
  }

  lemma NextClear(c: Contents, src: ObjId, srcOff: nat, destOff: nat, done: nat, len: nat, next: nat)
    requires Clear(c, src, srcOff, destOff, done) && (destOff + done) % PAGE_SIZE + len <= PAGE_SIZE &&
      next == done + len
    requires if c(src, (srcOff + done) / PAGE_SIZE).Some? then (srcOff + done) % PAGE_SIZE + len <= PAGE_SIZE
      else (destOff + done) % PAGE_SIZE + len == PAGE_SIZE
    ensures Clear(c, src, srcOff, destOff, next)
  {
  }

  // How many frames it takes.

  /** Writing to page `q`, after pages [first, q), will take a frame: it is missing, or
      shared by then. */
  ghost predicate NeedsAt(st: Store, dest: ObjId, first: nat, q: nat) {
    Content(st, dest, q).None? || (Covered(st, dest, q) && !FreedBefore(st, dest, first, q))
  }

  lemma NeedsNow(st: Store, dest: ObjId, pn: nat)
    requires StoreOk(st)
    ensures NeedsAt(st, dest, pn, pn) <==> NeedsFrame(st, dest, pn)
  {
    ContentExists(st, dest, pn);
    if Covered(st, dest, pn) { UnsharedIsFreed(st, dest, pn); }
  }

  /** A step on page `pn` changes nothing about that for a later page, whether or not the
      next step is on the same page. */
  lemma NeedsStep(st': Store, st: Store, dest: ObjId, pn: nat, next: nat, q: nat)
    requires StoreOk(st) && StoreOk(st') && pn < q && next == pn + 1 && Private(st', dest, pn)
    requires RangeAfter(st', st, dest, pn, q) && Content(st', dest, q) == Content(st, dest, q)
    ensures NeedsAt(st', dest, next, q) <==> NeedsAt(st, dest, pn, q)
    ensures NeedsAt(st', dest, pn, q) <==> NeedsAt(st, dest, pn, q)
  {
    if Covered(st, dest, q) {
      if FreedBefore(st, dest, pn, q) { FreedStep(st', st, dest, pn, next, q); }
      if FreedBefore(st', dest, next, q) { FreedStepBack(st', st, dest, pn, next, q); }
      if FreedBefore(st', dest, pn, q) { FreedLater(st', dest, pn, next, q); }
    }
  }

  /** A private page is on the backing of a later one only if it is in the same range. */
  lemma FreedLater(st: Store, dest: ObjId, pn: nat, next: nat, q: nat)
    requires StoreOk(st) && Private(st, dest, pn) && Covered(st, dest, q) && pn < q && next == pn + 1
    requires FreedBefore(st, dest, pn, q)
    ensures FreedBefore(st, dest, next, q)
  {
    var r := st.trees[dest][q];
    assert Holds(st, dest, q, r.backing);
    assert st.trees[dest][pn].Covers(pn);
  }

  /** The pages from `q` to `last` that take a frame, after those from `first` on. */
  ghost function NeedCount(st: Store, dest: ObjId, first: nat, q: nat, last: nat): nat
    decreases last + 1 - q
  {
    if q > last then 0 else (if NeedsAt(st, dest, first, q) then 1 else 0) + NeedCount(st, dest, first, q + 1, last)
  }

  /** The frames that copying into pages `first` to `last` takes. */
  ghost function Needed(st: Store, dest: ObjId, first: nat, last: nat): nat { NeedCount(st, dest, first, first, last) }

  ghost function WindowNeeds(st: Store, dest: ObjId, destOff: nat, len: nat): nat {
    if len == 0 then 0 else Needed(st, dest, destOff / PAGE_SIZE, (destOff + len - 1) / PAGE_SIZE)
  }

  lemma {:induction false} CountSame(st': Store, first': nat, st: Store, first: nat, dest: ObjId, q: nat, last: nat)
    requires forall x: nat {:trigger NeedsAt(st', dest, first', x)} ::
      q <= x <= last ==> (NeedsAt(st', dest, first', x) <==> NeedsAt(st, dest, first, x))
    ensures NeedCount(st', dest, first', q, last) == NeedCount(st, dest, first, q, last)
    decreases last + 1 - q
  {
    if q > last {
    } else {
      assert NeedsAt(st', dest, first', q) <==> NeedsAt(st, dest, first, q);
      CountSame(st', first', st, first, dest, q + 1, last);
    }
  }

  /** A step on page `pn` takes its frame off the count. */
  lemma CountStep(st': Store, st: Store, dest: ObjId, pn: nat, next: nat, last: nat, b: seq<byte>)
    requires StoreOk(st) && Frame(st', st, dest, pn) && ContentSet(st', st, dest, pn, b) && next == pn + 1 && pn <= last
    ensures Needed(st, dest, pn, last) == (if NeedsFrame(st, dest, pn) then 1 else 0) + Needed(st', dest, next, last)
    ensures Needed(st', dest, pn, last) == Needed(st', dest, next, last)
  {
    forall x: nat | next <= x
      ensures NeedsAt(st', dest, next, x) <==> NeedsAt(st, dest, pn, x)
      ensures NeedsAt(st', dest, pn, x) <==> NeedsAt(st, dest, pn, x)
    {
      assert RangeAfter(st', st, dest, pn, x);
      NeedsStep(st', st, dest, pn, next, x);
    }
    CountSame(st', next, st, pn, dest, next, last);
    CountSame(st', pn, st, pn, dest, next, last);
    NeedsNow(st, dest, pn);
    NeedsNow(st', dest, pn);
  }

  /** The copying in one turn of the loop of `copy_bytes`. */
  method CopyTurn(m: Memory, ghost c: Contents, src: ObjId, ghost srcOff: nat, dest: ObjId, ghost destOff: nat,
                  ghost sofar: nat,
                  srcPoint: nat, destPoint: nat, srcPage: PageStatus, from: nat, destIn: nat, len: nat, ghost next: nat)
    returns (ok: bool)
    requires m.Valid() && src in m.st.trees && dest in m.st.trees && src != dest
    requires srcPoint == (srcOff + sofar) / PAGE_SIZE && destPoint == (destOff + sofar) / PAGE_SIZE
    requires m.frames > 0 ==> Content(m.st, dest, destPoint).Some? || AddPageOk(m.st, dest, destPoint, true)
    requires Progress(ContentsOf(m.st), c, dest, destOff, src, srcOff, sofar) && Clear(c, src, srcOff, destOff, sofar)
    requires SourcePage(m.st, src, srcPoint, srcPage) && destIn == (destOff + sofar) % PAGE_SIZE && next == sofar + len
    requires destIn + len <= PAGE_SIZE && from + len <= PAGE_SIZE
    requires Content(m.st, src, srcPoint).Some? ==> from == (srcOff + sofar) % PAGE_SIZE
    modifies m
    ensures m.Valid() && m.frames == FramesLeft(old(m.frames), NeedsFrame(old(m.st), dest, destPoint))
    ensures !ok ==> m.st == old(m.st)
    ensures !ok <==> old(m.frames) == 0 && NeedsFrame(old(m.st), dest, destPoint)
    ensures ok ==> Frame(m.st, old(m.st), dest, destPoint)
    ensures ok ==> PartCopied(m.st, old(m.st), dest, destPoint, destIn, src, srcPoint, from, len)
    ensures ok ==> Progress(ContentsOf(m.st), c, dest, destOff, src, srcOff, next)
  {
    ghost var st := m.st;
    ok := CopyPart(m, dest, destPoint, destIn, src, srcPoint, srcPage, from, len);
    if ok {
      PartIsSet(m.st, st, dest, destPoint, destIn, src, srcPoint, from, len);
      TurnProgress(ContentsOf(m.st), ContentsOf(st), c, dest, destOff, src, srcOff, sofar, destPoint, destIn, srcPoint,
                   from, len, next);
    }
  }

  /** Where the next turn writes can be written. */
  lemma TurnDest(st': Store, st: Store, dest: ObjId, pn: nat, next: nat, last: nat, off: nat, src: ObjId, spn: nat,
                 from: nat, len: nat)
    requires StoreOk(st) && dest in st.trees && DestOk(st, dest, pn, last) && Frame(st', st, dest, pn)
    requires off + len <= PAGE_SIZE && from + len <= PAGE_SIZE &&
      PartCopied(st', st, dest, pn, off, src, spn, from, len)
    requires next == pn || (next == pn + 1 && pn < last)
    ensures dest in st'.trees && DestOk(st', dest, next, last)
  {
    DestStep(st', st, dest, pn, pn + 1, last,
             Overwrite(PageBytes(st, dest, pn), off, PageBytes(st, src, spn)[from..from + len]));
  }

  /** What a turn takes off the frames still needed. */
  lemma TurnNeeds(st': Store, st: Store, dest: ObjId, pn: nat, next: nat, last: nat, off: nat, src: ObjId, spn: nat,
                  from: nat, len: nat)
    requires StoreOk(st) && Frame(st', st, dest, pn) && pn <= last && (next == pn || next == pn + 1)
    requires off + len <= PAGE_SIZE && from + len <= PAGE_SIZE &&
      PartCopied(st', st, dest, pn, off, src, spn, from, len)
    ensures Needed(st, dest, pn, last) == (if NeedsFrame(st, dest, pn) then 1 else 0) + Needed(st', dest, next, last)
    ensures pn == last ==> Needed(st', dest, next, last) == 0
  {
    CountStep(st', st, dest, pn, pn + 1, last,
              Overwrite(PageBytes(st, dest, pn), off, PageBytes(st, src, spn)[from..from + len]));
  }

  /** The copying in one turn, and what it leaves for the next, which is on page `next` of
      the destination: the frames still needed, and that the rest can be written. */
  method CopyAndCount(m: Memory, ghost c: Contents, src: ObjId, ghost srcOff: nat, dest: ObjId, ghost destOff: nat,
                      ghost sofar: nat, srcPoint: nat, destPoint: nat, srcPage: PageStatus, from: nat, destIn: nat,
                      len: nat, ghost sofar': nat, ghost next: nat, ghost last: nat, ghost needs: nat)
    returns (ok: bool, ghost needs': nat)
    requires m.Valid() && src in m.st.trees && dest in m.st.trees && src != dest
    requires srcPoint == (srcOff + sofar) / PAGE_SIZE && destPoint == (destOff + sofar) / PAGE_SIZE
    requires m.frames > 0 ==> DestOk(m.st, dest, destPoint, last)
    requires Progress(ContentsOf(m.st), c, dest, destOff, src, srcOff, sofar) && Clear(c, src, srcOff, destOff, sofar)
    requires SourcePage(m.st, src, srcPoint, srcPage) && destIn == (destOff + sofar) % PAGE_SIZE
    requires sofar' == sofar + len
    requires destIn + len <= PAGE_SIZE && from + len <= PAGE_SIZE
    requires Content(m.st, src, srcPoint).Some? ==> from == (srcOff + sofar) % PAGE_SIZE
    requires destPoint <= last && (next == destPoint || next == destPoint + 1)
    requires needs == Needed(m.st, dest, destPoint, last)
    modifies m
    ensures m.Valid() && m.frames <= old(m.frames) && OtherTrees(m.st, old(m.st), dest)
    ensures !ok <==> old(m.frames) == 0 && NeedsFrame(old(m.st), dest, destPoint)
    ensures !ok ==> m.frames == 0 && m.st == old(m.st) && needs > 0
    ensures ok ==> Progress(ContentsOf(m.st), c, dest, destOff, src, srcOff, sofar')
    ensures ok ==> needs' == Needed(m.st, dest, next, last) && m.frames - needs' == old(m.frames) - needs
    ensures ok && destPoint == last ==> needs' == 0
    ensures ok && m.frames > 0 && next <= last ==> DestOk(m.st, dest, next, last)
  {
    ghost var st := m.st;
    NeedsFirst(st, dest, destPoint, last);
    ok := CopyTurn(m, c, src, srcOff, dest, destOff, sofar, srcPoint, destPoint, srcPage, from, destIn, len, sofar');
    needs' := if ok then Needed(m.st, dest, next, last) else 0;
    if ok {
      TurnNeeds(m.st, st, dest, destPoint, next, last, destIn, src, srcPoint, from, len);
      if m.frames > 0 && next <= last {
        TurnDest(m.st, st, dest, destPoint, next, last, destIn, src, srcPoint, from, len);
      }
    }
  }

  /** The next page counts, if it needs a frame. */
  lemma NeedsFirst(st: Store, dest: ObjId, pn: nat, last: nat)
    requires StoreOk(st) && pn <= last
    ensures NeedsFrame(st, dest, pn) ==> Needed(st, dest, pn, last) >= 1
  {
    NeedsNow(st, dest, pn);
  }

  /** A page cursor after `len` bytes. */
  method NextPoint(ghost at: nat, point: nat, inPage: nat, len: nat) returns (point': nat)
    requires point == at / PAGE_SIZE && inPage == at % PAGE_SIZE && inPage + len < 2 * PAGE_SIZE
    ensures point' == (at + len) / PAGE_SIZE && (point' == point || point' == point + 1)
  {
    Cursor(at, len);
    point' := point;
    if inPage + len >= PAGE_SIZE {
      point' := point + 1;
    }
  }

  /** One turn of the loop of `copy_bytes`. */
  method Turn(m: Memory, ghost c: Contents, src: ObjId, srcOff: nat, dest: ObjId, destOff: nat, sofar: nat,
              srcPoint: nat, destPoint: nat, remaining: nat, ghost last: nat, ghost needs: nat)
    returns (ok: bool, srcPoint': nat, destPoint': nat, sofar': nat, remaining': nat, ghost needs': nat)
    requires m.Valid() && src in m.st.trees && dest in m.st.trees && src != dest && remaining > 0
    requires srcPoint == (srcOff + sofar) / PAGE_SIZE && destPoint == (destOff + sofar) / PAGE_SIZE
    requires m.frames > 0 ==> DestOk(m.st, dest, destPoint, last)
    requires last == (destOff + sofar + remaining - 1) / PAGE_SIZE && needs == Needed(m.st, dest, destPoint, last)
    requires Progress(ContentsOf(m.st), c, dest, destOff, src, srcOff, sofar) && Clear(c, src, srcOff, destOff, sofar)
    modifies m
    ensures m.Valid() && src in m.st.trees && dest in m.st.trees
    ensures !ok <==> old(m.frames) == 0 && NeedsFrame(old(m.st), dest, destPoint)
    ensures !ok ==> m.frames == 0 && m.st == old(m.st) && needs > 0
    ensures m.frames <= old(m.frames) && (ok ==> m.frames - needs' == old(m.frames) - needs)
    ensures ok ==> if remaining' == 0 then needs' == 0 else needs' == Needed(m.st, dest, destPoint', last)
    ensures sofar' + remaining' == sofar + remaining && remaining' < remaining
    ensures srcPoint' == (srcOff + sofar') / PAGE_SIZE && destPoint' == (destOff + sofar') / PAGE_SIZE
    ensures ok ==> Progress(ContentsOf(m.st), c, dest, destOff, src, srcOff, sofar')
    ensures ok && remaining' > 0 ==> Clear(c, src, srcOff, destOff, sofar')
    ensures ok && remaining' > 0 && m.frames > 0 ==> DestOk(m.st, dest, destPoint', last)
  {
    ghost var st := m.st;
    var srcPage := SourceLookup(m, src, srcPoint);
    var srcIn, destIn := (srcOff + sofar) % PAGE_SIZE, (destOff + sofar) % PAGE_SIZE;
    var len := TurnLength(srcPage.Ready?, srcIn, destIn, remaining);
    TurnReaches(destOff + sofar, remaining, len, last);
    srcPoint' := NextPoint(srcOff + sofar, srcPoint, srcIn, len);
    destPoint' := NextPoint(destOff + sofar, destPoint, destIn, len);
    sofar', remaining' := sofar + len, remaining - len;
    var from := if srcPage.Ready? then srcIn else 0;
    ok, needs' := CopyAndCount(m, c, src, srcOff, dest, destOff, sofar, srcPoint, destPoint, srcPage, from, destIn, len,
                               sofar', destPoint', last, needs);
    if ok && remaining' > 0 {
      SourceSame(st, c, dest, src, srcPoint);
      NextClear(c, src, srcOff, destOff, sofar, len, sofar');
    }
  }

  /** The page a turn is on is at most the last, and is the last if it ends the copy. */
  lemma TurnReaches(at: nat, remaining: nat, len: nat, last: nat)
    requires 0 < len <= remaining && at % PAGE_SIZE + len <= PAGE_SIZE && last == (at + remaining - 1) / PAGE_SIZE
    ensures at / PAGE_SIZE <= last && (len == remaining ==> at / PAGE_SIZE == last)
    ensures len < remaining ==> (at + len) / PAGE_SIZE <= last
  {
  }

  lemma SourceSame(st: Store, c: Contents, dest: ObjId, src: ObjId, q: nat)
    requires OthersSame(ContentsOf(st), c, dest) && src != dest
    ensures c(src, q) == Content(st, src, q)
  {
    assert ContentsOf(st)(src, q) == Content(st, src, q);
  }

  /** `copy_bytes`: both page cursors always follow the bytes done; the loop ends, with
      the first `done` bytes copied, when the window is done or the next page needs a frame
      and there is none.  It gets to the end exactly if there is a frame for each page of the
      window that is missing, or shared when reached. */
  method CopyBytes(m: Memory, src: ObjId, srcOff: nat, dest: ObjId, destOff: nat, byteLength: nat)
    returns (ok: bool, ghost done: nat, ghost stop: nat)
    requires m.Valid() && src in m.st.trees && dest in m.st.trees && src != dest
    requires byteLength > 0 && m.frames > 0 ==>
      DestOk(m.st, dest, destOff / PAGE_SIZE, (destOff + byteLength - 1) / PAGE_SIZE)
    modifies m
    ensures m.Valid() && done <= byteLength && (ok <==> done == byteLength)
    ensures !ok ==> m.frames == 0 && stop == (destOff + done) / PAGE_SIZE && NeedsFrame(m.st, dest, stop)
    ensures ok <==> old(m.frames) >= WindowNeeds(old(m.st), dest, destOff, byteLength)
    ensures BytesCopied(ContentsOf(m.st), ContentsOf(old(m.st)), dest, destOff, src, srcOff, done)
  {
    ghost var c, last := ContentsOf(m.st), if byteLength > 0 then (destOff + byteLength - 1) / PAGE_SIZE else 0;
    var srcPoint, destPoint := srcOff / PAGE_SIZE, destOff / PAGE_SIZE;
    var remaining, sofar := byteLength, 0;
    ghost var total := WindowNeeds(m.st, dest, destOff, byteLength);
    ghost var needs := total;
    ok := true;
    while remaining > 0
      invariant sofar + remaining == byteLength && m.Valid() && src in m.st.trees && dest in m.st.trees && ok
      invariant srcPoint == (srcOff + sofar) / PAGE_SIZE && destPoint == (destOff + sofar) / PAGE_SIZE
      invariant Progress(ContentsOf(m.st), c, dest, destOff, src, srcOff, sofar)
      invariant remaining > 0 ==> Clear(c, src, srcOff, destOff, sofar)
      invariant remaining > 0 && m.frames > 0 ==> DestOk(m.st, dest, destPoint, last)
      invariant m.frames - needs == old(m.frames) - total
      invariant if remaining > 0 then needs == Needed(m.st, dest, destPoint, last) else needs == 0
    {
      done := sofar;
      ghost var pn, before := destPoint, needs;
      ok, srcPoint, destPoint, sofar, remaining, needs :=
        Turn(m, c, src, srcOff, dest, destOff, sofar, srcPoint, destPoint, remaining, last, before);
      if !ok {
        stop := pn;
        return;
      }
    }
    done, stop := sofar, destPoint;
  }

  lemma Cursor(at: nat, len: nat)
    requires at % PAGE_SIZE + len < 2 * PAGE_SIZE
    ensures (at + len) / PAGE_SIZE == at / PAGE_SIZE + if at % PAGE_SIZE + len >= PAGE_SIZE then 1 else 0
  {
  }

  /** The copy is the flat one exactly if the swallowed bytes are zero in the source. */
  lemma CopiedFlatIff(c': Contents, c: Contents, dest: ObjId, destOff: nat, src: ObjId, srcOff: nat, len: nat)
    requires BytesCopied(c', c, dest, destOff, src, srcOff, len)
    ensures FlatCopy(c', c, dest, destOff, src, srcOff, len) <==>
      forall i: nat :: i < len && Swallowed(c, src, srcOff, destOff, i) ==> ByteAt(c, src, srcOff + i) == 0
  {
    if FlatCopy(c', c, dest, destOff, src, srcOff, len) {
      forall i: nat | i < len && Swallowed(c, src, srcOff, destOff, i)
        ensures ByteAt(c, src, srcOff + i) == 0
      {
        assert FlatAt(c', c, dest, destOff, src, srcOff, len, dest, destOff + i);
        assert ByteAt(c', dest, destOff + i) == CopiedByte(c, src, srcOff, destOff, destOff + i - destOff);
      }
    }
    if forall i: nat :: i < len && Swallowed(c, src, srcOff, destOff, i) ==>
      ByteAt(c, src, srcOff + i) == 0 {
      forall o: ObjId, a: nat ensures FlatAt(c', c, dest, destOff, src, srcOff, len, o, a) {
        if o == dest && destOff <= a < destOff + len {
          var i := a - destOff;
          assert Swallowed(c, src, srcOff, destOff, i) ==> ByteAt(c, src, srcOff + i) == 0;
        }
      }
    }
  }

  /** With every source page there, `copy_bytes` is a flat copy, however the two offsets
      are misaligned. */
  lemma CopiedFlat(c': Contents, c: Contents, dest: ObjId, destOff: nat, src: ObjId, srcOff: nat, len: nat)
    requires BytesCopied(c', c, dest, destOff, src, srcOff, len)
    requires forall q: nat :: srcOff / PAGE_SIZE <= q && PAGE_SIZE * q < srcOff + len ==> c(src, q).Some?
    ensures FlatCopy(c', c, dest, destOff, src, srcOff, len)
  {
    forall i: nat | i < len ensures !Swallowed(c, src, srcOff, destOff, i) {
      var page := (srcOff + i) / PAGE_SIZE;
      if PAGE_SIZE * page > srcOff { assert c(src, page - 1).Some?; }
    }
    CopiedFlatIff(c', c, dest, destOff, src, srcOff, len);
  }

  /** A missing page can swallow bytes of the next: two pages copied from offset 0 to
      offset 1, the first of them missing. */
  lemma HoleSwallows(c': Contents, c: Contents, dest: ObjId, src: ObjId)
    requires BytesCopied(c', c, dest, 1, src, 0, 2 * PAGE_SIZE)
    requires c(src, 0).None? && c(src, 1).Some? && ByteAt(c, src, PAGE_SIZE) != 0
    ensures !FlatCopy(c', c, dest, 1, src, 0, 2 * PAGE_SIZE)
  {
    CopiedFlatIff(c', c, dest, 1, src, 0, 2 * PAGE_SIZE);
    assert Swallowed(c, src, 0, 1, PAGE_SIZE);
    assert ByteAt(c, src, 0 + PAGE_SIZE) != 0;
  }

  /** An empty object 0, and an object 1 with only a page 1, of ones. */
  lemma SecondPageOnly() returns (st: Store)
    ensures StoreOk(st) && 0 in st.trees && 1 in st.trees && st.trees[0] == map[]
    ensures Content(st, 1, 0).None? && Content(st, 1, 1) == Some(OnesPage())
  {
    var r := PageRange(1, 1, 0, Single(0));
    var t: Tree, u: Tree := map[], map[1 := r];
    st := Store(map[0 := t, 1 := u], map[], map[0 := OnesPage()]);
    forall o, q | Covered(st, o, q) ensures OnSingle(st, o, q) {}
    SinglesOk(st);
  }

  /** A store on which `copy_bytes` finds everything it needs and yet loses a byte. */
  lemma HoleExample() returns (st: Store)
    ensures StoreOk(st) && 0 in st.trees && 1 in st.trees && DestOk(st, 0, 0, 2)
    ensures forall c': Contents {:trigger BytesCopied(c', ContentsOf(st), 0, 1, 1, 0, 2 * PAGE_SIZE)} ::
      BytesCopied(c', ContentsOf(st), 0, 1, 1, 0, 2 * PAGE_SIZE) ==>
        !FlatCopy(c', ContentsOf(st), 0, 1, 1, 0, 2 * PAGE_SIZE)
  {
    st := SecondPageOnly();
    var c := ContentsOf(st);
    assert c(1, 0).None? && c(1, 1).Some? && ByteAt(c, 1, PAGE_SIZE) == 1;
    forall c': Contents | BytesCopied(c', c, 0, 1, 1, 0, 2 * PAGE_SIZE)
      ensures !FlatCopy(c', c, 0, 1, 1, 0, 2 * PAGE_SIZE)
    {
      HoleSwallows(c', c, 0, 1);
    }
  }

  // Both ways together.

  /** Every source page of the window is there. */
  ghost predicate AllPresent(st: Store, src: ObjId, srcOff: nat, len: nat) {
    forall q: nat :: srcOff / PAGE_SIZE <= q && PAGE_SIZE * q < srcOff + len ==> Content(st, src, q).Some?
  }

  /** With a page boundary in reach, the pages counted are those of the window. */
  lemma PagesOfWindow(srcOff: nat, len: nat, q: nat)
    requires srcOff % PAGE_SIZE == 0 || srcOff % PAGE_SIZE + len >= PAGE_SIZE
    requires srcOff / PAGE_SIZE <= q < srcOff / PAGE_SIZE + NrPages(srcOff, len)
    ensures PAGE_SIZE * q < srcOff + len
  {
    EffectiveLengthIff(srcOff, len);
  }

  lemma PresentCovered(st: Store, src: ObjId, srcOff: nat, len: nat)
    requires StoreOk(st) && AllPresent(st, src, srcOff, len)
    requires srcOff % PAGE_SIZE == 0 || srcOff % PAGE_SIZE + len >= PAGE_SIZE
    ensures forall q: nat :: srcOff / PAGE_SIZE <= q < srcOff / PAGE_SIZE + NrPages(srcOff, len) ==>
      CoverageOf(st, src)(q)
  {
    forall q: nat | srcOff / PAGE_SIZE <= q < srcOff / PAGE_SIZE + NrPages(srcOff, len) ensures CoverageOf(st, src)(q) {
      PagesOfWindow(srcOff, len, q);
      ContentExists(st, src, q);
    }
  }

  /** No byte that is not zero is swallowed. */
  ghost predicate NoneSwallowed(c: Contents, src: ObjId, srcOff: nat, destOff: nat, len: nat) {
    forall i: nat {:trigger Swallowed(c, src, srcOff, destOff, i)} ::
      i < len && Swallowed(c, src, srcOff, destOff, i) ==> ByteAt(c, src, srcOff + i) == 0
  }

  lemma PresentContents(st: Store, src: ObjId, srcOff: nat, len: nat)
    requires AllPresent(st, src, srcOff, len)
    ensures forall q: nat :: srcOff / PAGE_SIZE <= q && PAGE_SIZE * q < srcOff + len ==> ContentsOf(st)(src, q).Some?
  {
    forall q: nat | srcOff / PAGE_SIZE <= q && PAGE_SIZE * q < srcOff + len ensures ContentsOf(st)(src, q).Some? {
      assert Content(st, src, q).Some?;
    }
  }

  /** Both ends of the copy lie inside one page, at the same place in source and
      destination. */
  predicate InsideOnePage(srcOff: nat, destOff: nat, len: nat) {
    srcOff % PAGE_SIZE == destOff % PAGE_SIZE && srcOff % PAGE_SIZE != 0 && srcOff % PAGE_SIZE + len < PAGE_SIZE
  }

  /** `copy_ranges` where source and destination are not misaligned by the same amount. */
  method CopyMisaligned(m: Memory, src: ObjId, srcOff: nat, dest: ObjId, destOff: nat, byteLength: nat)
    returns (ghost done: bool)
    requires m.Valid() && src in m.st.trees && dest in m.st.trees && src != dest
    requires byteLength > 0 && m.frames > 0 ==>
      DestOk(m.st, dest, destOff / PAGE_SIZE, (destOff + byteLength - 1) / PAGE_SIZE)
    modifies m
    ensures m.Valid()
    ensures done <==> old(m.frames) >= WindowNeeds(old(m.st), dest, destOff, byteLength)
    ensures done ==>
      (FlatCopy(ContentsOf(m.st), ContentsOf(old(m.st)), dest, destOff, src, srcOff, byteLength) <==>
       NoneSwallowed(ContentsOf(old(m.st)), src, srcOff, destOff, byteLength))
    ensures done && AllPresent(old(m.st), src, srcOff, byteLength) ==>
      FlatCopy(ContentsOf(m.st), ContentsOf(old(m.st)), dest, destOff, src, srcOff, byteLength)
  {
    ghost var st := m.st;
    var ok;
    ghost var n, stop;
    ok, n, stop := CopyBytes(m, src, srcOff, dest, destOff, byteLength);
    done := ok;
    if ok { CopiedFlatIff(ContentsOf(m.st), ContentsOf(st), dest, destOff, src, srcOff, byteLength); }
    if ok && AllPresent(st, src, srcOff, byteLength) {
      PresentContents(st, src, srcOff, byteLength);
      CopiedFlat(ContentsOf(m.st), ContentsOf(st), dest, destOff, src, srcOff, byteLength);
    }
  }

  /** `copy_ranges` where they are. */
  method CopySameMisalignment(m: Memory, src: ObjId, srcOff: nat, dest: ObjId, destOff: nat, byteLength: nat)
    returns (ghost done: bool)
    requires m.Valid() && src in m.st.trees && dest in m.st.trees && src != dest
    requires srcOff % PAGE_SIZE == destOff % PAGE_SIZE
    requires m.frames > 0 ==> WindowOk(m.st, src, srcOff, dest, destOff, byteLength)
    modifies m
    ensures m.Valid()
    ensures done <==>
      && (WholePagesOf(srcOff, byteLength) == 0 || Covered(old(m.st), src, (srcOff + byteLength) / PAGE_SIZE - 1))
      && old(m.frames) >= FramesFor(old(m.st), dest, destOff / PAGE_SIZE, src, srcOff / PAGE_SIZE, srcOff % PAGE_SIZE,
                                    (srcOff + byteLength) % PAGE_SIZE, WindowLast(srcOff, destOff, byteLength))
    ensures done ==>
      (FlatCopy(ContentsOf(m.st), ContentsOf(old(m.st)), dest, destOff, src, srcOff, byteLength) <==>
       Harmless(ContentsOf(old(m.st)), CoverageOf(old(m.st), src), dest, destOff, src, srcOff, byteLength))
    ensures done && AllPresent(old(m.st), src, srcOff, byteLength) && !InsideOnePage(srcOff, destOff, byteLength) ==>
      FlatCopy(ContentsOf(m.st), ContentsOf(old(m.st)), dest, destOff, src, srcOff, byteLength)
  {
    if AllPresent(m.st, src, srcOff, byteLength) && !InsideOnePage(srcOff, destOff, byteLength) {
      PresentCovered(m.st, src, srcOff, byteLength);
      CoveredHarmless(ContentsOf(m.st), CoverageOf(m.st, src), dest, destOff, src, srcOff, byteLength);
    }
    var completed;
    ghost var firstOk, lastOk, lastFull, dp1, sp1;
    completed, firstOk, lastOk, lastFull, dp1, sp1 := CopyAligned(m, src, srcOff, dest, destOff, byteLength);
    done := completed && firstOk && lastOk;
  }

  /** `copy_ranges`: sharing whole pages where source and destination are misaligned by the
      same amount, and by bytes otherwise.  It is a flat copy of the bytes asked for exactly if
      what it leaves out, zeroes or does too much makes no difference; with every source
      page there it is one, unless it lies inside one page and can share nothing. */
  method CopyObjectRange(m: Memory, src: ObjId, srcOff: nat, dest: ObjId, destOff: nat, byteLength: nat)
    returns (ghost done: bool)
    requires m.Valid() && src in m.st.trees && dest in m.st.trees && src != dest
    requires srcOff % PAGE_SIZE != destOff % PAGE_SIZE ==>
      byteLength > 0 && m.frames > 0 ==> DestOk(m.st, dest, destOff / PAGE_SIZE, (destOff + byteLength - 1) / PAGE_SIZE)
    requires srcOff % PAGE_SIZE == destOff % PAGE_SIZE ==>
      m.frames > 0 ==> WindowOk(m.st, src, srcOff, dest, destOff, byteLength)
    modifies m
    ensures m.Valid()
    ensures done ==>
      (FlatCopy(ContentsOf(m.st), ContentsOf(old(m.st)), dest, destOff, src, srcOff, byteLength) <==>
       if srcOff % PAGE_SIZE != destOff % PAGE_SIZE
       then NoneSwallowed(ContentsOf(old(m.st)), src, srcOff, destOff, byteLength)
       else Harmless(ContentsOf(old(m.st)), CoverageOf(old(m.st), src), dest, destOff, src, srcOff, byteLength))
    ensures done && AllPresent(old(m.st), src, srcOff, byteLength) && !InsideOnePage(srcOff, destOff, byteLength) ==>
      FlatCopy(ContentsOf(m.st), ContentsOf(old(m.st)), dest, destOff, src, srcOff, byteLength)
    ensures srcOff % PAGE_SIZE != destOff % PAGE_SIZE ==>
      (done <==> old(m.frames) >= WindowNeeds(old(m.st), dest, destOff, byteLength))
    ensures srcOff % PAGE_SIZE == destOff % PAGE_SIZE ==>
      (done <==>
       && (WholePagesOf(srcOff, byteLength) == 0 || Covered(old(m.st), src, (srcOff + byteLength) / PAGE_SIZE - 1))
       && old(m.frames) >= FramesFor(old(m.st), dest, destOff / PAGE_SIZE, src, srcOff / PAGE_SIZE, srcOff % PAGE_SIZE,
                                     (srcOff + byteLength) % PAGE_SIZE, WindowLast(srcOff, destOff, byteLength)))
  {
    if srcOff % PAGE_SIZE != destOff % PAGE_SIZE {
      done := CopyMisaligned(m, src, srcOff, dest, destOff, byteLength);
    } else {
      done := CopySameMisalignment(m, src, srcOff, dest, destOff, byteLength);
    }
  }
}
