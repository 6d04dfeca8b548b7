/** The physical frame allocator (src/kernel/src/memory/frame.rs).

    Addresses are frame numbers.  A region's frames carry metadata; the admitted ones
    are the heads of blocks of one of three sizes.  Free blocks sit on the lists of
    their level. */
module FrameAllocator {
  import opened Options
  import opened PageSize

  const NR_LEVELS: nat := 3

  /** Block sizes and alignments, in frames. */
  function Size(level: nat): nat {
    if level == 0 then 1 else if level == 1 then 512 else 262144
  }

  predicate Aligned(q: nat, level: nat) {
    if level == 0 then true else if level == 1 then q % 512 == 0 else q % 262144 == 0
  }

  datatype Frame = Frame(level: nat, zeroed: bool, inUse: bool, admitted: bool)

  type Frames = map<nat, Frame>

  // Blocks.

  /** `h` heads a block. */
  predicate Head(fs: Frames, h: nat) { h in fs && fs[h].admitted }

  predicate InBlock(fs: Frames, h: nat, q: nat)
    requires h in fs
  {
    h <= q < h + Size(fs[h].level)
  }

  /** Frame `q` lies in the block of its owner ... */
  ghost predicate Owned(fs: Frames, owner: map<nat, nat>, q: nat) {
    q in fs ==> q in owner && Head(fs, owner[q]) && InBlock(fs, owner[q], q)
  }

  /** ... and in no other. */
  ghost predicate Owns(fs: Frames, owner: map<nat, nat>, h: nat, q: nat) {
    Head(fs, h) && InBlock(fs, h, q) ==> q in fs && q in owner && owner[q] == h
  }

  /** The blocks tile the region. */
  ghost predicate Tiled(fs: Frames, owner: map<nat, nat>, lo: nat, hi: nat) {
    && (forall q: nat :: q in fs <==> lo <= q < hi)
    && (forall q: nat {:trigger Owned(fs, owner, q)} :: Owned(fs, owner, q))
    && (forall h: nat, q: nat {:trigger Owns(fs, owner, h, q)} :: Owns(fs, owner, h, q))
  }

  predicate BlockOk(fs: Frames, h: nat) { Head(fs, h) ==> fs[h].level < NR_LEVELS && Aligned(h, fs[h].level) }

  /** Every block is of one of the levels and aligned to its own size. */
  ghost predicate SelfAligned(fs: Frames) {
    forall h: nat {:trigger BlockOk(fs, h)} :: BlockOk(fs, h)
  }

  /** Two blocks of a tiling never overlap; so outstanding allocations never do. */
  lemma BlocksDisjoint(fs: Frames, owner: map<nat, nat>, lo: nat, hi: nat, h: nat, k: nat, q: nat)
    requires Tiled(fs, owner, lo, hi) && Head(fs, h) && Head(fs, k) && InBlock(fs, h, q) && InBlock(fs, k, q)
    ensures h == k
  {
    assert Owns(fs, owner, h, q) && Owns(fs, owner, k, q);
  }

  /** Where the child that holds frame `q` of a block at `p` begins. */
  function ChildHead(p: nat, level: nat, q: nat): nat
    requires p <= q
  {
    if level == 1 then q else q - (q - p) % 512
  }

  /** `q` begins a child of the block at `p`. */
  predicate IsChild(fs: Frames, p: nat, q: nat)
    requires p in fs
  {
    InBlock(fs, p, q) && ChildHead(p, fs[p].level, q) == q
  }

  /** The frames after a block was split into its children. */
  function SplitFrames(fs: Frames, p: nat, inUse: bool): Frames
    requires p in fs && fs[p].level > 0
  {
    map q | q in fs :: if IsChild(fs, p, q) then Frame(fs[p].level - 1, fs[p].zeroed, inUse, true) else fs[q]
  }

  function SplitOwner(fs: Frames, owner: map<nat, nat>, p: nat): map<nat, nat>
    requires p in fs
  {
    map q | q in owner :: if InBlock(fs, p, q) then ChildHead(p, fs[p].level, q) else owner[q]
  }

  lemma ChildArithmetic(p: nat, level: nat, q: nat, c: nat)
    requires 1 <= level <= 2 && p <= q < p + Size(level)
    ensures var h := ChildHead(p, level, q);
      p <= h <= q < h + Size(level - 1) && h + Size(level - 1) <= p + Size(level) && ChildHead(p, level, h) == h
    ensures p <= c && ChildHead(p, level, c) == c && c <= q < c + Size(level - 1) ==> ChildHead(p, level, q) == c
  {
  }

  /** Splitting a block keeps the tiling. */
  lemma SplitTiles(fs: Frames, owner: map<nat, nat>, lo: nat, hi: nat, p: nat, inUse: bool)
    requires Tiled(fs, owner, lo, hi) && Head(fs, p) && 1 <= fs[p].level <= 2
    ensures Tiled(SplitFrames(fs, p, inUse), SplitOwner(fs, owner, p), lo, hi)
  {
    var fs', owner' := SplitFrames(fs, p, inUse), SplitOwner(fs, owner, p);
    forall q: nat ensures Owned(fs', owner', q) { SplitOwned(fs, owner, lo, hi, p, inUse, q); }
    forall h: nat, q: nat ensures Owns(fs', owner', h, q) { SplitOwns(fs, owner, lo, hi, p, inUse, h, q); }
  }

  lemma SplitOwned(fs: Frames, owner: map<nat, nat>, lo: nat, hi: nat, p: nat, inUse: bool, q: nat)
    requires Tiled(fs, owner, lo, hi) && Head(fs, p) && 1 <= fs[p].level <= 2
    ensures Owned(SplitFrames(fs, p, inUse), SplitOwner(fs, owner, p), q)
  {
    assert Owned(fs, owner, q);
    if q in fs && InBlock(fs, p, q) {
      var c := ChildHead(p, fs[p].level, q);
      ChildArithmetic(p, fs[p].level, q, q);
      assert Owns(fs, owner, p, c);
    } else if q in fs {
      assert Owns(fs, owner, p, owner[q]) && Owns(fs, owner, owner[q], owner[q]);
    }
  }

  lemma SplitOwns(fs: Frames, owner: map<nat, nat>, lo: nat, hi: nat, p: nat, inUse: bool, h: nat, q: nat)
    requires Tiled(fs, owner, lo, hi) && Head(fs, p) && 1 <= fs[p].level <= 2
    ensures Owns(SplitFrames(fs, p, inUse), SplitOwner(fs, owner, p), h, q)
  {
    assert Owns(fs, owner, h, q) && Owns(fs, owner, p, q);
    if h in fs && IsChild(fs, p, h) {
      ChildArithmetic(p, fs[p].level, h, h);
      if h <= q < h + Size(fs[p].level - 1) {
        ChildArithmetic(p, fs[p].level, q, h);
      }
    }
  }

  lemma ChildAligned(p: nat, level: nat, q: nat)
    requires 1 <= level <= 2 && Aligned(p, level) && p <= q && ChildHead(p, level, q) == q
    ensures Aligned(q, level - 1)
  {
  }

  lemma SplitAligned(fs: Frames, p: nat, inUse: bool)
    requires SelfAligned(fs) && Head(fs, p) && 1 <= fs[p].level <= 2
    ensures SelfAligned(SplitFrames(fs, p, inUse))
  {
    var fs' := SplitFrames(fs, p, inUse);
    forall h: nat ensures BlockOk(fs', h) {
      assert BlockOk(fs, h) && BlockOk(fs, p);
      if h in fs && IsChild(fs, p, h) { ChildAligned(p, fs[p].level, h); }
    }
  }

  // Free lists.

  /** The free lists of one level; the back is the end of the sequence. */
  datatype Level = Level(zeroed: seq<nat>, nonZeroed: seq<nat>, free: nat) {
    function List(z: bool): seq<nat> { if z then zeroed else nonZeroed }

    function Push(p: nat, z: bool): Level {
      if z then Level(zeroed + [p], nonZeroed, free + 1) else Level(zeroed, nonZeroed + [p], free + 1)
    }

    /** `pop_back` on one of the lists. */
    function Pop(z: bool): Level
      requires |List(z)| > 0 && free > 0
    {
      if z then Level(zeroed[..|zeroed| - 1], nonZeroed, free - 1)
      else Level(zeroed, nonZeroed[..|nonZeroed| - 1], free - 1)
    }
  }

  ghost predicate NoDup(s: seq<nat>) { forall i, j :: 0 <= i < j < |s| ==> s[i] != s[j] }

  /** `p` heads a free block. */
  predicate IsFree(fs: Frames, p: nat) { Head(fs, p) && !fs[p].inUse }

  /** `p` heads an outstanding allocation. */
  predicate InUse(fs: Frames, p: nat) { Head(fs, p) && fs[p].inUse }

  predicate OnList(levels: seq<Level>, l: nat, z: bool, p: nat)
    requires l < |levels|
  {
    p in levels[l].List(z)
  }

  /** `p` belongs on the list of level `l` for zeroed or other blocks. */
  predicate Belongs(fs: Frames, out: Option<nat>, l: nat, z: bool, p: nat) {
    IsFree(fs, p) && out != Some(p) && fs[p].level == l && fs[p].zeroed == z
  }

  ghost predicate CountOk(lv: Level) {
    lv.free == |lv.zeroed| + |lv.nonZeroed| && NoDup(lv.zeroed) && NoDup(lv.nonZeroed)
  }

  ghost predicate ListedRight(fs: Frames, levels: seq<Level>, out: Option<nat>, l: nat, z: bool, p: nat) {
    l < |levels| ==> (OnList(levels, l, z, p) <==> Belongs(fs, out, l, z, p))
  }

  /** Every free block, but for the one that has been taken out, is on exactly one list:
      that of its own level, chosen by its zeroed flag.  Counters equal list lengths. */
  ghost predicate ListsOk(fs: Frames, levels: seq<Level>, out: Option<nat>) {
    && |levels| == NR_LEVELS
    && CountOk(levels[0]) && CountOk(levels[1]) && CountOk(levels[2])
    && (forall l: nat, z, p: nat {:trigger ListedRight(fs, levels, out, l, z, p)} ::
          ListedRight(fs, levels, out, l, z, p))
  }

  lemma PopList(s: seq<nat>)
    requires NoDup(s) && |s| > 0
    ensures NoDup(s[..|s| - 1]) && s[|s| - 1] in s
    ensures forall p :: p in s[..|s| - 1] <==> p in s && p != s[|s| - 1]
  {
    assert s == s[..|s| - 1] + [s[|s| - 1]];
  }

  /** Taking the last block off a list. */
  lemma PopOk(fs: Frames, levels: seq<Level>, l: nat, z: bool)
    requires ListsOk(fs, levels, None) && l < NR_LEVELS && |levels[l].List(z)| > 0
    ensures levels[l].free > 0
    ensures var p := levels[l].List(z)[|levels[l].List(z)| - 1];
      Belongs(fs, None, l, z, p) && ListsOk(fs, levels[l := levels[l].Pop(z)], Some(p))
  {
    var p := levels[l].List(z)[|levels[l].List(z)| - 1];
    PopList(levels[l].List(z));
    assert ListedRight(fs, levels, None, l, z, p);
    var levels' := levels[l := levels[l].Pop(z)];
    forall k: nat, y, x: nat ensures ListedRight(fs, levels', Some(p), k, y, x) {
      assert ListedRight(fs, levels, None, k, y, x);
    }
  }

  /** Admitting a frame that heads no block yet, or the one that was taken out. */
  lemma AdmitOk(fs: Frames, levels: seq<Level>, out: Option<nat>, c: nat, l: nat, z: bool)
    requires ListsOk(fs, levels, out) && l < NR_LEVELS && c in fs && (!Head(fs, c) || out == Some(c) || fs[c].inUse)
    ensures ListsOk(fs[c := Frame(l, z, false, true)], levels[l := levels[l].Push(c, z)],
                    if out == Some(c) then None else out)
  {
    var fs', levels' := fs[c := Frame(l, z, false, true)], levels[l := levels[l].Push(c, z)];
    var out' := if out == Some(c) then None else out;
    assert ListedRight(fs, levels, out, l, z, c);
    forall k: nat, y, x: nat ensures ListedRight(fs', levels', out', k, y, x) {
      assert ListedRight(fs, levels, out, k, y, x);
    }
  }

  /** Frames on the free lists, counted in single frames. */
  function FreeFrames(levels: seq<Level>): nat
    requires |levels| == NR_LEVELS
  {
    levels[0].free + 512 * levels[1].free + 262144 * levels[2].free
  }

  /** The outstanding allocations are the same in both. */
  ghost predicate SameInUse(fs': Frames, fs: Frames) {
    forall p: nat {:trigger SameUse(fs', fs, p)} :: SameUse(fs', fs, p)
  }

  predicate SameUse(fs': Frames, fs: Frames, p: nat) {
    (InUse(fs', p) <==> InUse(fs, p)) && (InUse(fs, p) ==> fs'[p] == fs[p])
  }

  /** The policies: zeroed blocks only; others only; or others before zeroed ones. */
  predicate Wanted(tryZero: bool, onlyZero: bool, z: bool) { if onlyZero then z else !z || tryZero }

  predicate FitsAt(fs: Frames, level: nat, tryZero: bool, onlyZero: bool, p: nat) {
    IsFree(fs, p) && fs[p].level == level && Wanted(tryZero, onlyZero, fs[p].zeroed)
  }

  predicate Fits(fs: Frames, level: nat, tryZero: bool, onlyZero: bool, p: nat) {
    IsFree(fs, p) && fs[p].level >= level && Wanted(tryZero, onlyZero, fs[p].zeroed)
  }

  /** The frames while the children before `pa` have been given their new metadata. */
  ghost predicate SplitUpTo(fs: Frames, fs0: Frames, p: nat, inUse: bool, pa: nat)
    requires p in fs0 && fs0[p].level > 0
  {
    && (forall q :: q in fs <==> q in fs0)
    && (forall q :: q in fs0 ==>
          fs[q] == if IsChild(fs0, p, q) && p < q < pa
                   then Frame(fs0[p].level - 1, fs0[p].zeroed, inUse, true) else fs0[q])
  }

  function ChildAt(p: nat, level: nat, i: nat): nat { if level == 1 then p + i else p + 512 * i }

  /** The next child begins where the children before it end. */
  lemma NextChild(fs: Frames, fs0: Frames, p: nat, inUse: bool, i: nat)
    requires p in fs0 && 1 <= fs0[p].level <= 2 && 1 <= i < 512
    requires SplitUpTo(fs, fs0, p, inUse, ChildAt(p, fs0[p].level, i)) && ChildAt(p, fs0[p].level, i) in fs0
    ensures IsChild(fs0, p, ChildAt(p, fs0[p].level, i))
    ensures SplitUpTo(fs[ChildAt(p, fs0[p].level, i) := Frame(fs0[p].level - 1, fs0[p].zeroed, inUse, true)], fs0, p,
                      inUse, ChildAt(p, fs0[p].level, i + 1))
  {
    var l := fs0[p].level;
    var c, c' := ChildAt(p, l, i), ChildAt(p, l, i + 1);
    forall q | q in fs0 && IsChild(fs0, p, q) ensures c <= q < c' <==> q == c {
      NoChildBetween(p, l, i, q);
    }
  }

  lemma NoChildBetween(p: nat, level: nat, i: nat, q: nat)
    requires 1 <= level <= 2 && p <= q && ChildHead(p, level, q) == q
    ensures ChildAt(p, level, i) <= q < ChildAt(p, level, i + 1) <==> q == ChildAt(p, level, i)
  {
  }

  lemma SplitUpToAll(fs: Frames, fs0: Frames, p: nat, inUse: bool)
    requires p in fs0 && 1 <= fs0[p].level <= 2 && SplitUpTo(fs, fs0, p, inUse, ChildAt(p, fs0[p].level, 512))
    ensures fs[p := Frame(fs0[p].level - 1, fs0[p].zeroed, inUse, true)] == SplitFrames(fs0, p, inUse)
  {
  }

  /** A frame inside a block, other than its head, heads no block. */
  lemma InsideNotHead(fs: Frames, owner: map<nat, nat>, lo: nat, hi: nat, p: nat, q: nat)
    requires Tiled(fs, owner, lo, hi) && Head(fs, p) && InBlock(fs, p, q) && q != p
    ensures q in fs && !Head(fs, q)
  {
    assert Owns(fs, owner, p, q) && Owns(fs, owner, q, q);
  }

  class AllocationRegion {
    const lo: nat
    const hi: nat
    var frames: Frames
    var levels: seq<Level>
    ghost var owner: map<nat, nat>

    /** What every operation keeps; during an allocation one block, `out`, is off the
        lists but not yet marked allocated. */
    ghost predicate Inv(out: Option<nat>)
      reads this
    {
      Tiled(frames, owner, lo, hi) && SelfAligned(frames) && ListsOk(frames, levels, out)
    }

    /** The carving loop of `new`: from the bottom up, the largest block that is aligned
        and fits. */
    constructor (lo: nat, hi: nat)
      requires lo <= hi
      ensures this.lo == lo && this.hi == hi && Inv(None) && FreeFrames(levels) == hi - lo
      ensures forall h: nat {:trigger Carved(frames, hi, h)} :: Carved(frames, hi, h)
    {
      this.lo, this.hi := lo, hi;
      frames, owner := map[], map[];
      levels := [Level([], [], 0), Level([], [], 0), Level([], [], 0)];
      new;
      var cursor := lo;
      EmptyOk(levels, lo);
      while cursor < hi
        invariant lo <= cursor <= hi && CarvedUpTo(cursor)
      {
        cursor := Carve(cursor);
      }
    }

    /** The part of the region below `cursor` has been carved. */
    ghost predicate CarvedUpTo(cursor: nat)
      reads this
    {
      && lo <= cursor <= hi && Tiled(frames, owner, lo, cursor) && SelfAligned(frames) && ListsOk(frames, levels, None)
      && FreeFrames(levels) == cursor - lo
      && (forall h: nat {:trigger Carved(frames, hi, h)} :: Carved(frames, hi, h))
    }

    /** One turn of the carving loop. */
    method Carve(cursor: nat) returns (next: nat)
      requires CarvedUpTo(cursor) && cursor < hi
      modifies this
      ensures cursor < next && CarvedUpTo(next)
    {
      var level := GreedyLevel(cursor, hi - cursor);
      ghost var fs0 := frames;
      ResetFrames(cursor, Size(level), lo);
      CarveKeeps(fs0, frames, owner, levels, lo, hi, cursor, level);
      AdmitOne(cursor, level, false, None);
      owner := CarveOwner(owner, cursor, Size(level));
      next := cursor + Size(level);
    }

    /** The inner loop of `new`: fresh metadata for every frame of a block. */
    method ResetFrames(cursor: nat, n: nat, ghost lo0: nat)
      requires lo0 <= cursor && forall q: nat :: q in frames <==> lo0 <= q < cursor
      modifies this`frames
      ensures frames == ResetUpTo(old(frames), cursor, cursor + n)
    {
      for q := cursor to cursor + n
        invariant frames == ResetUpTo(old(frames), cursor, q)
      {
        ResetNext(frames, old(frames), cursor, q);
        frames := frames[q := Frame(0, false, false, false)];
      }
    }

    /** `AllocationRegionLevel::allocate` on level `l`. */
    method LevelAllocate(l: nat, tryZero: bool, onlyZero: bool) returns (f: Option<nat>)
      requires ListsOk(frames, levels, None) && l < NR_LEVELS
      modifies this`levels
      ensures f.None? ==> unchanged(this)
      ensures f.None? ==> forall p :: !FitsAt(frames, l, tryZero, onlyZero, p)
      ensures f.Some? ==>
        && ListsOk(frames, levels, f) && IsFree(frames, f.value) && frames[f.value].level == l
        && Wanted(tryZero, onlyZero, frames[f.value].zeroed)
        && (frames[f.value].zeroed && !onlyZero ==> forall p :: !FitsAt(frames, l, false, false, p))
        && FreeFrames(levels) + Size(l) == FreeFrames(old(levels))
    {
      if onlyZero {
        f := PopBack(l, true);
      } else {
        f := PopBack(l, false);
        if f.None? && tryZero {
          forall p ensures !FitsAt(frames, l, false, false, p) { assert !Belongs(frames, None, l, false, p); }
          f := PopBack(l, true);
        }
      }
      if f.None? {
        forall p ensures !FitsAt(frames, l, tryZero, onlyZero, p) {
          assert !Belongs(frames, None, l, true, p) || !Wanted(tryZero, onlyZero, true);
          assert !Belongs(frames, None, l, false, p) || !Wanted(tryZero, onlyZero, false);
        }
      }
    }

    method PopBack(l: nat, z: bool) returns (f: Option<nat>)
      requires ListsOk(frames, levels, None) && l < NR_LEVELS
      modifies this`levels
      ensures f.None? ==> unchanged(this) && forall p :: !Belongs(frames, None, l, z, p)
      ensures f.Some? ==>
        && ListsOk(frames, levels, f) && Belongs(frames, None, l, z, f.value)
        && |old(levels)[l].List(z)| > 0 && f.value == old(levels)[l].List(z)[|old(levels)[l].List(z)| - 1]
        && FreeFrames(levels) + Size(l) == FreeFrames(old(levels))
    {
      var list := levels[l].List(z);
      if |list| == 0 {
        forall p: nat ensures !Belongs(frames, None, l, z, p) { assert ListedRight(frames, levels, None, l, z, p); }
        return None;
      }
      PopOk(frames, levels, l, z);
      levels := levels[l := levels[l].Pop(z)];
      return Some(list[|list| - 1]);
    }

    /** `admit_one`. */
    method AdmitOne(c: nat, l: nat, z: bool, ghost out: Option<nat>)
      requires ListsOk(frames, levels, out) && l < NR_LEVELS && c in frames && (!Head(frames, c) || out == Some(c))
      modifies this`frames, this`levels
      ensures frames == old(frames)[c := Frame(l, z, false, true)]
      ensures ListsOk(frames, levels, if out == Some(c) then None else out)
      ensures FreeFrames(levels) == FreeFrames(old(levels)) + Size(l)
    {
      AdmitOk(frames, levels, out, c, l, z);
      frames := frames[c := Frame(l, z, false, true)];
      levels := levels[l := levels[l].Push(c, z)];
    }

    /** The loop of `split` over the children after the first. */
    method AdmitChildren(p: nat, level: nat, z: bool)
      requires ListsOk(frames, levels, Some(p)) && p in frames && frames[p].level == level && frames[p].zeroed == z
      requires 1 <= level <= 2 && forall q :: p < q < p + Size(level) ==> q in frames && !Head(frames, q)
      modifies this`frames, this`levels
      ensures ListsOk(frames, levels, Some(p))
      ensures SplitUpTo(frames, old(frames), p, false, ChildAt(p, level, 512))
      ensures FreeFrames(levels) == FreeFrames(old(levels)) + Size(level) - Size(level - 1)
    {
      ghost var fs0 := frames;
      for i := 1 to 512
        invariant SplitUpTo(frames, fs0, p, false, ChildAt(p, level, i))
        invariant ListsOk(frames, levels, Some(p))
        invariant FreeFrames(levels) == FreeFrames(old(levels)) + (if level == 1 then i - 1 else 512 * (i - 1))
      {
        var child := ChildAt(p, level, i);
        NextChild(frames, fs0, p, false, i);
        AdmitOne(child, level - 1, z, Some(p));
      }
    }

    /** `split`: a free block that is off the lists becomes 512 free blocks. */
    method Split(p: nat)
      requires Inv(Some(p)) && IsFree(frames, p) && frames[p].level > 0
      modifies this
      ensures Inv(None) && frames == SplitFrames(old(frames), p, false)
      ensures FreeFrames(levels) == FreeFrames(old(levels)) + Size(old(frames)[p].level)
    {
      SplitKeeps(frames, owner, lo, hi, p, false);
      ghost var owner' := SplitOwner(frames, owner, p);
      AdmitAll(p);
      owner := owner';
    }

    method AdmitAll(p: nat)
      requires ListsOk(frames, levels, Some(p)) && p in frames && 1 <= frames[p].level <= 2
      requires forall q :: p < q < p + Size(frames[p].level) ==> q in frames && !Head(frames, q)
      modifies this`frames, this`levels
      ensures ListsOk(frames, levels, None) && frames == SplitFrames(old(frames), p, false)
      ensures FreeFrames(levels) == FreeFrames(old(levels)) + Size(old(frames)[p].level)
    {
      ghost var fs0 := frames;
      var level, z := frames[p].level, frames[p].zeroed;
      AdmitChildren(p, level, z);
      SplitUpToAll(frames, fs0, p, false);
      AdmitOne(p, level - 1, z, Some(p));
    }

    /** `do_allocate`: take a block of the level, or split one of the level above.  It
        fails exactly if no block of the level or above fits the policy; the retry
        after a split never fails. */
    method DoAllocate(tryZero: bool, onlyZero: bool, level: nat) returns (f: Option<nat>)
      requires Inv(None) && level <= NR_LEVELS
      modifies this
      ensures f.None? ==> Inv(None) && unchanged(this)
      ensures f.None? ==> forall p :: !Fits(frames, level, tryZero, onlyZero, p)
      ensures f.Some? ==> Inv(f) && Obtained(frames, old(frames), tryZero, onlyZero, level, f.value)
      ensures f.Some? ==> FreeFrames(levels) + Size(level) == FreeFrames(old(levels))
      decreases NR_LEVELS - level
    {
      if level >= NR_LEVELS {
        forall p: nat ensures !Fits(frames, level, tryZero, onlyZero, p) { assert BlockOk(frames, p); }
        return None;
      }
      f := LevelAllocate(level, tryZero, onlyZero);
      if f.Some? {
        assert Fits(frames, level, tryZero, onlyZero, f.value);
        return;
      }
      var bigger := DoAllocate(tryZero, onlyZero, level + 1);
      if bigger.None? {
        forall p ensures !Fits(frames, level, tryZero, onlyZero, p) {
          assert !Fits(frames, level + 1, tryZero, onlyZero, p) && !FitsAt(frames, level, tryZero, onlyZero, p);
        }
        return None;
      }
      var p := bigger.value;
      assert BlockOk(frames, p);
      SplitObtains(frames, old(frames), owner, lo, hi, tryZero, onlyZero, level, p);
      Split(p);
      f := LevelAllocate(level, tryZero, onlyZero);
      assert FitsAt(frames, level, tryZero, onlyZero, p);
      assert f.Some?;
    }

    /** `allocate` for a level: the block obtained is marked allocated. */
    method Allocate(tryZero: bool, onlyZero: bool, level: nat) returns (f: Option<nat>)
      requires Inv(None) && level < NR_LEVELS
      modifies this
      ensures Inv(None)
      ensures f.None? ==> unchanged(this)
      ensures f.None? <==> forall p :: !Fits(old(frames), level, tryZero, onlyZero, p)
      ensures f.Some? ==>
        Granted(frames, old(frames), level, f.value) && Wanted(tryZero, onlyZero, frames[f.value].zeroed)
      ensures f.Some? ==> FreeFrames(levels) + Size(level) == FreeFrames(old(levels))
    {
      f := DoAllocate(tryZero, onlyZero, level);
      if f.Some? {
        var p := f.value;
        assert !frames[p].inUse;
        UseOk(frames, levels, p);
        FlagsKeep(frames, owner, lo, hi, p, frames[p].(inUse := true));
        ObtainedGranted(frames, old(frames), tryZero, onlyZero, level, p);
        frames := frames[p := frames[p].(inUse := true)];
      }
    }

    /** `free` of an outstanding allocation. */
    method Free(p: nat)
      requires Inv(None) && InUse(frames, p)
      modifies this
      ensures Inv(None) && frames == old(frames)[p := old(frames)[p].(inUse := false)]
      ensures FreeFrames(levels) == FreeFrames(old(levels)) + Size(frames[p].level)
    {
      assert BlockOk(frames, p);
      var level, z := frames[p].level, frames[p].zeroed;
      AdmitOk(frames, levels, None, p, level, z);
      FlagsKeep(frames, owner, lo, hi, p, frames[p].(inUse := false));
      frames := frames[p := frames[p].(inUse := false)];
      levels := levels[level := levels[level].Push(p, z)];
    }

    /** `zero` and `set_not_zero` on an outstanding allocation. */
    method SetZeroed(p: nat, z: bool)
      requires Inv(None) && InUse(frames, p)
      modifies this`frames
      ensures Inv(None) && frames == old(frames)[p := old(frames)[p].(zeroed := z)]
    {
      InUseUnlisted(frames, levels, p, frames[p].(zeroed := z));
      FlagsKeep(frames, owner, lo, hi, p, frames[p].(zeroed := z));
      frames := frames[p := frames[p].(zeroed := z)];
    }

    /** `split_and_keep`: an outstanding allocation becomes 512 smaller ones. */
    method SplitAndKeep(p: nat) returns (size: nat)
      requires Inv(None) && InUse(frames, p)
      modifies this
      ensures Inv(None) && levels == old(levels) && size == PAGE_SIZE * Size(old(frames)[p].level)
      ensures frames == if old(frames)[p].level == 0 then old(frames) else SplitFrames(old(frames), p, true)
    {
      var level, z := frames[p].level, frames[p].zeroed;
      if level == 0 {
        return PAGE_SIZE;
      }
      SplitKeeps(frames, owner, lo, hi, p, true);
      SplitInUseLists(frames, levels, p);
      ghost var owner', fs0 := SplitOwner(frames, owner, p), frames;
      for i := 1 to 512
        invariant SplitUpTo(frames, fs0, p, true, ChildAt(p, level, i)) && levels == old(levels) && owner == old(owner)
      {
        var child := ChildAt(p, level, i);
        NextChild(frames, fs0, p, true, i);
        frames := frames[child := Frame(level - 1, z, true, true)];
      }
      SplitUpToAll(frames, fs0, p, true);
      frames := frames[p := Frame(level - 1, z, true, true)];
      owner := owner';
      size := PAGE_SIZE * Size(level);
    }
  }

  /** Block `f` of the level is newly outstanding; the other allocations are as before. */
  ghost predicate Granted(fs': Frames, fs: Frames, level: nat, f: nat) {
    && InUse(fs', f) && fs'[f].level == level && !InUse(fs, f)
    && (forall p: nat {:trigger SameUse(fs', fs, p)} :: p != f ==> SameUse(fs', fs, p))
  }

  lemma ObtainedGranted(fs1: Frames, fs: Frames, tryZero: bool, onlyZero: bool, level: nat, f: nat)
    requires Obtained(fs1, fs, tryZero, onlyZero, level, f)
    ensures Granted(fs1[f := fs1[f].(inUse := true)], fs, level, f)
  {
    assert SameUse(fs1, fs, f);
    var fs' := fs1[f := fs1[f].(inUse := true)];
    forall p: nat | p != f ensures SameUse(fs', fs, p) { assert SameUse(fs1, fs, p); }
  }

  /** What is granted overlaps nothing that was outstanding. */
  lemma GrantedDisjoint(fs': Frames, fs: Frames, owner': map<nat, nat>, lo: nat, hi: nat, level: nat, f: nat, p: nat,
                        q: nat)
    requires Tiled(fs', owner', lo, hi) && Granted(fs', fs, level, f) && InUse(fs, p) && InBlock(fs, p, q)
    ensures !InBlock(fs', f, q)
  {
    assert SameUse(fs', fs, p);
    assert Owns(fs', owner', p, q) && Owns(fs', owner', f, q);
  }

  /** Flags of a head do not matter for the tiling. */
  lemma FlagsKeep(fs: Frames, owner: map<nat, nat>, lo: nat, hi: nat, p: nat, fr: Frame)
    requires Tiled(fs, owner, lo, hi) && SelfAligned(fs) && p in fs && fr.level == fs[p].level &&
      fr.admitted == fs[p].admitted
    ensures Tiled(fs[p := fr], owner, lo, hi) && SelfAligned(fs[p := fr])
  {
    var fs' := fs[p := fr];
    forall q: nat ensures Owned(fs', owner, q) { assert Owned(fs, owner, q); }
    forall h: nat, q: nat ensures Owns(fs', owner, h, q) { assert Owns(fs, owner, h, q); }
    forall h: nat ensures BlockOk(fs', h) { assert BlockOk(fs, h); }
  }

  lemma UseOk(fs: Frames, levels: seq<Level>, p: nat)
    requires ListsOk(fs, levels, Some(p)) && p in fs
    ensures ListsOk(fs[p := fs[p].(inUse := true)], levels, None)
  {
    var fs' := fs[p := fs[p].(inUse := true)];
    forall l: nat, z, x: nat
      ensures ListedRight(fs', levels, None, l, z, x)
    {
      assert ListedRight(fs, levels, Some(p), l, z, x);
    }
  }

  lemma InUseUnlisted(fs: Frames, levels: seq<Level>, p: nat, fr: Frame)
    requires ListsOk(fs, levels, None) && InUse(fs, p) && fr.inUse
    ensures ListsOk(fs[p := fr], levels, None)
  {
    var fs' := fs[p := fr];
    forall l: nat, z, x: nat
      ensures ListedRight(fs', levels, None, l, z, x)
    {
      assert ListedRight(fs, levels, None, l, z, x);
    }
  }

  lemma SplitInUseLists(fs: Frames, levels: seq<Level>, p: nat)
    requires ListsOk(fs, levels, None) && InUse(fs, p) && 1 <= fs[p].level <= 2
    requires forall q :: p < q < p + Size(fs[p].level) ==> q in fs && !Head(fs, q)
    ensures ListsOk(SplitFrames(fs, p, true), levels, None)
  {
    var fs' := SplitFrames(fs, p, true);
    forall l: nat, z, x: nat
      ensures ListedRight(fs', levels, None, l, z, x)
    {
      assert ListedRight(fs, levels, None, l, z, x);
    }
  }

  /** A free block of the level that the policy wants was obtained, and the outstanding
      allocations are as before. */
  ghost predicate Obtained(fs': Frames, fs: Frames, tryZero: bool, onlyZero: bool, level: nat, f: nat) {
    && IsFree(fs', f) && fs'[f].level == level && Wanted(tryZero, onlyZero, fs'[f].zeroed)
    && SameInUse(fs', fs)
    && (exists p :: Fits(fs, level, tryZero, onlyZero, p))
  }

  lemma SplitObtains(fs1: Frames, fs: Frames, owner: map<nat, nat>, lo: nat, hi: nat, tryZero: bool, onlyZero: bool,
                     level: nat, p: nat)
    requires Tiled(fs1, owner, lo, hi) && level < 2 && Obtained(fs1, fs, tryZero, onlyZero, level + 1, p)
    ensures var fs' := SplitFrames(fs1, p, false);
      && IsFree(fs', p) && fs'[p].level == level && Wanted(tryZero, onlyZero, fs'[p].zeroed)
      && SameInUse(fs', fs) && exists x :: Fits(fs, level, tryZero, onlyZero, x)
  {
    var x :| Fits(fs, level + 1, tryZero, onlyZero, x);
    assert Fits(fs, level, tryZero, onlyZero, x);
    var fs' := SplitFrames(fs1, p, false);
    forall q: nat ensures SameUse(fs', fs, q) {
      SplitSame(fs1, owner, lo, hi, p, q);
      assert SameUse(fs1, fs, q);
    }
  }

  lemma SplitSame(fs: Frames, owner: map<nat, nat>, lo: nat, hi: nat, p: nat, q: nat)
    requires Tiled(fs, owner, lo, hi) && IsFree(fs, p) && 1 <= fs[p].level <= 2
    ensures SameUse(SplitFrames(fs, p, false), fs, q)
  {
    if q in fs && IsChild(fs, p, q) && q != p { InsideNotHead(fs, owner, lo, hi, p, q); }
  }

  lemma SplitKeeps(fs: Frames, owner: map<nat, nat>, lo: nat, hi: nat, p: nat, inUse: bool)
    requires Tiled(fs, owner, lo, hi) && SelfAligned(fs) && Head(fs, p) && fs[p].level > 0
    ensures 1 <= fs[p].level <= 2
    ensures Tiled(SplitFrames(fs, p, inUse), SplitOwner(fs, owner, p), lo, hi) && SelfAligned(SplitFrames(fs, p, inUse))
    ensures forall q :: p < q < p + Size(fs[p].level) ==> q in fs && !Head(fs, q)
  {
    assert BlockOk(fs, p);
    SplitTiles(fs, owner, lo, hi, p, inUse);
    SplitAligned(fs, p, inUse);
    forall q | p < q < p + Size(fs[p].level) ensures q in fs && !Head(fs, q) {
      InsideNotHead(fs, owner, lo, hi, p, q);
    }
  }

  // Carving a region.

  /** The level that `new` selects: the largest that is aligned here and fits. */
  function GreedyLevel(cursor: nat, remaining: nat): (l: nat)
    requires remaining > 0
    ensures l < NR_LEVELS && Aligned(cursor, l) && Size(l) <= remaining
    ensures forall k :: l < k < NR_LEVELS ==> !(Aligned(cursor, k) && Size(k) <= remaining)
  {
    if cursor % 262144 == 0 && remaining >= 262144 then 2 else if cursor % 512 == 0 && remaining >= 512 then 1 else 0
  }

  /** A carved block is free, not known to be zeroed, and the largest that fits there. */
  predicate Carved(fs: Frames, hi: nat, h: nat) {
    Head(fs, h) ==> h < hi && fs[h] == Frame(GreedyLevel(h, hi - h), false, false, true)
  }

  predicate Between(lo: nat, q: nat, hi: nat) { lo <= q < hi }

  function ResetUpTo(fs: Frames, lo: nat, hi: nat): Frames {
    fs + map q: nat | lo <= q < hi && Between(lo, q, hi) :: Frame(0, false, false, false)
  }

  lemma ResetNext(fs: Frames, fs0: Frames, lo: nat, q: nat)
    requires lo <= q && fs == ResetUpTo(fs0, lo, q)
    ensures fs[q := Frame(0, false, false, false)] == ResetUpTo(fs0, lo, q + 1)
  {
    forall x: nat ensures Between(lo, x, q + 1) <==> Between(lo, x, q) || x == q {}
  }

  function CarveOwner(owner: map<nat, nat>, cursor: nat, n: nat): map<nat, nat> {
    var end := cursor + n;
    owner + map q: nat | cursor <= q < end && Between(cursor, q, end) :: cursor
  }

  lemma EmptyOk(levels: seq<Level>, lo: nat)
    requires levels == [Level([], [], 0), Level([], [], 0), Level([], [], 0)]
    ensures Tiled(map[], map[], lo, lo) && SelfAligned(map[]) && ListsOk(map[], levels, None)
  {
  }

  /** One turn of the carving loop. */
  lemma CarveKeeps(fs0: Frames, fs1: Frames, owner: map<nat, nat>, levels: seq<Level>, lo: nat, hi: nat, cursor: nat,
                   level: nat)
    requires lo <= cursor < hi && Tiled(fs0, owner, lo, cursor) && SelfAligned(fs0) && ListsOk(fs0, levels, None)
    requires level == GreedyLevel(cursor, hi - cursor) && fs1 == ResetUpTo(fs0, cursor, cursor + Size(level))
    requires forall h: nat {:trigger Carved(fs0, hi, h)} :: Carved(fs0, hi, h)
    ensures cursor in fs1 && !Head(fs1, cursor) && ListsOk(fs1, levels, None)
    ensures var fs' := fs1[cursor := Frame(level, false, false, true)];
      && Tiled(fs', CarveOwner(owner, cursor, Size(level)), lo, cursor + Size(level)) && SelfAligned(fs')
      && forall h: nat {:trigger Carved(fs', hi, h)} :: Carved(fs', hi, h)
  {
    var fs', owner' := fs1[cursor := Frame(level, false, false, true)], CarveOwner(owner, cursor, Size(level));
    forall l: nat, z, x: nat
      ensures ListedRight(fs1, levels, None, l, z, x)
    {
      assert ListedRight(fs0, levels, None, l, z, x);
    }
    forall q: nat ensures Owned(fs', owner', q) { assert Owned(fs0, owner, q); }
    forall h: nat, q: nat ensures Owns(fs', owner', h, q) { assert Owns(fs0, owner, h, q); }
    forall h: nat ensures BlockOk(fs', h) && Carved(fs', hi, h) { assert BlockOk(fs0, h) && Carved(fs0, hi, h); }
  }

  /** `AllocationRegion::new`, from addresses in bytes; `frameBytes` is the size of a
      frame's metadata, an array of which takes the first pages of the region.  Every
      frame that is carved has its place in that array. */
  method NewRegion(start: nat, length: nat, frameBytes: nat) returns (r: AllocationRegion?)
    requires frameBytes > 0 && length >= AlignUp(start) - start
    ensures r == null <==>
      UsablePages(start, length) <= 1 || ArrayPages(start, length, frameBytes) >= UsablePages(start, length)
    ensures r != null ==>
      && fresh(r) && r.Inv(None)
      && r.lo == AlignUp(start) / PAGE_SIZE + ArrayPages(start, length, frameBytes)
      && r.hi == AlignUp(start) / PAGE_SIZE + UsablePages(start, length)
      && FreeFrames(r.levels) == r.hi - r.lo && PAGE_SIZE * r.hi <= start + length
      && (forall h: nat {:trigger Carved(r.frames, r.hi, h)} :: Carved(r.frames, r.hi, h))
      && (forall q: nat {:trigger EntryFits(q, r.lo, frameBytes, ArrayPages(start, length, frameBytes))} ::
            q in r.frames ==> EntryFits(q, r.lo, frameBytes, ArrayPages(start, length, frameBytes)))
  {
    var aligned := AlignUp(start);
    var nrPages := (length - (aligned - start)) / PAGE_SIZE;
    if nrPages <= 1 {
      return null;
    }
    var arrayPages := (frameBytes * nrPages - 1) / PAGE_SIZE + 1;
    if arrayPages >= nrPages {
      return null;
    }
    r := new AllocationRegion(aligned / PAGE_SIZE + arrayPages, aligned / PAGE_SIZE + nrPages);
    assert nrPages == UsablePages(start, length) && arrayPages == ArrayPages(start, length, frameBytes);
    EndInside(start, length);
    forall q: nat | q in r.frames ensures EntryFits(q, r.lo, frameBytes, arrayPages) {
      IndexInBounds(q, r.lo, nrPages, arrayPages, frameBytes);
    }
  }

  /** The first page boundary at or after `a`. */
  function AlignUp(a: nat): (r: nat)
    ensures a <= r < a + PAGE_SIZE && r % PAGE_SIZE == 0
  {
    (a + PAGE_SIZE - 1) / PAGE_SIZE * PAGE_SIZE
  }

  /** How many whole pages lie between there and the end. */
  function UsablePages(start: nat, length: nat): (n: int)
    ensures PAGE_SIZE * n <= start + length - AlignUp(start) < PAGE_SIZE * (n + 1)
  {
    (length - (AlignUp(start) - start)) / PAGE_SIZE
  }

  /** How many pages the metadata of all of them takes. */
  function ArrayPages(start: nat, length: nat, frameBytes: nat): (n: int)
    ensures var bytes := frameBytes * UsablePages(start, length); PAGE_SIZE * (n - 1) < bytes <= PAGE_SIZE * n
  {
    (frameBytes * UsablePages(start, length) - 1) / PAGE_SIZE + 1
  }

  /** The usable pages end where the memory does or before. */
  lemma EndInside(start: nat, length: nat)
    requires length >= AlignUp(start) - start
    ensures PAGE_SIZE * (AlignUp(start) / PAGE_SIZE + UsablePages(start, length)) <= start + length
  {
    var aligned := AlignUp(start);
    assert aligned % PAGE_SIZE == 0;
  }

  /** The metadata of frame `q` lies inside the frame array. */
  predicate EntryFits(q: int, lo: int, frameBytes: nat, arrayPages: int) {
    (q - lo + 1) * frameBytes <= PAGE_SIZE * arrayPages
  }

  lemma IndexInBounds(q: nat, lo: nat, nrPages: nat, arrayPages: nat, frameBytes: nat)
    requires lo <= q < lo + nrPages && frameBytes > 0 && arrayPages == (frameBytes * nrPages - 1) / PAGE_SIZE + 1
    ensures EntryFits(q, lo, frameBytes, arrayPages)
  {
    var i := q - lo + 1;
    assert i * frameBytes <= nrPages * frameBytes;
    assert frameBytes * nrPages <= PAGE_SIZE * arrayPages;
  }

  // All regions.

  /** The smallest level whose blocks are big and aligned enough for a layout. */
  function FindLevel(size: nat, align: nat): (l: Option<nat>)
    ensures l.Some? ==> l.value < NR_LEVELS && size <= PAGE_SIZE * Size(l.value) && align <= PAGE_SIZE * Size(l.value)
    ensures forall k :: 0 <= k < NR_LEVELS && (l.Some? ==> k < l.value) ==>
      size > PAGE_SIZE * Size(k) || align > PAGE_SIZE * Size(k)
  {
    if size <= PAGE_SIZE && align <= PAGE_SIZE then Some(0)
    else if size <= PAGE_SIZE * 512 && align <= PAGE_SIZE * 512 then Some(1)
    else if size <= PAGE_SIZE * 262144 && align <= PAGE_SIZE * 262144 then Some(2)
    else None
  }

  ghost predicate RegionsOk(rs: seq<AllocationRegion>)
    reads rs
  {
    && (forall i, j :: 0 <= i < j < |rs| ==> rs[i] != rs[j])
    && (forall i :: 0 <= i < |rs| ==> rs[i].Inv(None))
    && (forall i, j :: 0 <= i < j < |rs| ==> rs[i].hi <= rs[j].lo || rs[j].hi <= rs[i].lo)
  }

  /** Frame `q` is in an outstanding block of some region. */
  ghost predicate Outstanding(rs: seq<AllocationRegion>, q: nat)
    reads rs
  {
    exists i, p :: 0 <= i < |rs| && InUse(rs[i].frames, p) && InBlock(rs[i].frames, p, q)
  }

  /** No region has a block that fits. */
  ghost predicate NoneFits(rs: seq<AllocationRegion>, level: nat, tryZero: bool, onlyZero: bool)
    reads rs
  {
    forall i, p :: 0 <= i < |rs| ==> !Fits(rs[i].frames, level, tryZero, onlyZero, p)
  }

  /** One pass of `__do_alloc` over the regions. */
  method AllocPass(rs: seq<AllocationRegion>, tryZero: bool, onlyZero: bool, level: nat)
    returns (region: nat, f: Option<nat>)
    requires RegionsOk(rs) && level < NR_LEVELS
    modifies rs
    ensures RegionsOk(rs)
    ensures f.None? ==> NoneFits(rs, level, tryZero, onlyZero) && unchanged(rs)
    ensures f.Some? ==>
      && region < |rs| && Granted(rs[region].frames, old(rs[region].frames), level, f.value)
      && SomeFits(old(rs[region].frames), level, tryZero, onlyZero)
      && Wanted(tryZero, onlyZero, rs[region].frames[f.value].zeroed)
      && (forall j, p :: 0 <= j < region ==> !Fits(rs[j].frames, level, tryZero, onlyZero, p))
      && (forall i :: 0 <= i < |rs| && i != region ==> unchanged(rs[i]))
      && FreeFrames(rs[region].levels) + Size(level) == FreeFrames(old(rs[region].levels))
  {
    for i := 0 to |rs|
      invariant unchanged(rs)
      invariant forall j, p :: 0 <= j < i ==> !Fits(rs[j].frames, level, tryZero, onlyZero, p)
    {
      ghost var fs := rs[i].frames;
      f := rs[i].Allocate(tryZero, onlyZero, level);
      if f.Some? {
        assert SomeFits(fs, level, tryZero, onlyZero);
        assert forall j :: 0 <= j < |rs| ==> rs[j].Inv(None);
        return i, f;
      }
    }
    return 0, None;
  }

  ghost predicate SomeFits(fs: Frames, level: nat, tryZero: bool, onlyZero: bool) {
    exists p :: Fits(fs, level, tryZero, onlyZero, p)
  }

  /** The region a block is taken from: the first that has one of the wanted kind, or, if
      none has, the first that has any. */
  ghost predicate FirstChoice(rs: seq<AllocationRegion>, level: nat, needsZero: bool, region: nat)
    requires region < |rs|
    reads rs
  {
    if NoneFits(rs, level, false, needsZero) then
      forall j, p :: 0 <= j < region ==> !Fits(rs[j].frames, level, true, false, p)
    else
      && SomeFits(rs[region].frames, level, false, needsZero)
      && forall j, p :: 0 <= j < region ==> !Fits(rs[j].frames, level, false, needsZero, p)
  }

  /** First blocks of the wanted kind, then any. */
  method AllocEither(rs: seq<AllocationRegion>, needsZero: bool, level: nat) returns (region: nat, f: Option<nat>)
    requires RegionsOk(rs) && level < NR_LEVELS
    modifies rs
    ensures RegionsOk(rs)
    ensures f.None? ==> NoneFits(rs, level, true, false) && unchanged(rs)
    ensures f.Some? ==>
      && region < |rs| && Granted(rs[region].frames, old(rs[region].frames), level, f.value)
      && SomeFits(old(rs[region].frames), level, true, false) && old(FirstChoice(rs, level, needsZero, region))
      && (!needsZero && rs[region].frames[f.value].zeroed ==> old(NoneFits(rs, level, false, false)))
      && (forall i :: 0 <= i < |rs| && i != region ==> unchanged(rs[i]))
      && FreeFrames(rs[region].levels) + Size(level) == FreeFrames(old(rs[region].levels))
  {
    region, f := AllocPass(rs, false, needsZero, level);
    if f.None? {
      region, f := AllocPass(rs, true, false, level);
    } else {
      AnyFits(old(rs[region].frames), level, needsZero);
    }
  }

  /** `PhysicalFrameAllocator::alloc`.  It fails exactly if no region has a free block of
      the level or above, and a request for a zeroed block yields one that is marked
      zeroed. */
  method Alloc(rs: seq<AllocationRegion>, needsZero: bool, level: nat) returns (region: nat, f: Option<nat>)
    requires RegionsOk(rs) && level < NR_LEVELS
    modifies rs
    ensures RegionsOk(rs)
    ensures f.None? ==> NoneFits(rs, level, true, false) && unchanged(rs)
    ensures f.Some? ==>
      && region < |rs| && Granted(rs[region].frames, old(rs[region].frames), level, f.value)
      && SomeFits(old(rs[region].frames), level, true, false) && old(FirstChoice(rs, level, needsZero, region))
      && (needsZero ==> rs[region].frames[f.value].zeroed)
      && (!needsZero && rs[region].frames[f.value].zeroed ==> old(NoneFits(rs, level, false, false)))
      && (forall i :: 0 <= i < |rs| && i != region ==> unchanged(rs[i]))
      && FreeFrames(rs[region].levels) + Size(level) == FreeFrames(old(rs[region].levels))
  {
    region, f := AllocEither(rs, needsZero, level);
    if f.Some? && needsZero && !rs[region].frames[f.value].zeroed {
      ghost var fs1 := rs[region].frames;
      ZeroBlock(rs, region, f.value);
      ZeroedGranted(fs1, old(rs[region].frames), level, f.value);
    }
  }

  /** `Frame::zero` on a block that was just granted. */
  method ZeroBlock(rs: seq<AllocationRegion>, region: nat, f: nat)
    requires RegionsOk(rs) && region < |rs| && InUse(rs[region].frames, f)
    modifies rs[region]
    ensures RegionsOk(rs) && rs[region].levels == old(rs[region].levels)
    ensures rs[region].frames == old(rs[region].frames)[f := old(rs[region].frames)[f].(zeroed := true)]
  {
    rs[region].SetZeroed(f, true);
    assert forall j :: 0 <= j < |rs| ==> rs[j].Inv(None);
  }

  /** A request for a layout: none exactly if no level is large and aligned enough, or no
      region has a free block of the least such level or above; else a block that is, and
      no frame of which was in an outstanding block of any region. */
  method AllocLayout(rs: seq<AllocationRegion>, needsZero: bool, size: nat, align: nat)
    returns (region: nat, f: Option<nat>)
    requires RegionsOk(rs)
    modifies rs
    ensures RegionsOk(rs)
    ensures f.None? <==> FindLevel(size, align).None? || old(NoneFits(rs, FindLevel(size, align).value, true, false))
    ensures f.None? ==> unchanged(rs)
    ensures f.Some? ==> region < |rs| && InUse(rs[region].frames, f.value)
    ensures f.Some? ==> var level := rs[region].frames[f.value].level;
      && size <= PAGE_SIZE * Size(level) && align <= PAGE_SIZE * Size(level) && f.value % Size(level) == 0
    ensures f.Some? ==> forall q: nat :: InBlock(rs[region].frames, f.value, q) ==> !old(Outstanding(rs, q))
    ensures f.Some? && needsZero ==> rs[region].frames[f.value].zeroed
    ensures f.Some? && !needsZero && rs[region].frames[f.value].zeroed ==>
      old(NoneFits(rs, FindLevel(size, align).value, false, false))
    ensures f.Some? ==>
      && rs[region].frames[f.value].level == FindLevel(size, align).value
      && (forall i :: 0 <= i < |rs| && i != region ==> unchanged(rs[i]))
      && FreeFrames(rs[region].levels) + Size(FindLevel(size, align).value) == FreeFrames(old(rs[region].levels))
  {
    var level := FindLevel(size, align);
    if level.None? {
      return 0, None;
    }
    region, f := Alloc(rs, needsZero, level.value);
    if f.Some? {
      assert BlockOk(rs[region].frames, f.value);
      forall q: nat | InBlock(rs[region].frames, f.value, q) ensures !old(Outstanding(rs, q)) {
        forall i, p | 0 <= i < |rs| && InUse(old(rs[i].frames), p) ensures !InBlock(old(rs[i].frames), p, q) {
          GrantApart(rs[region].frames, rs[region].owner, rs[region].lo, rs[region].hi, old(rs[region].frames),
                     level.value, f.value, old(rs[i].frames), old(rs[i].owner), rs[i].lo, rs[i].hi, i == region, p, q);
        }
      }
    }
  }

  /** A granted block meets no block that was outstanding, be it in its own region or in
      one apart from it. */
  lemma GrantApart(fs': Frames, owner': map<nat, nat>, lo: nat, hi: nat, fs: Frames, level: nat, f: nat,
                   other: Frames, owner: map<nat, nat>, lo1: nat, hi1: nat, same: bool, p: nat, q: nat)
    requires Tiled(fs', owner', lo, hi) && Granted(fs', fs, level, f) && InBlock(fs', f, q)
    requires Tiled(other, owner, lo1, hi1) && InUse(other, p)
    requires if same then other == fs else hi <= lo1 || hi1 <= lo
    ensures !InBlock(other, p, q)
  {
    assert Owns(fs', owner', f, q) && Owns(other, owner, p, q);
    if same && InBlock(other, p, q) {
      GrantedDisjoint(fs', fs, owner', lo, hi, level, f, p, q);
      assert false;
    }
  }

  /** `raw_free_frame` on frame `p` of a region: one that heads no block stays as it is; an
      outstanding block, as the source asserts it to be, is free again.  The region is
      looked up by the address, and as regions do not meet it is the right one. */
  method RawFree(rs: seq<AllocationRegion>, region: nat, p: nat)
    requires RegionsOk(rs) && region < |rs| && p in rs[region].frames
    requires Head(rs[region].frames, p) ==> InUse(rs[region].frames, p)
    modifies rs
    ensures RegionsOk(rs) && forall i :: 0 <= i < |rs| && i != region ==> unchanged(rs[i])
    ensures !Head(old(rs[region].frames), p) ==> unchanged(rs[region])
    ensures Head(old(rs[region].frames), p) ==>
      && rs[region].frames == old(rs[region].frames)[p := old(rs[region].frames)[p].(inUse := false)]
      && FreeFrames(rs[region].levels) == FreeFrames(old(rs[region].levels)) + Size(rs[region].frames[p].level)
  {
    if !Head(rs[region].frames, p) {
      return;
    }
    for i := 0 to |rs|
      invariant unchanged(rs) && i <= region
    {
      if rs[i].lo <= p < rs[i].hi {
        assert i == region;
        rs[i].Free(p);
        assert forall j :: 0 <= j < |rs| ==> rs[j].Inv(None);
        return;
      }
    }
    assert false;
  }

  lemma AnyFits(fs: Frames, level: nat, onlyZero: bool)
    requires SomeFits(fs, level, false, onlyZero)
    ensures SomeFits(fs, level, true, false)
  {
    var p :| Fits(fs, level, false, onlyZero, p);
    assert Fits(fs, level, true, false, p);
  }

  lemma ZeroedGranted(fs1: Frames, fs: Frames, level: nat, f: nat)
    requires Granted(fs1, fs, level, f)
    ensures Granted(fs1[f := fs1[f].(zeroed := true)], fs, level, f)
  {
    var fs' := fs1[f := fs1[f].(zeroed := true)];
    forall p: nat | p != f ensures SameUse(fs', fs, p) { assert SameUse(fs1, fs, p); }
  }
}
