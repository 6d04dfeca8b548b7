/** The byte-addressed disk over a page device (src/bin/mnemosyne/src/disk.rs). */
module Disk {
  import opened PageSize

  const DISK_SIZE: nat := 0x1000000
  const PAGE_COUNT: nat := 0x1000   // DISK_SIZE / PAGE_SIZE
  const SECTOR_SIZE: nat := 512
  const LBA_COUNT: nat := 32768   // DISK_SIZE / SECTOR_SIZE

  datatype SeekFrom = Start(position: nat) | End(back: int) | Current(delta: int)

  /** The device's pages. */
  type Pages = seq<seq<byte>>

  ghost predicate PagesOk(pages: Pages) {
    |pages| == PAGE_COUNT && forall p :: 0 <= p < |pages| ==> |pages[p]| == PAGE_SIZE
  }

  /** The disk as a flat array of bytes. */
  function Flat(pages: Pages, a: nat): byte
    requires PagesOk(pages) && a < DISK_SIZE
  {
    pages[a / PAGE_SIZE][a % PAGE_SIZE]
  }

  /** `n` bytes from `pos` are those of `buf`; all others are as before. */
  ghost predicate Written(pages': Pages, pages: Pages, pos: nat, buf: seq<byte>, n: nat) {
    && PagesOk(pages') && PagesOk(pages) && n <= |buf|
    && (forall a: nat :: a < DISK_SIZE ==>
        Flat(pages', a) == if pos <= a < pos + n then buf[a - pos] else Flat(pages, a))
  }

  /** Rewriting bytes [left, right) of one page with the next bytes of the buffer. */
  lemma WriteStep(pages: Pages, pages0: Pages, pos: nat, buf: seq<byte>, n: nat, left: nat, right: nat, page: seq<byte>)
    requires Written(pages, pages0, pos, buf, n) && pos + n < DISK_SIZE && left == (pos + n) % PAGE_SIZE
    requires left <= right <= PAGE_SIZE && n + (right - left) <= |buf| && |page| == PAGE_SIZE
    requires forall i :: 0 <= i < PAGE_SIZE ==>
      page[i] == if left <= i < right then buf[n + (i - left)] else pages[(pos + n) / PAGE_SIZE][i]
    ensures Written(pages[(pos + n) / PAGE_SIZE := page], pages0, pos, buf, n + (right - left))
  {
    var p := (pos + n) / PAGE_SIZE;
    var pages' := pages[p := page];
    forall a: nat | a < DISK_SIZE
      ensures Flat(pages', a) == if pos <= a < pos + (n + (right - left)) then buf[a - pos] else Flat(pages0, a)
    {
      assert Flat(pages, a) == if pos <= a < pos + n then buf[a - pos] else Flat(pages0, a);
      if a / PAGE_SIZE == p {
        assert page[a % PAGE_SIZE] == if left <= a % PAGE_SIZE < right then buf[n + (a % PAGE_SIZE - left)]
          else pages[p][a % PAGE_SIZE];
      }
    }
  }

  class Disk {
    var pages: Pages
    var pos: nat

    ghost predicate Valid()
      reads this
    {
      PagesOk(pages) && pos <= DISK_SIZE
    }

    /** `read_page` of the controller. */
    method ReadPage(lba: nat) returns (data: seq<byte>)
      requires Valid() && lba % 8 == 0 && lba < LBA_COUNT
      ensures data == pages[lba / 8] && |data| == PAGE_SIZE
    {
      data := pages[lba / 8];
    }

    /** `write_page` of the controller. */
    method WritePage(lba: nat, data: seq<byte>)
      requires Valid() && lba % 8 == 0 && lba < LBA_COUNT && |data| == PAGE_SIZE
      modifies this`pages
      ensures Valid() && pages == old(pages)[lba / 8 := data]
    {
      pages := pages[lba / 8 := data];
    }

    /** `read` into a buffer of length `n`: the bytes from the cursor on, short only at
        the end of the disk. */
    method Read(n: nat) returns (data: seq<byte>)
      requires Valid()
      modifies this`pos
      ensures Valid() && |data| == (if n <= DISK_SIZE - old(pos) then n else DISK_SIZE - old(pos))
      ensures pos == old(pos) + |data|
      ensures forall i :: 0 <= i < |data| ==> data[i] == Flat(pages, old(pos) + i)
    {
      var lba := pos / PAGE_SIZE * 8;
      data := [];
      while |data| != n
        invariant Valid() && |data| <= n && pos == old(pos) + |data|
        invariant |data| < n ==> lba == pos / PAGE_SIZE * 8
        invariant forall i :: 0 <= i < |data| ==> data[i] == Flat(pages, old(pos) + i)
        decreases n - |data|
      {
        if lba >= LBA_COUNT {
          break;
        }
        var left := pos % PAGE_SIZE;
        var right := if left + n - |data| > PAGE_SIZE then PAGE_SIZE else left + n - |data|;
        var page := ReadPage(lba);
        data := data + page[left..right];
        pos := pos + (right - left);
        lba := lba + PAGE_SIZE / SECTOR_SIZE;
      }
    }

    /** `seek`: absolute, from the end backwards, or relative; anything outside the disk is
        an error and leaves the cursor. */
    method Seek(to: SeekFrom) returns (ok: bool)
      requires Valid()
      modifies this`pos
      ensures Valid()
      ensures var target :=
          match to case Start(x) => x as int case End(x) => DISK_SIZE - x case Current(x) => old(pos) + x;
        && (ok <==> 0 <= target <= DISK_SIZE)
        && pos == if ok then target else old(pos)
    {
      var newPos := match to case Start(x) => x as int case End(x) => DISK_SIZE - x case Current(x) => pos + x;
      if newPos > DISK_SIZE || newPos < 0 {
        return false;
      }
      pos := newPos;
      return true;
    }

    /** The page that a partial write starts from: its present contents, fetched through
        the cursor, which is put back. */
    method FetchPage() returns (buffer: seq<byte>)
      requires Valid() && pos < DISK_SIZE
      modifies this`pos
      ensures Valid() && pos == old(pos) && buffer == pages[pos / PAGE_SIZE] && |buffer| == PAGE_SIZE
    {
      var tempPos := pos;
      var ok := Seek(Start(tempPos - tempPos % PAGE_SIZE));
      buffer := Read(PAGE_SIZE);
      ok := Seek(Start(tempPos));
      var base := tempPos - tempPos % PAGE_SIZE;
      forall i | 0 <= i < PAGE_SIZE ensures buffer[i] == pages[tempPos / PAGE_SIZE][i] {
        assert (base + i) / PAGE_SIZE == tempPos / PAGE_SIZE && (base + i) % PAGE_SIZE == i;
      }
    }

    /** `write`: exactly the bytes from the cursor on are replaced, although whole pages
        are written; short only at the end of the disk. */
    method Write(buf: seq<byte>) returns (count: nat)
      requires Valid()
      modifies this
      ensures Valid() && count == (if |buf| <= DISK_SIZE - old(pos) then |buf| else DISK_SIZE - old(pos))
      ensures pos == old(pos) + count
      ensures Written(pages, old(pages), old(pos), buf, count)
    {
      var lba := pos / PAGE_SIZE * 8;
      count := 0;
      var buffer: seq<byte> := seq(PAGE_SIZE, _ => 0);
      while count != |buf|
        invariant Valid() && count <= |buf| && pos == old(pos) + count && |buffer| == PAGE_SIZE
        invariant count < |buf| ==> lba == pos / PAGE_SIZE * 8
        invariant Written(pages, old(pages), old(pos), buf, count)
        decreases |buf| - count
      {
        if lba >= LBA_COUNT {
          break;
        }
        var left := pos % PAGE_SIZE;
        var right := if left + |buf| - count > PAGE_SIZE then PAGE_SIZE else left + |buf| - count;
        if right - left != PAGE_SIZE {
          buffer := FetchPage();
        }
        buffer := buffer[..left] + buf[count..count + (right - left)] + buffer[right..];
        WriteStep(pages, old(pages), old(pos), buf, count, left, right, buffer);
        count := count + (right - left);
        pos := pos + (right - left);
        WritePage(lba, buffer);
        lba := lba + PAGE_SIZE / SECTOR_SIZE;
      }
    }

    /** What was written is read back after seeking back. */
    method WriteSeekRead(buf: seq<byte>) returns (data: seq<byte>)
      requires Valid()
      modifies this
      ensures Valid() && data == if |buf| <= DISK_SIZE - old(pos) then buf else buf[..DISK_SIZE - old(pos)]
    {
      var start := pos;
      var count := Write(buf);
      var ok := Seek(Start(start));
      data := Read(count);
    }
  }
}
