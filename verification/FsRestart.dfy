/** What a file server started afresh over the disk finds there after a flush (fs/bc.c, fs/fs.c). */
module FsRestart {
  import opened Blocks
  import opened FsLayout
  import opened FsInvariant
  import opened FileSystem

  /** The file at address p, read straight from an image: its size, slots and bytes. */
  function SizeAt(img: Image, p: Ptr): nat { W(img, p.blk, p.base + SIZE) }

  function SlotAt(img: Image, p: Ptr, k: nat): nat {
    if k < NDIRECT then W(img, p.blk, p.base + DIRECT + k)
    else if W(img, p.blk, p.base + INDIRECT) == 0 then 0
    else W(img, W(img, p.blk, p.base + INDIRECT), k - NDIRECT)
  }

  function ByteAt(img: Image, p: Ptr, k: nat, o: nat): int {
    if k < MAXBLOCKS && o < BLKSIZE && 0 < SlotAt(img, p, k) < |img| then img[SlotAt(img, p, k)][o] as int else -1
  }

  ghost predicate HoldsAt(img: Image, p: Ptr, offset: nat, s: seq<byte>) {
    forall k: nat, o: nat {:trigger ByteAt(img, p, k, o)} ::
      o < BLKSIZE && offset <= BLKSIZE * k + o < offset + |s| ==>
        ByteAt(img, p, k, o) == s[BLKSIZE * k + o - offset] as int
  }

  /** A block bc_pgfault can read in: in range, and not free in the bitmap. */
  predicate InUse(img: Image, b: nat) { 0 < b < |img| && 2 < |img| && !BitAt(img[2], b) }

  /** Block k of the file at p is there, and every block on the way to it can be read in. */
  predicate Readable(img: Image, p: Ptr, k: nat) {
    && k < MAXBLOCKS && InUse(img, p.blk) && InUse(img, SlotAt(img, p, k))
    && (NDIRECT <= k ==> InUse(img, W(img, p.blk, p.base + INDIRECT)))
  }

  /** A cache holding nothing that is not on the disk, read in by faults that did not panic. */
  ghost predicate Clean(st: Store) {
    Coherent(st, st.disk) && Resident(st) && forall b: nat :: b < |st.page| && st.page[b].Mapped? ==> InUse(st.disk, b)
  }

  /** An empty cache over a disk that passes check_bitmap, as fs_init leaves it: super block and bitmap are read in. */
  function Restarted(disk: seq<Block>): (r: Store)
    requires 2 < |disk| <= BLKBITS && InUse(disk, 1) && InUse(disk, 2)
    ensures Clean(r) && r.disk == disk && forall b: nat :: 2 < b < |disk| ==> r.page[b] == Absent
  {
    Store(disk, seq(|disk|, b requires 0 <= b < |disk| => if b == 1 || b == 2 then Mapped(disk[b], false) else Absent))
  }

  /** bc_pgfault: reading a block in panics exactly when it is out of range or free. */
  method Fault(st: Store, b: nat) returns (ok: bool, next: Store)
    requires Clean(st) && b != 0
    ensures Clean(next) && next.disk == st.disk
    ensures ok <==> InUse(st.disk, b)
    ensures ok ==> next.page[b].Mapped? && next.page[b].data == st.disk[b]
  {
    next := st;
    if b >= |st.disk| {
      return false, next;
    }
    if st.page[b].Absent? {
      BitAtIs(st.disk[2], b);
      if Bit(Word(st.page[2].data, b / 32), b % 32) {
        return false, next;
      }
      next := st.(page := st.page[b := Mapped(st.disk[b], false)]);
    }
    ok := true;
  }

  method Peek(st: Store, b: nat, i: nat) returns (ok: bool, next: Store, w: nat)
    requires Clean(st) && b != 0 && i < BLKWORDS
    ensures Clean(next) && next.disk == st.disk
    ensures ok <==> InUse(st.disk, b)
    ensures ok ==> w == W(st.disk, b, i)
  {
    w := 0;
    ok, next := Fault(st, b);
    if ok {
      w := Word(next.page[b].data, i);
    }
  }

  /** file_get_block on block k of the file at p, given up where it would panic or allocate. */
  method Locate(st: Store, p: Ptr, k: nat) returns (ok: bool, next: Store, b: nat)
    requires Clean(st) && p.blk != 0 && p.base + 64 <= BLKWORDS
    ensures Clean(next) && next.disk == st.disk
    ensures ok <==> Readable(st.disk, p, k)
    ensures ok ==> b == SlotAt(st.disk, p, k) && next.page[b].Mapped? && next.page[b].data == st.disk[b]
  {
    ok, next, b := false, st, 0;
    if k >= MAXBLOCKS {
      return;
    }
    if k < NDIRECT {
      ok, next, b := Peek(next, p.blk, p.base + DIRECT + k);
    } else {
      ok, next, b := Peek(next, p.blk, p.base + INDIRECT);
      if !ok {
        return;
      }
      if b == 0 {
        return false, next, b;
      }
      ok, next, b := Peek(next, b, k - NDIRECT);
    }
    if !ok {
      return;
    }
    if b == 0 {
      return false, next, b;
    }
    ok, next := Fault(next, b);
  }

  lemma HoldsAtMore(img: Image, p: Ptr, offset: nat, s: seq<byte>, k: nat, o: nat, piece: seq<byte>)
    requires HoldsAt(img, p, offset, s) && offset + |s| == BLKSIZE * k + o && o + |piece| <= BLKSIZE
    requires k < MAXBLOCKS && 0 < SlotAt(img, p, k) < |img| && piece == img[SlotAt(img, p, k)][o..o + |piece|]
    ensures HoldsAt(img, p, offset, s + piece)
  {
    forall l: nat, x: nat | x < BLKSIZE && offset <= BLKSIZE * l + x < offset + |s + piece|
      ensures ByteAt(img, p, l, x) == (s + piece)[BLKSIZE * l + x - offset] as int
    {
      if BLKSIZE * l + x < offset + |s| {
        assert ByteAt(img, p, l, x) == s[BLKSIZE * l + x - offset] as int;
      } else {
        assert l == k;
      }
    }
  }

  /** The blocks a read of [lo, hi) goes through. */
  ghost predicate AllReadable(img: Image, p: Ptr, lo: nat, hi: nat) {
    forall k: nat :: lo < hi && lo < BLKSIZE * k + BLKSIZE && BLKSIZE * k < hi ==> Readable(img, p, k)
  }

  /** file_read on that cache: it goes through exactly when all those blocks can be read in, and returns their bytes. */
  method Reread(st: Store, p: Ptr, count: nat, offset: nat) returns (ok: bool, buf: seq<byte>)
    requires Clean(st) && InUse(st.disk, p.blk) && p.base + 64 <= BLKWORDS
    ensures var n := Available(SizeAt(st.disk, p), count, offset);
            && (ok <==> AllReadable(st.disk, p, offset, offset + n))
            && (ok ==> |buf| == n && HoldsAt(st.disk, p, offset, buf))
    ensures ok ==> |buf| <= count && (buf != [] ==> offset + |buf| <= SizeAt(st.disk, p))
    ensures ok && |buf| < count ==> offset + |buf| >= SizeAt(st.disk, p)
  {
    var next, size;
    ok, next, size := Peek(st, p.blk, p.base + SIZE);
    buf := [];
    if offset >= size {
      return;
    }
    var n := if count < size - offset then count else size - offset;
    while |buf| < n
      invariant Clean(next) && next.disk == st.disk && |buf| <= n && HoldsAt(st.disk, p, offset, buf)
      invariant AllReadable(st.disk, p, offset, offset + |buf|)
      decreases n - |buf|
    {
      var pos := offset + |buf|;
      var k, o := pos / BLKSIZE, pos % BLKSIZE;
      var bn := if BLKSIZE - o < n - |buf| then BLKSIZE - o else n - |buf|;
      var b;
      ok, next, b := Locate(next, p, k);
      if !ok {
        assert offset < BLKSIZE * k + BLKSIZE && BLKSIZE * k < offset + n;
        return;
      }
      HoldsAtMore(st.disk, p, offset, buf, k, o, next.page[b].data[o..o + bn]);
      buf := buf + next.page[b].data[o..o + bn];
    }
    ok := true;
  }

  // ---- after file_flush ----

  lemma SlotSurvives(disk: Image, img: Image, p: Ptr, f: Node, k: nat)
    requires At(img, p, f) && Flushed(disk, img, p, f) && k < MAXBLOCKS
      && Target(img, Ind(f)) == W(img, p.blk, p.base + INDIRECT)
    ensures SlotAt(disk, p, k) == Target(img, Slot(f, k))
  {
    if k < NDIRECT || Target(img, Ind(f)) != 0 { RefReads(img, Slot(f, k)); } else { NoTable(img, f); }
  }

  /** A block in use in memory is in use on disk. */
  lemma UseSurvives(st: Store, img: Image, owner: map<nat, Ref>, b: nat)
    requires Cached(st, img) && Sound(img, owner, 0) && (0 < b < 3 || b in owner)
    ensures InUse(st.disk, b)
  {
    assert b < |img| && !Free(img, b);
  }

  /**
   * After file_flush, throwing the whole cache away loses nothing of the file: on the disk it has the same size and
   * the same bytes, and a block of it can be read in exactly when the file has that block.
   */
  lemma FlushSurvives(st: Store, img: Image, owner: map<nat, Ref>, p: Ptr, f: Node)
    requires Cached(st, img) && Sound(img, owner, 0) && At(img, p, f) && Flushed(st.disk, img, p, f)
    ensures InUse(st.disk, 1) && InUse(st.disk, 2) && InUse(st.disk, p.blk)
    ensures SizeAt(st.disk, p) == Size(img, f)
    ensures forall k: nat, o: nat :: ByteAt(st.disk, p, k, o) == Byte(img, f, k, o)
    ensures forall k: nat :: Readable(st.disk, p, k) <==> k < MAXBLOCKS && Target(img, Slot(f, k)) != 0
  {
    SizeReads(img, f);
    RefReads(img, Ind(f));
    UseSurvives(st, img, owner, 1);
    UseSurvives(st, img, owner, 2);
    assert InUse(st.disk, p.blk) by { HomeSurvives(st, img, owner, p, f); }
    forall k: nat | k < MAXBLOCKS
      ensures SlotAt(st.disk, p, k) == Target(img, Slot(f, k))
        && (Readable(st.disk, p, k) <==> Target(img, Slot(f, k)) != 0)
    {
      SlotSurvives(st.disk, img, p, f, k);
      if Target(img, Slot(f, k)) != 0 { UseSurvives(st, img, owner, Target(img, Slot(f, k))); }
      if Target(img, Ind(f)) != 0 { UseSurvives(st, img, owner, Target(img, Ind(f))); }
    }
    forall k: nat, o: nat ensures ByteAt(st.disk, p, k, o) == Byte(img, f, k, o) {
      assert k < MAXBLOCKS ==> SlotAt(st.disk, p, k) == Target(img, Slot(f, k));
    }
  }

  lemma HomeSurvives(st: Store, img: Image, owner: map<nat, Ref>, p: Ptr, f: Node)
    requires Cached(st, img) && Sound(img, owner, 0) && At(img, p, f)
    ensures InUse(st.disk, p.blk)
  {
    if f.Entry? { EntryHome(img, f); }
    UseSurvives(st, img, owner, p.blk);
  }

  /**
   * file_flush, then a fresh cache over the disk and file_read: the read goes through exactly when the range has no
   * hole, and returns the bytes the file had.
   */
  method FlushRestartRead(fs: Server, p: Ptr, ghost f: Node, count: nat, offset: nat) returns (ok: bool, buf: seq<byte>)
    requires fs.Valid() && At(fs.img, p, f)
    modifies fs
    ensures fs.Valid() && Kept(old(fs.img), fs.img)
    ensures var n := Available(Size(fs.img, f), count, offset);
            && (ok <==> !Gap(fs.img, f, offset, offset + n))
            && (ok ==> |buf| == n && Holds(fs.img, f, offset, buf))
  {
    fs.FileFlush(p, f);
    FlushSurvives(fs.st, fs.img, fs.owner, p, f);
    ok, buf := Reread(Restarted(fs.st.disk), p, count, offset);
    ghost var n := Available(Size(fs.img, f), count, offset);
    GapIsUnreadable(fs.st.disk, fs.img, p, f, offset, n);
    if ok { HoldsSurvives(fs.st.disk, fs.img, p, f, offset, buf); }
  }

  lemma GapIsUnreadable(disk: Image, img: Image, p: Ptr, f: Node, offset: nat, n: nat)
    requires forall k: nat :: Readable(disk, p, k) <==> k < MAXBLOCKS && 0 < Target(img, Slot(f, k)) < |img|
    ensures AllReadable(disk, p, offset, offset + n) <==> !Gap(img, f, offset, offset + n)
  {
    if !AllReadable(disk, p, offset, offset + n) {
      var k: nat :| offset < BLKSIZE * k + BLKSIZE && BLKSIZE * k < offset + n && !Readable(disk, p, k);
      var o := if offset <= BLKSIZE * k then 0 else offset - BLKSIZE * k;
      assert Byte(img, f, k, o) == -1;
    }
    if Gap(img, f, offset, offset + n) {
      var k: nat, o: nat :| o < BLKSIZE && offset <= BLKSIZE * k + o < offset + n && Byte(img, f, k, o) == -1;
      assert !Readable(disk, p, k);
    }
  }

  lemma HoldsSurvives(disk: Image, img: Image, p: Ptr, f: Node, offset: nat, s: seq<byte>)
    requires HoldsAt(disk, p, offset, s) && forall k: nat, o: nat :: ByteAt(disk, p, k, o) == Byte(img, f, k, o)
    ensures Holds(img, f, offset, s)
  {
    forall k: nat, o: nat | o < BLKSIZE && offset <= BLKSIZE * k + o < offset + |s|
      ensures Byte(img, f, k, o) == s[BLKSIZE * k + o - offset] as int
    {
      assert ByteAt(disk, p, k, o) == s[BLKSIZE * k + o - offset] as int;
    }
  }
}
