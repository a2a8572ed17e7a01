/** The file server's block cache (fs/bc.c) and file operations (fs/fs.c). */
module FileSystem {
  import opened Blocks
  import opened FsLayout
  import opened FsInvariant

  const E_INVAL := 3
  const E_NO_DISK := 10
  const E_NOT_FOUND := 12
  const E_BAD_PATH := 13
  const E_FILE_EXISTS := 14

  /** What is mapped at a block's address in the cache region, with the page's dirty bit. */
  datatype Page = Absent | Mapped(data: Block, dirty: bool)

  datatype Store = Store(disk: seq<Block>, page: seq<Page>)

  /** The image is what a load would see. A page that is not dirty equals its disk copy. */
  ghost predicate Coherent(st: Store, img: Image) {
    && |st.disk| == |st.page| == |img|
    && (forall b :: 0 <= b < |img| && st.page[b].Mapped? ==> st.page[b].data == img[b])
    && (forall b :: 0 <= b < |img| && !(st.page[b].Mapped? && st.page[b].dirty) ==> st.disk[b] == img[b])
  }

  /** The super block and the bitmap stay mapped from start-up on. */
  ghost predicate Resident(st: Store) { 3 <= |st.page| <= BLKBITS && st.page[1].Mapped? && st.page[2].Mapped? }

  /** Every block free in the bitmap on disk is free in the bitmap in memory. */
  ghost predicate Ordered(st: Store, img: Image) {
    2 < |st.disk| && forall c: nat :: c < |img| && BitAt(st.disk[2], c) ==> Free(img, c)
  }

  ghost predicate Cached(st: Store, img: Image) { Coherent(st, img) && Resident(st) && Ordered(st, img) }

  ghost predicate First(img: Image, b: nat) { b < |img| && Free(img, b) && forall c: nat :: c < b ==> !Free(img, c) }

  /** One reference took the first free block; the remaining free blocks are untouched. */
  ghost predicate Grew(img: Image, new': Image, r: Ref) {
    && |new'| == |img| && Target(img, r) == 0 && First(img, Target(new', r))
    && (forall c: nat :: c < |img| ==> (Free(new', c) <==> Free(img, c) && c != Target(new', r)))
    && (forall c: nat :: c < |img| && Free(new', c) ==> new'[c] == img[c])
  }

  /** That, and nothing else changed: what is mapped stays, and a block put in a slot keeps what it last held. */
  ghost predicate GrewOnly(img: Image, new': Image, r: Ref) {
    && Grew(img, new', r) && Kept(img, new') && SameExcept(img, new', r) && SameOwn(img, new', r.f)
    && (r.Slot? ==> new'[Target(new', r)] == img[Target(new', r)])
  }

  /** No block became free, and the free blocks hold what they held. */
  ghost predicate FreeSame(img: Image, new': Image) {
    |new'| == |img| && forall c: nat :: c < |img| && Free(new', c) ==> Free(img, c) && new'[c] == img[c]
  }

  /** FreeSame, on demand. */
  ghost predicate FreeKept(img: Image, new': Image) {
    forall n: nat {:trigger Open(n)} :: n == 0 ==> FreeSame(img, new')
  }

  lemma FreeKeptTwice(a: Image, b: Image, c: Image)
    requires FreeKept(a, b) && FreeKept(b, c)
    ensures FreeKept(a, c)
  {
    assert Open(0);
  }

  lemma GrewKeepsFree(img: Image, new': Image, r: Ref)
    requires new' == img || GrewOnly(img, new', r)
    ensures FreeKept(img, new')
  {
    assert FreeSame(img, new');
  }

  /** A store into a block in use. */
  lemma StoreKeepsFree(img: Image, new': Image, b: nat)
    requires 2 < |img| && OnlyBlock(img, new', b) && b != 2 && !Free(img, b)
    ensures FreeKept(img, new')
  {
    forall c: nat | c < |img| ensures Free(new', c) == Free(img, c) {}
    assert FreeSame(img, new');
  }

  lemma GrewOnlyAfter(img: Image, mid: Image, new': Image, b: nat, r: Ref)
    requires 3 <= |img| <= BLKBITS && First(img, b) && Target(img, r) == 0 && IsRef(r)
    requires mid == MarkBit(img, b, false) && Kept(img, mid) && SameTargets(img, mid)
    requires Kept(mid, new') && SameExcept(mid, new', r) && Target(new', r) == b && new'[2] == mid[2]
    requires b != 2 && !Free(mid, 2) && forall c: nat :: c < |mid| && Free(new', c) ==> new'[c] == mid[c]
    requires SameOwn(mid, new', r.f) && !OwnBitmap(img, r.f) && (r.Slot? ==> new'[b] == mid[b])
    ensures GrewOnly(img, new', r)
  {
    KeptTwice(img, mid, new');
    forall c: nat | c < |img| ensures Free(new', c) == Free(mid, c) {}
    forall k: nat | k < MAXBLOCKS && 0 < Target(img, Slot(r.f, k)) < |img|
      ensures new'[Target(img, Slot(r.f, k))] == img[Target(img, Slot(r.f, k))]
    {
      assert Target(mid, Slot(r.f, k)) == Target(img, Slot(r.f, k));
    }
  }

  /** f names the bitmap block. */
  ghost predicate OwnBitmap(img: Image, f: Node) { exists k: nat :: k < MAXBLOCKS && Target(img, Slot(f, k)) == 2 }

  ghost predicate Second(img: Image, c: nat) {
    && c < |img| && Free(img, c)
    && exists b: nat :: First(img, b) && b < c && forall d: nat :: b < d < c ==> !Free(img, d)
  }

  /** c is the block the directory would take at index k, after an indirect block if that is missing too. */
  ghost predicate Takes(img: Image, k: nat, c: nat) {
    && k < MAXBLOCKS && Target(img, Slot(Root, k)) == 0
    && if NDIRECT <= k && Target(img, Ind(Root)) == 0 then Second(img, c) else First(img, c)
  }

  /** If the directory has to take a new block at index k, that block holds decent structs. */
  ghost predicate DirSafe(img: Image, k: nat) { forall c: nat :: Takes(img, k, c) ==> Decent(img[c]) }

  /** If the directory has to take a new block at index k, that block holds unused entries. */
  ghost predicate DirVacant(img: Image, k: nat) { forall c: nat :: Takes(img, k, c) ==> Vacant(img[c]) }

  /** The first free block after the walk is the one the directory was to take. */
  lemma StillTakes(img: Image, new': Image, k: nat, c: nat)
    requires k < MAXBLOCKS && Target(img, Slot(Root, k)) == 0 && First(new', c)
    requires new' == img || (NDIRECT <= k && GrewOnly(img, new', Ind(Root)))
    requires RefHome(new', Slot(Root, k)) != 0
    ensures Takes(img, k, c) && new'[c] == img[c]
  {
    if new' != img {
      var b := Target(new', Ind(Root));
      assert First(img, b) && Free(img, c) && c != b;
      assert forall d: nat :: d < c && d != b ==> !Free(img, d);
      assert Second(img, c);
    }
  }

  /** Only slot k and the indirect pointer of f may have changed. */
  ghost predicate SameBut(img: Image, new': Image, f: Node, k: nat) {
    forall s: Ref {:trigger Target(new', s)} ::
      IsRef(s) && s != Slot(f, k) && s != Ind(f) ==> Target(new', s) == Target(img, s)
  }

  /** What the slot can receive after the walk. */
  lemma TakenNow(img: Image, mid: Image, f: Node, k: nat)
    requires k < MAXBLOCKS && (f.Root? ==> DirSafe(img, k)) && RefHome(mid, Slot(f, k)) != 0
    requires mid == img || (NDIRECT <= k && GrewOnly(img, mid, Ind(f)))
    ensures Target(mid, Slot(f, k)) == 0 ==> forall c: nat :: First(mid, c) ==> mid[c] == img[c]
    ensures f.Root? && Target(mid, Slot(f, k)) == 0 ==>
      forall c: nat :: First(mid, c) ==> Takes(img, k, c) && Decent(mid[c])
  {
    if f.Root? && Target(mid, Slot(f, k)) == 0 {
      forall c: nat | First(mid, c) ensures Takes(img, k, c) && Decent(mid[c]) && mid[c] == img[c] {
        assert Target(img, Slot(f, k)) == 0;
        StillTakes(img, mid, k, c);
      }
    }
  }

  lemma KeptSelf(img: Image)
    ensures Kept(img, img) && FreeKept(img, img)
  {
    assert FreeSame(img, img);
  }

  lemma Walked(img: Image, mid: Image, new': Image, p: Ptr, f: Node, k: nat)
    requires At(img, p, f)
    requires mid == img || GrewOnly(img, mid, Ind(f))
    requires new' == mid || GrewOnly(mid, new', Slot(f, k))
    ensures Kept(img, new') && SameBut(img, new', f, k) && At(new', p, f) && SameOwn(img, new', f)
  {
    KeptSelf(img);
    KeptSelf(mid);
    KeptTwice(img, mid, new');
    AtKept(img, new', p, f);
    forall l: nat | l < MAXBLOCKS && 0 < Target(img, Slot(f, l)) < |img|
      ensures new'[Target(img, Slot(f, l))] == img[Target(img, Slot(f, l))]
    {
      assert Target(mid, Slot(f, l)) == Target(img, Slot(f, l));
    }
  }

  /** Marking a block in use moves nothing. */
  lemma AfterAlloc(img: Image, owner: map<nat, Ref>, b: nat, p: Ptr, f: Node)
    requires Sound(img, owner, 0) && b < |img| && Free(img, b) && At(img, p, f)
    ensures var mid := MarkBit(img, b, false);
            At(mid, p, f) && Kept(img, mid) && SameTargets(img, mid) && Size(mid, f) == Size(img, f)
  {
    SoundAlloc(img, owner, b);
    var mid := MarkBit(img, b, false);
    assert Kept(img, mid);
    AtKept(img, mid, p, f);
    assert SameInfo(img, mid, f);
  }

  lemma NoBitmap(img: Image, owner: map<nat, Ref>, f: Node)
    requires Owned(img, owner, 0) && IsNode(f)
    ensures !OwnBitmap(img, f)
  {
    forall k: nat | k < MAXBLOCKS ensures Target(img, Slot(f, k)) != 2 {
      assert IsRef(Slot(f, k));
    }
  }

  /** A fresh block in a slot of f. */
  lemma SlotGrown(img: Image, owner: map<nat, Ref>, b: nat, p: Ptr, f: Node, k: nat)
    requires Sound(img, owner, 0) && First(img, b) && At(img, p, f)
    requires k < MAXBLOCKS && BLKSIZE * k < Size(img, f) && Target(img, Slot(f, k)) == 0
      && RefHome(img, Slot(f, k)) != 0
    requires f.Root? ==> Decent(img[b])
    ensures var mid, h, i := MarkBit(img, b, false), RefHome(img, Slot(f, k)), RefWord(Slot(f, k));
            && 0 < h < |img| && i < BLKWORDS && h != 2 && !Free(mid, h)
            && var new' := Poke(mid, h, i, b);
               Sound(new', owner[b := Slot(f, k)], 0) && GrewOnly(img, new', Slot(f, k))
                 && Target(new', Slot(f, k)) == b
  {
    var mid, r := MarkBit(img, b, false), Slot(f, k);
    SoundAlloc(img, owner, b);
    AfterAlloc(img, owner, b, p, f);
    RefHomeSame(img, mid, r);
    HomeInUse(mid, owner, b, r);
    SoundInstall(mid, owner, b, r);
    OwnKept(mid, owner, b, r, b);
    NoBitmap(img, owner, f);
    GrewOnlyAfter(img, mid, SetRef(mid, r, b), b, r);
  }

  // ---- files as byte arrays ----

  /** The blocks of other files, and their indirect pointers, are the same. */
  ghost predicate OthersSame(img: Image, new': Image, f: Node) {
    forall s: Ref {:trigger Target(new', s)} :: IsRef(s) && s.f != f ==> Target(new', s) == Target(img, s)
  }

  /** Byte o of block k of file f, or -1 where nothing is mapped. */
  ghost function Byte(img: Image, f: Node, k: nat, o: nat): int {
    if k < MAXBLOCKS && o < BLKSIZE && 0 < Target(img, Slot(f, k)) < |img|
    then img[Target(img, Slot(f, k))][o] as int else -1
  }

  /** The bytes s are mapped, and stand in file f from offset on. */
  ghost predicate Holds(img: Image, f: Node, offset: nat, s: seq<byte>) {
    forall k: nat, o: nat {:trigger Byte(img, f, k, o)} ::
      o < BLKSIZE && offset <= BLKSIZE * k + o < offset + |s| ==>
        Byte(img, f, k, o) == s[BLKSIZE * k + o - offset] as int
  }

  /** Some byte in [lo, hi) has no block. */
  ghost predicate Gap(img: Image, f: Node, lo: nat, hi: nat) {
    exists k: nat, o: nat :: o < BLKSIZE && lo <= BLKSIZE * k + o < hi && Byte(img, f, k, o) == -1
  }

  lemma GapWider(img: Image, f: Node, lo: nat, hi: nat, hi': nat)
    requires Gap(img, f, lo, hi) && hi <= hi'
    ensures Gap(img, f, lo, hi')
  {
  }

  lemma HoldsNoGap(img: Image, f: Node, offset: nat, s: seq<byte>)
    requires Holds(img, f, offset, s)
    ensures !Gap(img, f, offset, offset + |s|)
  {
  }

  /** How much a read of count bytes at offset yields: no more than asked, none past the end, all there is of it. */
  function Available(size: nat, count: nat, offset: nat): (n: nat)
    ensures n <= count && (n > 0 ==> offset + n <= size) && (n < count ==> offset + n >= size)
  {
    if offset >= size then 0 else if count < size - offset then count else size - offset
  }

  /** For a regular file, keeping all data keeps its own. */
  lemma OwnOfData(img: Image, new': Image, f: Node)
    requires IsNode(f) && f.Entry? && SameData(img, new')
    ensures SameOwn(img, new', f)
  {
    forall k: nat | k < MAXBLOCKS && 0 < Target(img, Slot(f, k)) < |img|
      ensures new'[Target(img, Slot(f, k))] == img[Target(img, Slot(f, k))]
    {
      assert IsRef(Slot(f, k));
    }
  }

  lemma ByteKept(img: Image, new': Image, f: Node, k: nat, o: nat)
    requires IsNode(f) && Kept(img, new') && SameOwn(img, new', f) && Byte(img, f, k, o) != -1
    ensures Byte(new', f, k, o) == Byte(img, f, k, o)
  {
    assert Target(new', Slot(f, k)) == Target(img, Slot(f, k));
  }

  lemma HoldsKept(img: Image, new': Image, f: Node, offset: nat, s: seq<byte>)
    requires IsNode(f) && Kept(img, new') && SameOwn(img, new', f) && Holds(img, f, offset, s)
    ensures Holds(new', f, offset, s)
  {
    forall k: nat, o: nat | o < BLKSIZE && offset <= BLKSIZE * k + o < offset + |s|
      ensures Byte(new', f, k, o) == s[BLKSIZE * k + o - offset] as int
    {
      assert Byte(img, f, k, o) == s[BLKSIZE * k + o - offset] as int;
      ByteKept(img, new', f, k, o);
    }
  }

  lemma HoldsMore(img: Image, f: Node, offset: nat, s: seq<byte>, k: nat, o: nat, piece: seq<byte>)
    requires Holds(img, f, offset, s) && offset + |s| == BLKSIZE * k + o && o + |piece| <= BLKSIZE
    requires k < MAXBLOCKS && 0 < Target(img, Slot(f, k)) < |img|
    requires piece == img[Target(img, Slot(f, k))][o..o + |piece|]
    ensures Holds(img, f, offset, s + piece)
  {
    forall l: nat, x: nat | x < BLKSIZE && offset <= BLKSIZE * l + x < offset + |s + piece|
      ensures Byte(img, f, l, x) == (s + piece)[BLKSIZE * l + x - offset] as int
    {
      if BLKSIZE * l + x >= offset + |s| {
        assert l == k && piece[x - o] == img[Target(img, Slot(f, k))][x];
      }
    }
  }

  lemma HoldsUnique(img: Image, f: Node, offset: nat, s: seq<byte>, t: seq<byte>)
    requires Holds(img, f, offset, s) && Holds(img, f, offset, t) && |t| <= |s|
    ensures t <= s
  {
    forall i | 0 <= i < |t| ensures t[i] == s[i] {
      var k, o := (offset + i) / BLKSIZE, (offset + i) % BLKSIZE;
      assert Byte(img, f, k, o) == s[BLKSIZE * k + o - offset] as int;
    }
  }

  lemma SizeReads(img: Image, f: Node)
    requires Home(img, f) != 0
    ensures Size(img, f) == W(img, Home(img, f), Base(f) + SIZE)
  {
    assert Open(0);
  }

  // ---- overwriting ----

  /** Only bytes [lo, hi) of f may differ among the mapped bytes of all files; nothing loses its block. */
  ghost predicate Rewritten(img: Image, new': Image, f: Node, lo: nat, hi: nat) {
    && |new'| == |img| && SameInfos(img, new') && OthersSame(img, new', f)
    && (forall r: Ref {:trigger Target(new', r)} ::
          IsRef(r) && Target(img, r) != 0 ==> Target(new', r) == Target(img, r))
    && BytesSame(img, new', f, lo, hi)
  }

  ghost predicate BytesSame(img: Image, new': Image, f: Node, lo: nat, hi: nat) {
    forall g: Node, k: nat, o: nat {:trigger Byte(new', g, k, o)} ::
      IsNode(g) && g.Entry? && Byte(img, g, k, o) != -1 && (g != f || BLKSIZE * k + o < lo || hi <= BLKSIZE * k + o) ==>
        Byte(new', g, k, o) == Byte(img, g, k, o)
  }

  lemma KeptRewritten(img: Image, new': Image, f: Node, lo: nat, hi: nat)
    requires Kept(img, new') && OthersSame(img, new', f)
    ensures Rewritten(img, new', f, lo, hi)
  {
    forall g: Node, k: nat, o: nat | IsNode(g) && g.Entry? && Byte(img, g, k, o) != -1
      ensures Byte(new', g, k, o) == Byte(img, g, k, o)
    {
      OwnOfData(img, new', g);
      ByteKept(img, new', g, k, o);
    }
  }

  lemma RewrittenTwice(a: Image, b: Image, c: Image, f: Node, lo: nat, hi: nat)
    requires Rewritten(a, b, f, lo, hi) && Rewritten(b, c, f, lo, hi)
    ensures Rewritten(a, c, f, lo, hi)
  {
    InfosTwice(a, b, c);
    forall g: Node, k: nat, o: nat
      | IsNode(g) && g.Entry? && Byte(a, g, k, o) != -1 && (g != f || BLKSIZE * k + o < lo || hi <= BLKSIZE * k + o)
      ensures Byte(c, g, k, o) == Byte(a, g, k, o)
    {
      assert Byte(b, g, k, o) == Byte(a, g, k, o);
    }
  }

  /** memmove into a data block of f. */
  lemma SpliceBytes(img: Image, owner: map<nat, Ref>, f: Node, k: nat, o: nat, piece: seq<byte>)
    requires Sound(img, owner, 0) && IsRef(Slot(f, k)) && f.Entry? && Target(img, Slot(f, k)) != 0
      && o + |piece| <= BLKSIZE
    ensures var b := Target(img, Slot(f, k));
            && 3 <= b < |img| && !Free(img, b)
            && var new' := img[b := Splice(img[b], o, piece)];
               && Sound(new', owner, 0) && SameTargets(img, new')
               && Rewritten(img, new', f, BLKSIZE * k + o, BLKSIZE * k + o + |piece|)
  {
    var b := Target(img, Slot(f, k));
    var new' := img[b := Splice(img[b], o, piece)];
    SoundContents(img, owner, 0, b, new'[b]);
    forall g: Node, l: nat, x: nat
      | IsNode(g) && g.Entry? && Byte(img, g, l, x) != -1
        && (g != f || BLKSIZE * l + x < BLKSIZE * k + o || BLKSIZE * k + o + |piece| <= BLKSIZE * l + x)
      ensures Byte(new', g, l, x) == Byte(img, g, l, x)
    {
      assert Target(new', Slot(g, l)) == Target(img, Slot(g, l));
      assert Target(img, Slot(g, l)) == b ==> owner[b] == Slot(g, l);
    }
  }

  lemma HoldsRewritten(img: Image, new': Image, f: Node, offset: nat, s: seq<byte>, lo: nat, hi: nat)
    requires IsNode(f) && f.Entry? && Rewritten(img, new', f, lo, hi) && Holds(img, f, offset, s) && offset + |s| <= lo
    ensures Holds(new', f, offset, s)
  {
    forall k: nat, o: nat | o < BLKSIZE && offset <= BLKSIZE * k + o < offset + |s|
      ensures Byte(new', f, k, o) == s[BLKSIZE * k + o - offset] as int
    {
      assert Byte(img, f, k, o) == s[BLKSIZE * k + o - offset] as int;
    }
  }

  // ---- durability ----

  /** The first n data blocks of f are on disk as they are in the image. */
  ghost predicate DataFlushed(disk: Image, img: Image, f: Node, n: nat) {
    && |disk| == |img|
    && forall k: nat {:trigger Target(img, Slot(f, k))} :: k < n && k < MAXBLOCKS && Target(img, Slot(f, k)) != 0 ==>
         Target(img, Slot(f, k)) < |img| && disk[Target(img, Slot(f, k))] == img[Target(img, Slot(f, k))]
  }

  ghost predicate Flushed(disk: Image, img: Image, p: Ptr, f: Node) {
    && DataFlushed(disk, img, f, MAXBLOCKS) && p.blk < |img| && disk[p.blk] == img[p.blk]
    && (Target(img, Ind(f)) != 0 ==>
      Target(img, Ind(f)) < |img| && disk[Target(img, Ind(f))] == img[Target(img, Ind(f))])
  }

  /** The disk after flushing the block b of the image, 0 standing for none. */
  ghost function DiskAfter(disk: Image, img: Image, b: nat): Image {
    if 0 < b < |disk| && b < |img| then disk[b := img[b]] else disk
  }

  /** Block k of f went to disk; besides, only the bitmap may have. */
  ghost predicate DiskMoved(disk: Image, disk': Image, img: Image, f: Node, k: nat) {
    && |disk| == |disk'| == |img|
    && (forall b: nat :: b < |img| && b != 2 && disk'[b] != disk[b] ==> disk'[b] == img[b])
    && (k < MAXBLOCKS && 0 < Target(img, Slot(f, k)) < |img| ==>
      disk'[Target(img, Slot(f, k))] == img[Target(img, Slot(f, k))])
  }

  /** The walk wrote at most the bitmap, and the flush at most block k. */
  lemma DiskSteps(disk: Image, mid: Image, disk': Image, img: Image, f: Node, k: nat)
    requires |disk| == |mid| == |img| && OnlyBlock(disk, mid, 2)
    requires if k < MAXBLOCKS then disk' == DiskAfter(mid, img, Target(img, Slot(f, k))) else disk' == mid
    ensures DiskMoved(disk, disk', img, f, k)
  {}

  lemma FlushedOne(disk: Image, disk': Image, img: Image, new': Image, owner: map<nat, Ref>, f: Node, k: nat)
    requires DataFlushed(disk, img, f, k) && Owned(new', owner, 0) && IsNode(f) && |disk'| == |new'| == |img|
    requires new' == img || (GrewOnly(img, new', Ind(f)) && SameOwn(img, new', f))
    requires DiskMoved(disk, disk', new', f, k)
    ensures DataFlushed(disk', new', f, k + 1)
  {
    forall l: nat | l < k && l < MAXBLOCKS && Target(new', Slot(f, l)) != 0
      ensures Target(new', Slot(f, l)) < |img| && disk'[Target(new', Slot(f, l))] == new'[Target(new', Slot(f, l))]
    {
      assert Target(img, Slot(f, l)) == Target(new', Slot(f, l));
    }
  }

  lemma AllFlushed(disk: Image, img: Image, f: Node, n: nat)
    requires DataFlushed(disk, img, f, n) && Trimmed(img, f) && n == BlockCount(Size(img, f))
    ensures DataFlushed(disk, img, f, MAXBLOCKS)
  {
    forall k: nat | k < MAXBLOCKS && Target(img, Slot(f, k)) != 0 ensures k < n {
      BlocksBound(Size(img, f), k);
    }
  }

  // ---- shrinking ----

  predicate Outside(s: Ref, f: Node, lo: nat) { s.f != f || (s.Slot? && s.k < lo) }

  /** Nothing changed but blocks of f from lo on, and its indirect block. */
  ghost predicate Cut(img: Image, new': Image, f: Node, lo: nat) { SameInfos(img, new') && CutRefs(img, new', f, lo) }

  ghost predicate CutRefs(img: Image, new': Image, f: Node, lo: nat) {
    && |new'| == |img|
    && (forall s: Ref {:trigger Target(new', s)} :: IsRef(s) && Outside(s, f, lo) ==> Target(new', s) == Target(img, s))
    && (forall s: Ref {:trigger Target(img, s)} ::
          IsRef(s) && Outside(s, f, lo) && s.Slot? && s.f.Entry? && 0 < Target(img, s) < |img| ==>
            new'[Target(img, s)] == img[Target(img, s)])
  }

  lemma CutTwice(a: Image, b: Image, c: Image, f: Node, lo: nat)
    requires Cut(a, b, f, lo) && Cut(b, c, f, lo)
    ensures Cut(a, c, f, lo)
  {
    InfosTwice(a, b, c);
    forall s: Ref | IsRef(s) && Outside(s, f, lo)
      ensures Target(c, s) == Target(a, s)
      ensures s.Slot? && s.f.Entry? && 0 < Target(a, s) < |a| ==> c[Target(a, s)] == a[Target(a, s)]
    {
      assert Target(b, s) == Target(a, s);
    }
  }

  lemma CutOne(img: Image, new': Image, f: Node, r: Ref, lo: nat)
    requires SameInfos(img, new') && SameData(img, new') && SameExcept(img, new', r) && !Outside(r, f, lo)
    ensures Cut(img, new', f, lo)
  {
    forall s: Ref | IsRef(s) && Outside(s, f, lo) && s.Slot? && s.f.Entry? && 0 < Target(img, s) < |img|
      ensures new'[Target(img, s)] == img[Target(img, s)]
    {
      assert s == Slot(s.f, s.k);
    }
  }

  lemma CutGrew(img: Image, new': Image, f: Node, lo: nat)
    requires new' == img || GrewOnly(img, new', Ind(f))
    ensures Cut(img, new', f, lo)
  {
    if new' == img {
      KeptSelf(img);
    } else {
      CutOne(img, new', f, Ind(f), lo);
    }
  }

  lemma AtCut(img: Image, new': Image, p: Ptr, f: Node, lo: nat)
    requires At(img, p, f) && f.Entry? && Cut(img, new', f, lo)
    ensures At(new', p, f)
  {
    EntryHome(img, f);
    EntryHome(new', f);
  }

  ghost predicate SameLabel(img: Image, new': Image, f: Node) {
    Kind(new', f) == Kind(img, f) && forall x: nat :: x < 128 ==> Char(new', f, x) == Char(img, f, x)
  }

  lemma CutThenSize(a: Image, b: Image, c: Image, f: Node, lo: nat)
    requires IsNode(f) && Home(a, f) != 0 && Cut(a, b, f, lo) && SameTargets(b, c) && SameData(b, c)
    requires SameOtherInfos(b, c, f) && SameLabel(b, c, f)
    ensures CutRefs(a, c, f, lo) && SameOtherInfos(a, c, f) && SameLabel(a, c, f)
  {
    assert SameInfo(a, b, f);
    forall g: Node | IsNode(g) && g != f ensures SameInfo(a, c, g) {
      assert SameInfo(a, b, g) && SameInfo(b, c, g);
    }
    forall s: Ref | IsRef(s) && Outside(s, f, lo)
      ensures Target(c, s) == Target(a, s)
      ensures s.Slot? && s.f.Entry? && 0 < Target(a, s) < |a| ==> c[Target(a, s)] == a[Target(a, s)]
    {
      assert Target(b, s) == Target(a, s);
      assert s.Slot? ==> s == Slot(s.f, s.k);
    }
  }

  /** After truncation, or when growing, the new size fits the slots. */
  lemma FitsNow(img: Image, new': Image, f: Node, newsize: nat)
    requires IsNode(f) && Home(img, f) != 0 && Trimmed(img, f) && newsize < OFF_MAX && SameInfos(img, new')
    requires Size(img, f) <= newsize ==> new' == img
    requires newsize < Size(img, f) ==>
      && (forall k: nat :: BlockCount(newsize) <= k < MAXBLOCKS ==> Target(new', Slot(f, k)) == 0)
      && (BlockCount(newsize) <= NDIRECT ==> Target(new', Ind(f)) == 0)
    ensures Fits(new', f, newsize) && SameLabel(img, new', f)
    ensures forall k: nat :: BlockCount(newsize) <= k < MAXBLOCKS ==> Target(new', Slot(f, k)) == 0
  {
    assert SameInfo(img, new', f);
    forall k: nat ensures k < BlockCount(newsize) <==> BLKSIZE * k < newsize {
      BlocksBound(newsize, k);
    }
  }

  lemma RewrittenWider(img: Image, new': Image, f: Node, lo: nat, hi: nat, lo': nat, hi': nat)
    requires Rewritten(img, new', f, lo, hi) && lo' <= lo <= hi <= hi'
    ensures Rewritten(img, new', f, lo', hi')
  {
  }

  /** Resizing upwards keeps every mapped byte. */
  lemma CutBytes(img: Image, new': Image, f: Node, newsize: nat)
    requires IsNode(f) && Trimmed(img, f) && Size(img, f) <= newsize && CutRefs(img, new', f, BlockCount(newsize))
    ensures BytesSame(img, new', f, 0, 0)
  {
    forall g: Node, k: nat, o: nat | IsNode(g) && g.Entry? && Byte(img, g, k, o) != -1
      ensures Byte(new', g, k, o) == Byte(img, g, k, o)
    {
      BlocksBound(newsize, k);
      assert Outside(Slot(g, k), f, BlockCount(newsize));
      assert Target(new', Slot(g, k)) == Target(img, Slot(g, k));
    }
  }

  lemma ThenRewritten(a: Image, b: Image, c: Image, f: Node, lo: nat, hi: nat)
    requires IsNode(f) && BytesSame(a, b, f, 0, 0) && OthersSame(a, b, f) && SameOtherInfos(a, b, f)
      && SameLabel(a, b, f)
    requires Home(b, f) != 0
    requires Rewritten(b, c, f, lo, hi)
    ensures BytesSame(a, c, f, lo, hi) && OthersSame(a, c, f)
    ensures SameOtherInfos(a, c, f) && SameLabel(a, c, f) && Size(c, f) == Size(b, f)
  {
    assert SameInfo(b, c, f);
    forall g: Node | IsNode(g) && g != f ensures SameInfo(a, c, g) {
      assert SameInfo(a, b, g) && SameInfo(b, c, g);
    }
    forall g: Node, k: nat, o: nat
      | IsNode(g) && g.Entry? && Byte(a, g, k, o) != -1 && (g != f || BLKSIZE * k + o < lo || hi <= BLKSIZE * k + o)
      ensures Byte(c, g, k, o) == Byte(a, g, k, o)
    {
      assert Byte(b, g, k, o) == Byte(a, g, k, o);
    }
  }

  /** The number of blocks a file of this size takes. */
  function BlockCount(size: nat): nat { (size + BLKSIZE - 1) / BLKSIZE }

  lemma BlocksBound(size: nat, k: nat)
    ensures k < BlockCount(size) <==> BLKSIZE * k < size
  {
  }

  // ---- names in the directory ----

  /** The inner loop of dir_lookup: strcmp with the sixteen names of a block. */
  method FindName(b: Block, name: seq<byte>) returns (j: nat)
    ensures j <= BLKFILES
    ensures j < BLKFILES ==> CString(b, 256 * j) == name
    ensures forall i: nat :: i < j ==> CString(b, 256 * i) != name
  {
    j := 0;
    while j < BLKFILES && CString(b, 256 * j) != name
      invariant j <= BLKFILES && forall i: nat :: i < j ==> CString(b, 256 * i) != name
    {
      j := j + 1;
    }
  }

  /** Entry g is called name. */
  ghost predicate Matches(img: Image, g: Node, name: seq<byte>) {
    g.Entry? && IsNode(g) && Home(img, g) != 0 && Name(img, g) == name
  }

  /** No entry before g, block by block, is called name. */
  ghost predicate FirstMatch(img: Image, g: Node, name: seq<byte>) {
    && Matches(img, g, name) && NoneNamed(img, g.i, name)
    && forall j: nat {:trigger Entry(g.i, j)} :: j < g.j ==> Name(img, Entry(g.i, j)) != name
  }

  /** The first n directory blocks are there, and none of their entries is called name. */
  ghost predicate NoneNamed(img: Image, n: nat, name: seq<byte>) {
    n <= MAXBLOCKS && forall i: nat, j: nat {:trigger Entry(i, j)} :: i < n && j < BLKFILES ==>
      Home(img, Entry(i, j)) != 0 && Name(img, Entry(i, j)) != name
  }

  /** Some entry of a directory block is unused. */
  ghost predicate HasRoom(img: Image) {
    exists i: nat, j: nat {:trigger Entry(i, j)} ::
      BLKSIZE * i < Size(img, Root) && IsNode(Entry(i, j)) && Home(img, Entry(i, j)) != 0
        && Char(img, Entry(i, j), 0) == 0
  }

  /** A missing block inside the directory, if there is one, would be filled with decent structs. */
  ghost predicate LookupSafe(img: Image) { forall k: nat :: BLKSIZE * k < Size(img, Root) ==> DirSafe(img, k) }

  /** A complete directory needs no block at all to be searched. */
  lemma CompleteIsSafe(img: Image)
    requires DirComplete(img)
    ensures LookupSafe(img)
  {
  }

  /** The directory's first missing block, inside it or at its end, would be filled with unused entries. */
  ghost predicate DirReady(img: Image) {
    forall k: nat :: (forall i: nat :: i < k ==> Target(img, Slot(Root, i)) != 0) ==> DirVacant(img, k)
  }

  /** Every free block could be a directory block of unused entries. */
  ghost predicate FreeVacant(img: Image) { forall c: nat :: c < |img| && Free(img, c) ==> Vacant(img[c]) }

  lemma VacantIsReady(img: Image)
    requires FreeVacant(img)
    ensures DirReady(img)
  {
    forall k: nat | forall i: nat :: i < k ==> Target(img, Slot(Root, i)) != 0 ensures DirVacant(img, k) {
      forall c: nat | Takes(img, k, c) ensures Vacant(img[c]) {}
    }
  }

  lemma VacantStays(img: Image, new': Image)
    requires FreeVacant(img) && FreeKept(img, new')
    ensures FreeVacant(new')
  {
    assert Open(0);
  }

  /** A file can be created: there is room already, or the next block will bring it. */
  ghost predicate CreateReady(img: Image) { (LookupSafe(img) && HasRoom(img)) || DirReady(img) }

  /** Once its missing block is filled the directory has none missing. */
  lemma SafeAfter(img: Image, new': Image, k: nat)
    requires Directory(img) && Kept(img, new') && LookupSafe(img) && k < MAXBLOCKS && BLKSIZE * k < Size(img, Root)
    requires Target(new', Slot(Root, k)) != 0 && (Target(img, Slot(Root, k)) != 0 ==> new' == img)
    ensures LookupSafe(new')
  {
    assert SameInfo(img, new', Root);
    if new' != img {
      forall i: nat | i < MAXBLOCKS && BLKSIZE * i < Size(img, Root) ensures Target(new', Slot(Root, i)) != 0 {
        assert i != k ==> Target(img, Slot(Root, i)) != 0;
      }
    }
  }

  /** With room or a ready block before, there is room after, unless nothing happened. */
  ghost predicate RoomStays(img: Image, new': Image) {
    new' == img || (HasRoom(img) || DirReady(img) ==> HasRoom(new'))
  }

  lemma ReadyIsSafe(img: Image)
    requires DirReady(img) && Directory(img)
    ensures LookupSafe(img)
  {
    forall k: nat | BLKSIZE * k < Size(img, Root) ensures DirSafe(img, k) {
      forall c: nat | Takes(img, k, c) ensures Decent(img[c]) {
        forall i: nat | i < k ensures Target(img, Slot(Root, i)) != 0 {}
        assert DirVacant(img, k);
      }
    }
  }

  lemma RoomKept(img: Image, new': Image)
    requires Kept(img, new') && HasRoom(img)
    ensures HasRoom(new')
  {
    var i: nat, j: nat :| BLKSIZE * i < Size(img, Root) && IsNode(Entry(i, j)) && Home(img, Entry(i, j)) != 0
      && Char(img, Entry(i, j), 0) == 0;
    assert SameInfo(img, new', Entry(i, j)) && SameInfo(img, new', Root);
  }

  /** Filling the missing block i. */
  lemma RoomAfter(img: Image, new': Image, i: nat)
    requires Kept(img, new') && Directory(img) && i < MAXBLOCKS && BLKSIZE * i < Size(img, Root)
    requires 0 < Target(new', Slot(Root, i)) < |new'|
    requires Target(img, Slot(Root, i)) != 0 ==> new' == img
    requires Target(img, Slot(Root, i)) == 0 ==>
      var c := Target(new', Slot(Root, i)); Takes(img, i, c) && |new'| == |img| && new'[c] == img[c]
    ensures RoomStays(img, new')
  {
    if HasRoom(img) {
      RoomKept(img, new');
    } else if new' != img && DirReady(img) {
      forall l: nat | l < i ensures Target(img, Slot(Root, l)) != 0 {}
      assert DirVacant(img, i);
      var c, f := Target(new', Slot(Root, i)), Entry(i, 0);
      StructReads(new', f, c);
      assert DecentStruct(new'[c], 0);
      assert SameInfo(img, new', Root);
    }
  }

  lemma EntryAt(img: Image, i: nat, j: nat)
    requires IsNode(Entry(i, j)) && 0 < Target(img, Slot(Root, i)) < |img|
    ensures At(img, Ptr(Target(img, Slot(Root, i)), 64 * j), Entry(i, j))
    ensures Name(img, Entry(i, j)) == CString(img[Target(img, Slot(Root, i))], 256 * j)
  {
    EntryHome(img, Entry(i, j));
  }

  /** Names survive whatever keeps the mapped part of the image. */
  lemma NameKept(img: Image, new': Image, f: Node)
    requires Shaped(img) && IsNode(f) && f.Entry? && Home(img, f) != 0 && Kept(img, new')
    ensures Home(new', f) == Home(img, f) && Name(new', f) == Name(img, f)
  {
    EntryHome(img, f);
    EntryHome(new', f);
    assert SameInfo(img, new', f);
    SameName(img, new', f);
  }

  lemma NoneKept(img: Image, new': Image, n: nat, name: seq<byte>)
    requires Shaped(img) && Kept(img, new') && NoneNamed(img, n, name)
    ensures NoneNamed(new', n, name)
  {
    forall i: nat, j: nat | i < n && j < BLKFILES
      ensures Home(new', Entry(i, j)) != 0 && Name(new', Entry(i, j)) != name
    {
      NameKept(img, new', Entry(i, j));
    }
  }

  lemma NoneMore(img: Image, i: nat, name: seq<byte>)
    requires NoneNamed(img, i, name) && i < MAXBLOCKS && 0 < Target(img, Slot(Root, i)) < |img|
    requires forall j: nat :: j < BLKFILES ==> CString(img[Target(img, Slot(Root, i))], 256 * j) != name
    ensures NoneNamed(img, i + 1, name)
  {
    forall j: nat | j < BLKFILES ensures Home(img, Entry(i, j)) != 0 && Name(img, Entry(i, j)) != name {
      EntryAt(img, i, j);
    }
  }

  lemma FirstHere(img: Image, i: nat, j: nat, name: seq<byte>)
    requires NoneNamed(img, i, name) && IsNode(Entry(i, j)) && 0 < Target(img, Slot(Root, i)) < |img|
    requires CString(img[Target(img, Slot(Root, i))], 256 * j) == name
    requires forall l: nat :: l < j ==> CString(img[Target(img, Slot(Root, i))], 256 * l) != name
    ensures FirstMatch(img, Entry(i, j), name)
  {
    EntryAt(img, i, j);
    forall l: nat | l < j ensures Name(img, Entry(i, l)) != name {
      EntryAt(img, i, l);
    }
  }

  lemma CompleteNow(img: Image, n: nat, name: seq<byte>)
    requires Directory(img) && n == Size(img, Root) / BLKSIZE && NoneNamed(img, n, name)
    ensures DirComplete(img)
  {
    forall i: nat | i < MAXBLOCKS && BLKSIZE * i < Size(img, Root) ensures Target(img, Slot(Root, i)) != 0 {
      EntryHome(img, Entry(i, 0));
    }
  }

  method FindUnused(b: Block) returns (j: nat)
    ensures j <= BLKFILES
    ensures j < BLKFILES ==> b[256 * j] == 0
    ensures forall i: nat :: i < j ==> b[256 * i] != 0
  {
    j := 0;
    while j < BLKFILES && b[256 * j] != 0
      invariant j <= BLKFILES && forall i: nat :: i < j ==> b[256 * i] != 0
    {
      j := j + 1;
    }
  }

  ghost predicate Unused(img: Image, g: Node) { g.Entry? && IsNode(g) && Home(img, g) != 0 && Char(img, g, 0) == 0 }

  lemma FirstChars(img: Image, i: nat)
    requires i < MAXBLOCKS && 0 < Target(img, Slot(Root, i)) < |img|
    ensures forall l: nat {:trigger Entry(i, l)} :: l < BLKFILES ==>
      Char(img, Entry(i, l), 0) == img[Target(img, Slot(Root, i))][256 * l]
  {
    forall l: nat | l < BLKFILES ensures Char(img, Entry(i, l), 0) == img[Target(img, Slot(Root, i))][256 * l] {
      EntryAt(img, i, l);
      CharIs(img, Entry(i, l), 0);
    }
  }

  /** Everything mapped stays; only the directory's own size may change. */
  ghost predicate KeptFiles(img: Image, new': Image) {
    && SameOtherInfos(img, new', Root) && SameLabel(img, new', Root) && SameData(img, new')
    && forall r: Ref {:trigger Target(new', r)} :: IsRef(r) && Target(img, r) != 0 ==> Target(new', r) == Target(img, r)
  }

  lemma KeptFilesThen(a: Image, b: Image, c: Image)
    requires KeptFiles(a, b) && Kept(b, c)
    ensures KeptFiles(a, c)
  {
    assert SameInfo(b, c, Root);
    forall f: Node | IsNode(f) && f != Root ensures SameInfo(a, c, f) {
      assert SameInfo(a, b, f) && SameInfo(b, c, f);
    }
    forall f: Node, k: nat {:trigger Target(a, Slot(f, k))} | IsRef(Slot(f, k)) && f.Entry?
      && 0 < Target(a, Slot(f, k)) < |a|
      ensures c[Target(a, Slot(f, k))] == a[Target(a, Slot(f, k))]
    {
      assert Target(b, Slot(f, k)) == Target(a, Slot(f, k));
    }
  }

  /** Growing the size does not change which block the directory would take, nor what is in it. */
  lemma ReadyGrown(img: Image, new': Image, n: nat)
    requires 3 <= |img| && DirReady(img) && DirComplete(img) && n == Size(img, Root) / BLKSIZE
      && Size(img, Root) % BLKSIZE == 0
    requires SameTargets(img, new') && OnlyBlock(img, new', 1) && !Free(img, 1)
    ensures DirVacant(new', n) && DirSafe(new', n)
  {
    forall c: nat ensures Free(new', c) == Free(img, c) {}
    forall c: nat ensures First(new', c) == First(img, c) {}
    forall c: nat | Second(new', c) ensures Second(img, c) {}
    forall c: nat | Takes(new', n, c) ensures Vacant(new'[c]) {
      forall i: nat | i < n ensures Target(img, Slot(Root, i)) != 0 {}
      assert Target(new', Slot(Root, n)) == Target(img, Slot(Root, n))
        && Target(new', Ind(Root)) == Target(img, Ind(Root));
      assert Takes(img, n, c);
      assert DirVacant(img, n);
    }
  }

  /** The entries of the block the directory grew into are unused. */
  lemma FreshEntries(new': Image, n: nat, j: nat)
    requires n < MAXBLOCKS && j < BLKFILES && 0 < Target(new', Slot(Root, n)) < |new'|
      && Vacant(new'[Target(new', Slot(Root, n))])
    ensures Unused(new', Entry(n, j)) && At(new', Ptr(Target(new', Slot(Root, n)), 64 * j), Entry(n, j))
  {
    StructReads(new', Entry(n, j), Target(new', Slot(Root, n)));
    assert DecentStruct(new'[Target(new', Slot(Root, n))], j);
  }

  /** Entries that were not there before are unused. */
  ghost predicate FreshUnused(img: Image, new': Image) {
    forall h: Node :: IsNode(h) && h.Entry? && Home(img, h) == 0 && Home(new', h) != 0 ==> Char(new', h, 0) == 0
  }

  /** A complete directory that got its next block is complete. */
  lemma CompleteGrown(img: Image, mid: Image, new': Image, n: nat)
    requires DirComplete(img) && Size(img, Root) == BLKSIZE * n && n < MAXBLOCKS
    requires SameTargets(img, mid) && Size(mid, Root) == BLKSIZE * n + BLKSIZE && Kept(mid, new')
    requires Target(new', Slot(Root, n)) != 0
    ensures DirComplete(new') && BLKSIZE * n < Size(new', Root)
  {
    assert SameInfo(mid, new', Root);
    forall i: nat | i < MAXBLOCKS && BLKSIZE * i < Size(new', Root) ensures Target(new', Slot(Root, i)) != 0 {
      assert i != n ==> Target(mid, Slot(Root, i)) == Target(img, Slot(Root, i)) != 0;
    }
  }

  lemma GrownFresh(img: Image, mid: Image, new': Image, n: nat)
    requires SameTargets(img, mid) && SameBut(mid, new', Root, n) && DirVacant(mid, n) && |new'| == |mid|
    requires Target(new', Slot(Root, n)) != 0 && n < MAXBLOCKS && Target(mid, Slot(Root, n)) == 0 ==>
      var c := Target(new', Slot(Root, n)); c < |new'| && Takes(mid, n, c) && new'[c] == mid[c]
    ensures FreshUnused(img, new')
  {
    forall h: Node | IsNode(h) && h.Entry? && Home(img, h) == 0 && Home(new', h) != 0 ensures Char(new', h, 0) == 0 {
      HomeFollows(img, mid, h);
      EntryHome(mid, h);
      EntryHome(new', h);
      assert h.i == n;
      FreshEntries(new', n, h.j);
    }
  }

  lemma NoFresh(img: Image, new': Image)
    requires DirComplete(img) ==> new' == img
    ensures DirComplete(img) ==> FreshUnused(img, new')
  {
  }

  lemma FreshThen(img: Image, mid: Image, new': Image)
    requires DirComplete(img) ==> mid == img
    requires FreshUnused(mid, new')
    ensures DirComplete(img) ==> FreshUnused(img, new')
  {
  }

  /** The first n directory blocks are there, and all their entries are in use. */
  ghost predicate FullTo(img: Image, n: nat) {
    && n <= MAXBLOCKS && (forall l: nat :: l < n ==> Target(img, Slot(Root, l)) != 0)
    && forall l: nat, j: nat {:trigger Entry(l, j)} :: l < n && j < BLKFILES ==> Char(img, Entry(l, j), 0) != 0
  }

  lemma FullMore(was: Image, img: Image, i: nat)
    requires Kept(was, img) && FullTo(was, i) && i < MAXBLOCKS && Target(img, Slot(Root, i)) != 0
    requires forall j: nat {:trigger Entry(i, j)} :: j < BLKFILES ==> Char(img, Entry(i, j), 0) != 0
    ensures FullTo(img, i + 1)
  {
    forall l: nat, j: nat {:trigger Entry(l, j)} | l < i && j < BLKFILES ensures Char(img, Entry(l, j), 0) != 0 {
      EntryHome(was, Entry(l, j));
      assert SameInfo(was, img, Entry(l, j));
    }
  }

  lemma FullHasNoRoom(img: Image, n: nat)
    requires FullTo(img, n) && n == Size(img, Root) / BLKSIZE && Size(img, Root) % BLKSIZE == 0
    ensures !HasRoom(img) && DirComplete(img)
  {
  }

  // ---- path names ----

  const SLASH: byte := 47
  const MAXNAMELEN := 128

  function SkipSlash(p: seq<byte>): (q: seq<byte>)
    ensures |q| <= |p| && (q != [] ==> q[0] != SLASH)
  {
    if p != [] && p[0] == SLASH then SkipSlash(p[1..]) else p
  }

  function NameLen(p: seq<byte>): (n: nat)
    ensures n <= |p| && (p != [] && p[0] != SLASH ==> n > 0)
  {
    if p == [] || p[0] == SLASH then 0 else 1 + NameLen(p[1..])
  }

  /** The names between slashes. */
  function Components(p: seq<byte>): seq<seq<byte>>
    decreases |p|
  {
    var q := SkipSlash(p);
    if q == [] then [] else [q[..NameLen(q)]] + Components(q[NameLen(q)..])
  }

  lemma {:induction false} SkipText(p: seq<byte>)
    requires Text(p)
    ensures Text(SkipSlash(p)) && SkipSlash(SkipSlash(p)) == SkipSlash(p)
    decreases |p|
  {
    if p != [] && p[0] == SLASH { SkipText(p[1..]); }
  }

  lemma ComponentsSkip(p: seq<byte>)
    ensures Components(SkipSlash(p)) == Components(p)
  {
    assert SkipSlash(SkipSlash(p)) == SkipSlash(p);
  }

  /** Taking one component off a path that starts with one. */
  lemma NameText(p: seq<byte>)
    requires Text(p) && p != [] && SkipSlash(p) == p
    ensures var n, rest := NameLen(p), SkipSlash(p[NameLen(p)..]);
            && 0 < n && Text(p[..n]) && Text(rest) && SkipSlash(rest) == rest && |rest| < |p|
            && Components(p) == [p[..n]] + Components(rest)
  {
    SkipText(p[NameLen(p)..]);
    ComponentsSkip(p[NameLen(p)..]);
  }

  ghost predicate Resolves(img: Image, c: seq<seq<byte>>, g: Node) {
    if c == [] then g == Root else |c| == 1 && Matches(img, g, c[0])
  }

  predicate LongName(c: seq<seq<byte>>) { exists i :: 0 <= i < |c| && |c[i]| >= MAXNAMELEN }

  /** Walking c has brought us to g, with `left` still to go. */
  ghost predicate WalkedTo(img: Image, c: seq<seq<byte>>, left: seq<seq<byte>>, g: Node) {
    if g == Root then c == left else |c| > 0 && c[1..] == left && Matches(img, g, c[0])
  }

  lemma LongHere(img: Image, c: seq<seq<byte>>, left: seq<seq<byte>>, g: Node)
    requires WalkedTo(img, c, left, g) && left != [] && |left[0]| >= MAXNAMELEN
    ensures LongName(c)
  {
    if g == Root {
      assert c[0] == left[0];
    } else {
      assert c[1] == left[0];
    }
  }

  /** g is the one entry called name. */
  ghost predicate OnlyNamed(img: Image, g: Node, name: seq<byte>) {
    && Matches(img, g, name)
    && forall h: Node :: IsNode(h) && h.Entry? && h != g && Home(img, h) != 0 ==> Name(img, h) != name
  }

  /** Everything mapped stays, for all files but g and the size of the directory. */
  ghost predicate Created(img: Image, new': Image, g: Node) {
    && SameLabel(img, new', Root) && SameData(img, new')
    && (forall f: Node :: IsNode(f) && f != g && f != Root ==> SameInfo(img, new', f))
    && forall r: Ref {:trigger Target(new', r)} :: IsRef(r) && Target(img, r) != 0 ==> Target(new', r) == Target(img, r)
  }

  lemma KeptIsKeptFiles(img: Image, new': Image)
    requires Kept(img, new')
    ensures KeptFiles(img, new')
  {
    assert SameInfo(img, new', Root);
  }

  lemma KeptThenFiles(a: Image, b: Image, c: Image)
    requires Kept(a, b) && KeptFiles(b, c)
    ensures KeptFiles(a, c)
  {
    assert SameInfo(a, b, Root);
    forall f: Node | IsNode(f) && f != Root ensures SameInfo(a, c, f) {
      assert SameInfo(a, b, f) && SameInfo(b, c, f);
    }
    DataTwice(a, b, c);
  }

  lemma DataTwice(a: Image, b: Image, c: Image)
    requires SameData(a, b) && SameData(b, c)
    requires forall r: Ref {:trigger Target(b, r)} :: IsRef(r) && Target(a, r) != 0 ==> Target(b, r) == Target(a, r)
    ensures SameData(a, c)
  {
    forall f: Node, k: nat {:trigger Target(a, Slot(f, k))} | IsRef(Slot(f, k)) && f.Entry?
      && 0 < Target(a, Slot(f, k)) < |a|
      ensures c[Target(a, Slot(f, k))] == a[Target(a, Slot(f, k))]
    {
      assert Target(b, Slot(f, k)) == Target(a, Slot(f, k));
    }
  }

  lemma CreatedNow(a: Image, c: Image, d: Image, g: Node)
    requires g != Root && KeptFiles(a, c) && SameTargets(c, d) && SameData(c, d) && SameOtherInfos(c, d, g)
    ensures Created(a, d, g)
  {
    assert SameInfo(c, d, Root);
    forall f: Node | IsNode(f) && f != g && f != Root ensures SameInfo(a, d, f) {
      assert SameInfo(a, c, f) && SameInfo(c, d, f);
    }
    DataTwice(a, c, d);
  }

  lemma CreatedThen(a: Image, d: Image, e: Image, g: Node)
    requires Created(a, d, g) && Kept(d, e)
    ensures Created(a, e, g)
  {
    assert SameInfo(d, e, Root);
    forall f: Node | IsNode(f) && f != g && f != Root ensures SameInfo(a, e, f) {
      assert SameInfo(a, d, f) && SameInfo(d, e, f);
    }
    DataTwice(a, d, e);
  }

  lemma CreatedAfter(a: Image, b: Image, c: Image, g: Node)
    requires Kept(a, b) && Created(b, c, g)
    ensures Created(a, c, g)
  {
    assert SameInfo(a, b, Root);
    forall f: Node | IsNode(f) && f != g && f != Root ensures SameInfo(a, c, f) {
      assert SameInfo(a, b, f) && SameInfo(b, c, f);
    }
    DataTwice(a, b, c);
  }

  /** An entry unused now was unused, or not there, before. */
  lemma WasUnused(img: Image, new': Image, g: Node)
    requires IsNode(g) && g.Entry? && Char(new', g, 0) == 0 && (SameInfos(img, new') || SameOtherInfos(img, new', Root))
    ensures Char(img, g, 0) == 0
  {
    assert SameInfo(img, new', g);
    if Home(img, g) == 0 { Unseated(img, g); }
  }

  lemma EmptyName(img: Image, f: Node)
    requires IsNode(f) && f.Entry? && 0 < Home(img, f) < |img| && Char(img, f, 0) == 0
    ensures Name(img, f) == []
  {
    CharIs(img, f, 0);
  }

  /** An entry keeps its name if its struct and block do; an unused one has none. */
  lemma NameThen(img: Image, new': Image, owner: map<nat, Ref>, h: Node, name: seq<byte>)
    requires Shaped(img) && Owned(new', owner, 0) && |new'| == |img| && SameInfo(img, new', h) && name != []
    requires IsNode(h) && h.Entry? && Home(new', h) != 0 && (Home(img, h) == 0 ==> Char(new', h, 0) == 0)
    requires Home(img, h) != 0 ==> Name(img, h) != name
    ensures Name(new', h) != name
  {
    EntryHome(new', h);
    if Home(img, h) != 0 {
      SameName(img, new', h);
    } else {
      EmptyName(new', h);
    }
  }

  lemma NamedOnce(b: Image, c: Image, d: Image, ownerC: map<nat, Ref>, ownerD: map<nat, Ref>, g: Node, name: seq<byte>)
    requires Shaped(b) && Shaped(c) && Owned(c, ownerC, 0) && Owned(d, ownerD, 0) && |b| == |c| == |d| && name != []
    requires Missing(b, name) && KeptFiles(b, c) && FreshUnused(b, c)
    requires SameTargets(c, d) && SameOtherInfos(c, d, g) && Matches(d, g, name)
    ensures OnlyNamed(d, g, name)
  {
    forall h: Node | IsNode(h) && h.Entry? && h != g && Home(d, h) != 0 ensures Name(d, h) != name {
      EntryHome(b, h);
      HomeFollows(c, d, h);
      assert SameInfo(b, c, h) && SameInfo(c, d, h);
      assert Home(b, h) != 0 ==> Name(b, h) != name;
      NameThen(b, c, ownerC, h, name);
      NameThen(c, d, ownerD, h, name);
    }
  }

  lemma StillNamed(d: Image, e: Image, owner: map<nat, Ref>, g: Node, name: seq<byte>)
    requires Shaped(d) && Owned(e, owner, 0) && |d| == |e| && Kept(d, e) && SameExcept(d, e, Ind(Root))
      && OnlyNamed(d, g, name)
    requires name != []
    ensures OnlyNamed(e, g, name)
  {
    NameKept(d, e, g);
    forall h: Node | IsNode(h) && h.Entry? && h != g && Home(e, h) != 0 ensures Name(e, h) != name {
      HomeFollows(d, e, h);
      assert SameInfo(d, e, h);
      NameThen(d, e, owner, h, name);
    }
  }

  /** The directory is complete and has no entry of that name. */
  ghost predicate Missing(img: Image, name: seq<byte>) {
    DirComplete(img) && NoneNamed(img, Size(img, Root) / BLKSIZE, name)
  }

  lemma KindReads(img: Image, f: Node)
    requires Home(img, f) != 0
    ensures Kind(img, f) == W(img, Home(img, f), Base(f) + TYPE)
  {
    assert Open(0);
  }

  // ---- consequences of the invariant ----

  /** No block is named twice, and no block a file names is free, in memory or on disk. */
  lemma NamedOnceAndInUse(st: Store, img: Image, owner: map<nat, Ref>, r: Ref, s: Ref)
    requires Cached(st, img) && Sound(img, owner, 0) && IsRef(r) && IsRef(s) && r != s && Target(img, r) != 0
    ensures Target(img, s) != Target(img, r) && 3 <= Target(img, r) < |img|
    ensures !Free(img, Target(img, r)) && !BitAt(st.disk[2], Target(img, r))
  {
  }

  /** Nothing leaks: a block is in use exactly when it is reserved or some file names it. */
  lemma NothingLeaks(img: Image, owner: map<nat, Ref>, b: nat)
    requires Sound(img, owner, 0) && b < |img|
    ensures !Free(img, b) <==> b < 3 || exists r: Ref :: IsRef(r) && Target(img, r) == b
  {
    if 3 <= b && b in owner { assert Target(img, owner[b]) == b; }
  }

  const FS_MAGIC := 0x4A05_30AE

  class Server {
    var st: Store
    ghost var img: Image
    ghost var owner: map<nat, Ref>

    ghost predicate Valid()
      reads this
    {
      Cached(st, img) && Sound(img, owner, 0)
    }

    /** fs_init on a disk that passes check_super and check_bitmap: the super block and the bitmap are read in. */
    constructor (disk: seq<Block>, ghost owner: map<nat, Ref>)
      requires Sound(disk, owner, 0) && W(disk, 1, 0) == FS_MAGIC && W(disk, 1, 1) == |disk|
      ensures Valid() && img == disk && this.owner == owner && st.disk == disk
    {
      st := Store(disk, seq(|disk|, b requires 0 <= b < |disk| =>
                            if b == 1 || b == 2 then Mapped(disk[b], false) else Absent));
      img, this.owner := disk, owner;
    }

    // ---- fs/bc.c ----

    /** An access to block b: bc_pgfault reads an absent block in. It panics on a block out of range or marked free. */
    method Touch(b: nat)
      requires Cached(st, img) && 0 < b < |img| && !Free(img, b)
      modifies `st
      ensures Cached(st, img) && st.disk == old(st.disk)
      ensures st.page ==
              old(st.page)[b := if old(st.page)[b].Absent? then Mapped(st.disk[b], false) else old(st.page)[b]]
    {
      if st.page[b].Absent? {
        st := st.(page := st.page[b := Mapped(st.disk[b], false)]);
      }
    }

    /** Loading a word of block b. */
    method LoadWord(b: nat, i: nat) returns (w: nat)
      requires Cached(st, img) && 0 < b < |img| && !Free(img, b) && i < BLKWORDS
      modifies `st
      ensures Cached(st, img) && st.disk == old(st.disk)
      ensures w == W(img, b, i)
    {
      Touch(b);
      w := Word(st.page[b].data, i);
    }

    /** Replacing the contents of block b, through the mapping: the hardware sets the dirty bit. */
    method StoreBlock(b: nat, c: Block)
      requires Cached(st, img) && 0 < b < |img| && !Free(img, b)
      requires b == 2 ==> forall d: nat :: d < |img| && BitAt(st.disk[2], d) ==> BitAt(c, d)
      modifies `st, `img
      ensures Cached(st, img) && img == old(img)[b := c] && st.disk == old(st.disk) && st.page[b] == Mapped(c, true)
    {
      Touch(b);
      st := st.(page := st.page[b := Mapped(c, true)]);
      img := img[b := c];
    }

    method StoreWord(b: nat, i: nat, w: nat)
      requires Cached(st, img) && 0 < b < |img| && b != 2 && !Free(img, b) && i < BLKWORDS && w < WORD
      modifies `st, `img
      ensures Cached(st, img) && img == Poke(old(img), b, i, w) && st.disk == old(st.disk)
    {
      Touch(b);
      StoreBlock(b, SetWord(st.page[b].data, i, w));
    }

    /** flush_block: afterwards block b on disk is what loads see. */
    method FlushBlock(b: nat)
      requires Coherent(st, img) && Resident(st) && b < |img|
      modifies `st
      ensures Coherent(st, img) && Resident(st) && st.disk == old(st.disk)[b := img[b]]
      ensures old(Ordered(st, img)) || b == 2 ==> Ordered(st, img)
      ensures st.page[b].Mapped? == old(st.page)[b].Mapped? && (st.page[b].Mapped? ==> !st.page[b].dirty)
    {
      if st.page[b].Mapped? && st.page[b].dirty {
        st := Store(st.disk[b := st.page[b].data], st.page[b := st.page[b].(dirty := false)]);
      }
      assert st.disk == old(st.disk)[b := img[b]];
    }

    // ---- the bitmap ----

    method BlockIsFree(b: nat) returns (r: bool)
      requires Cached(st, img)
      ensures r <==> b < |img| && Free(img, b)
    {
      if b >= |st.disk| {
        return false;
      }
      BitAtIs(img[2], b);
      r := Bit(Word(st.page[2].data, b / 32), b % 32);
    }

    method FreeBlock(b: nat)
      requires Cached(st, img) && 0 < b < |img| && !Free(img, 2)
      modifies `st, `img
      ensures Cached(st, img) && img == MarkBit(old(img), b, true) && st.disk == old(st.disk)
    {
      StoreBlock(2, SetBitAt(st.page[2].data, b, true));
    }

    /** alloc_block takes the first free block, and the bitmap on disk then agrees with the one in memory. */
    method AllocBlock() returns (r: int)
      requires Valid()
      modifies `st, `img
      ensures Cached(st, img)
      ensures r == -E_NO_DISK || r > 0
      ensures r == -E_NO_DISK ==> img == old(img) && forall b: nat :: b < |img| ==> !Free(img, b)
      ensures r > 0 ==> First(old(img), r) && img == MarkBit(old(img), r, false) && Sound(img, owner, r)
      ensures r > 0 ==> st.disk == old(st.disk)[2 := img[2]]
      ensures r <= 0 ==> st.disk == old(st.disk)
    {
      for i := 1 to |st.disk|
        invariant st == old(st) && img == old(img)
        invariant forall b: nat :: b < i ==> !Free(img, b)
      {
        var free := BlockIsFree(i);
        if free {
          SoundAlloc(img, owner, i);
          TakeBit(i);
          return i;
        }
      }
      r := -E_NO_DISK;
    }

    /** Clearing one bit and flushing the bitmap block. */
    method TakeBit(b: nat)
      requires Cached(st, img) && b < |img| && !Free(img, 2)
      modifies `st, `img
      ensures Cached(st, img) && img == MarkBit(old(img), b, false) && st.disk == old(st.disk)[2 := img[2]]
    {
      var c := SetBitAt(st.page[2].data, b, false);
      st := st.(page := st.page[2 := Mapped(c, true)]);
      img := img[2 := c];
      FlushBlock(2);
    }

    // ---- finding a file's blocks ----

    /** The two stores of file_block_walk: the indirect pointer, and zeros in the block it names. */
    method LinkIndirect(p: Ptr, b: nat)
      requires Cached(st, img) && 2 < b < |img| && !Free(img, b) && p.base + INDIRECT < BLKWORDS
      requires 0 < p.blk < |img| && p.blk != 2 && p.blk != b && !Free(img, p.blk)
      modifies `st, `img
      ensures Cached(st, img) && st.disk == old(st.disk)
      ensures img == Poke(old(img), p.blk, p.base + INDIRECT, b)[b := Zeros()]
    {
      StoreWord(p.blk, p.base + INDIRECT, b);
      StoreBlock(b, Zeros());
    }

    /** Storing a new indirect pointer and clearing the block it names. */
    method AddIndirect(p: Ptr, ghost f: Node, b: nat)
      requires Cached(st, img) && Sound(img, owner, b) && b != 0 && At(img, p, f)
      requires Target(img, Ind(f)) == 0 && BLKSIZE * NDIRECT < Size(img, f)
      modifies this
      ensures Valid() && At(img, p, f) && Kept(old(img), img) && SameExcept(old(img), img, Ind(f))
      ensures Target(img, Ind(f)) == b && st.disk == old(st.disk) && SameOwn(old(img), img, f)
      ensures img[2] == old(img)[2] && forall c: nat :: c < |img| && Free(img, c) ==> img[c] == old(img)[c]
    {
      HomeInUse(img, owner, b, Ind(f));
      IndirectGrown(img, owner, b, f);
      LinkIndirect(p, b);
      owner := owner[b := Ind(f)];
      AtKept(old(img), img, p, f);
    }

    /** Allocating a missing indirect block. */
    method NewIndirect(p: Ptr, ghost f: Node) returns (r: int)
      requires Valid() && At(img, p, f) && Target(img, Ind(f)) == 0 && BLKSIZE * NDIRECT < Size(img, f)
      modifies this
      ensures r == -E_NO_DISK || r > 0
      ensures r < 0 ==> img == old(img) && forall b: nat :: b < |img| ==> !Free(img, b)
      ensures r > 0 ==> r == Target(img, Ind(f)) && GrewOnly(old(img), img, Ind(f))
      ensures Valid() && OnlyBlock(old(st.disk), st.disk, 2)
    {
      r := AllocBlock();
      if r > 0 {
        AfterAlloc(old(img), owner, r, p, f);
        ghost var mid := img;
        NoBitmap(old(img), owner, f);
        AddIndirect(p, f, r);
        GrewOnlyAfter(old(img), mid, img, r, Ind(f));
      }
    }

    /**
     * file_block_walk: where the slot for block k of the file is stored, adding the indirect block if it is missing.
     */
    method FileBlockWalk(p: Ptr, ghost f: Node, k: nat) returns (r: int, pb: nat, pi: nat)
      requires Valid() && At(img, p, f) && (k < MAXBLOCKS ==> BLKSIZE * k < Size(img, f))
      modifies this
      ensures Valid() && At(img, p, f)
      ensures img == old(img) || (r == 0 && NDIRECT <= k && GrewOnly(old(img), img, Ind(f)))
      ensures r == -E_INVAL <==> k >= MAXBLOCKS
      ensures r == 0 || r == -E_INVAL || r == -E_NO_DISK
      ensures r == 0 ==> pb == RefHome(img, Slot(f, k)) != 0 && pi == RefWord(Slot(f, k))
      ensures r == -E_NO_DISK ==> Target(img, Slot(f, k)) == 0 && forall b: nat :: b < |img| ==> !Free(img, b)
      ensures OnlyBlock(old(st.disk), st.disk, 2)
      ensures k < MAXBLOCKS && old(Target(img, Slot(f, k))) != 0 ==> st.disk == old(st.disk)
    {
      pb, pi := 0, 0;
      if k >= MAXBLOCKS {
        return -E_INVAL, pb, pi;
      }
      HomeInUse(img, owner, 0, Ind(f));
      if k < NDIRECT {
        return 0, p.blk, p.base + DIRECT + k;
      }
      RefReads(img, Ind(f));
      var ind := LoadWord(p.blk, p.base + INDIRECT);
      if ind == 0 {
        NoTable(img, f);
        ind := NewIndirect(p, f);
        if ind < 0 {
          return ind, pb, pi;
        }
        AtKept(old(img), img, p, f);
      }
      r, pb, pi := 0, ind, k - NDIRECT;
    }

    /** Allocating a data block for a slot that names none. Its contents are whatever the block last held. */
    method NewSlot(p: Ptr, ghost f: Node, ghost k: nat, pb: nat, pi: nat) returns (r: int)
      requires Valid() && At(img, p, f) && k < MAXBLOCKS && BLKSIZE * k < Size(img, f) && Target(img, Slot(f, k)) == 0
      requires pb == RefHome(img, Slot(f, k)) != 0 && pi == RefWord(Slot(f, k))
      requires f.Root? ==> forall b: nat :: First(img, b) ==> Decent(img[b])
      modifies this
      ensures r == -E_NO_DISK || r > 0
      ensures r < 0 ==> img == old(img) && forall b: nat :: b < |img| ==> !Free(img, b)
      ensures r > 0 ==> r == Target(img, Slot(f, k)) && GrewOnly(old(img), img, Slot(f, k))
      ensures Valid() && OnlyBlock(old(st.disk), st.disk, 2)
    {
      r := AllocBlock();
      if r > 0 {
        SlotGrown(old(img), owner, r, p, f, k);
        StoreWord(pb, pi, r);
        owner := owner[r as nat := Slot(f, k)];
      }
    }

    /** The second half of file_get_block: the block in a slot, allocated if there is none. */
    method FillSlot(p: Ptr, ghost f: Node, ghost k: nat, pb: nat, pi: nat) returns (r: int)
      requires Valid() && At(img, p, f) && k < MAXBLOCKS && BLKSIZE * k < Size(img, f)
      requires pb == RefHome(img, Slot(f, k)) != 0 && pi == RefWord(Slot(f, k))
      requires f.Root? && Target(img, Slot(f, k)) == 0 ==> forall b: nat :: First(img, b) ==> Decent(img[b])
      modifies this
      ensures r == -E_NO_DISK || r > 0
      ensures r < 0 ==> Target(img, Slot(f, k)) == 0 && forall b: nat :: b < |img| ==> !Free(img, b)
      ensures r > 0 ==> r == Target(img, Slot(f, k))
      ensures img == old(img) || GrewOnly(old(img), img, Slot(f, k))
      ensures Valid() && OnlyBlock(old(st.disk), st.disk, 2)
      ensures old(Target(img, Slot(f, k))) != 0 ==> st.disk == old(st.disk)
    {
      HomeInUse(img, owner, 0, Slot(f, k));
      RefReads(img, Slot(f, k));
      r := LoadWord(pb, pi);
      if r == 0 {
        r := NewSlot(p, f, k, pb, pi);
      }
    }

    /**
     * file_get_block: the disk block behind block k of the file, allocated if there was none; a block just allocated
     * holds what it last held.
     */
    method FileGetBlock(p: Ptr, ghost f: Node, k: nat) returns (r: int)
      requires Valid() && At(img, p, f) && (k < MAXBLOCKS ==> BLKSIZE * k < Size(img, f))
      requires f.Root? ==> DirSafe(img, k)
      modifies this
      ensures Valid() && At(img, p, f) && Kept(old(img), img) && SameBut(old(img), img, f, k)
        && SameOwn(old(img), img, f)
      ensures r == -E_INVAL || r == -E_NO_DISK || r > 0
      ensures r == -E_INVAL <==> k >= MAXBLOCKS
      ensures r == -E_NO_DISK ==> Target(img, Slot(f, k)) == 0 && forall b: nat :: b < |img| ==> !Free(img, b)
      ensures r > 0 ==> r == Target(img, Slot(f, k)) < |img| && img[r] == old(img)[r]
      ensures r > 0 && f.Root? && old(Target(img, Slot(f, k))) == 0 ==> Takes(old(img), k, r)
      ensures old(Target(img, Slot(f, k))) != 0 && k < MAXBLOCKS ==> img == old(img)
      ensures OnlyBlock(old(st.disk), st.disk, 2)
      ensures FreeKept(old(img), img)
      ensures k < MAXBLOCKS && old(Target(img, Slot(f, k))) != 0 ==> st.disk == old(st.disk)
    {
      var pb, pi;
      r, pb, pi := FileBlockWalk(p, f, k);
      ghost var mid := img;
      Walked(old(img), mid, mid, p, f, k);
      GrewKeepsFree(old(img), mid, Ind(f));
      if r != 0 {
        return;
      }
      if Target(old(img), Ind(f)) == 0 { NoTable(old(img), f); }
      TakenNow(old(img), mid, f, k);
      r := FillSlot(p, f, k, pb, pi);
      GrewKeepsFree(mid, img, Slot(f, k));
      FreeKeptTwice(old(img), mid, img);
      Walked(old(img), mid, img, p, f, k);
    }

    // ---- reading ----

    /** Reading bn bytes at offset o of block k of a file. */
    method ReadPiece(p: Ptr, ghost f: Node, k: nat, o: nat, bn: nat) returns (r: int, piece: seq<byte>)
      requires Valid() && At(img, p, f) && (k < MAXBLOCKS ==> BLKSIZE * k < Size(img, f)) && o + bn <= BLKSIZE
      requires f.Root? ==> DirSafe(img, k)
      modifies this
      ensures Valid() && At(img, p, f) && Kept(old(img), img) && OthersSame(old(img), img, f)
        && SameOwn(old(img), img, f)
      ensures old(Target(img, Slot(f, k))) != 0 && k < MAXBLOCKS ==> img == old(img)
      ensures r == -E_INVAL || r == -E_NO_DISK || r > 0
      ensures r == -E_INVAL <==> k >= MAXBLOCKS
      ensures r == -E_NO_DISK ==> Target(img, Slot(f, k)) == 0 && forall b: nat :: b < |img| ==> !Free(img, b)
      ensures r > 0 ==> r == Target(img, Slot(f, k)) < |img| && piece == img[r][o..o + bn]
      ensures FreeKept(old(img), img)
    {
      piece := [];
      r := FileGetBlock(p, f, k);
      if r > 0 {
        Touch(r);
        piece := st.page[r].data[o..o + bn];
      }
    }

    /** One round of the copying loop, at pos = offset + |buf|: up to the end of that block or of the range. */
    method ReadStep(p: Ptr, ghost f: Node, offset: nat, end: nat, buf: seq<byte>) returns (r: int, more: seq<byte>)
      requires Valid() && At(img, p, f) && offset + |buf| < end <= Size(img, f) && Holds(img, f, offset, buf)
      requires f.Root? ==> LookupSafe(img)
      modifies this
      ensures Valid() && At(img, p, f) && Kept(old(img), img) && OthersSame(old(img), img, f)
      ensures Size(img, f) == old(Size(img, f)) && Holds(img, f, offset, buf) && (r > 0 && f.Root? ==> LookupSafe(img))
      ensures r == -E_INVAL || r == -E_NO_DISK || r > 0
      ensures r == -E_INVAL ==> end > BLKSIZE * MAXBLOCKS
      ensures r == -E_NO_DISK ==> forall b: nat :: b < |img| ==> !Free(img, b)
      ensures r < 0 ==> Gap(img, f, offset, end)
      ensures r > 0 ==> 0 < |more| <= end - offset - |buf| && Holds(img, f, offset, buf + more)
      ensures FreeKept(old(img), img)
    {
      var pos := offset + |buf|;
      var k, o := pos / BLKSIZE, pos % BLKSIZE;
      var bn := if BLKSIZE - o < end - pos then BLKSIZE - o else end - pos;
      r, more := ReadPiece(p, f, k, o, bn);
      assert SameInfo(old(img), img, f);
      HoldsKept(old(img), img, f, offset, buf);
      if r > 0 {
        HoldsMore(img, f, offset, buf, k, o, more);
        if f.Root? { SafeAfter(old(img), img, k); }
      } else {
        assert Byte(img, f, k, o) == -1;
      }
    }

    /** The copying loop of file_read. */
    method ReadLoop(p: Ptr, ghost f: Node, n: nat, offset: nat) returns (r: int, buf: seq<byte>)
      requires Valid() && At(img, p, f) && (f.Root? ==> LookupSafe(img)) && offset + n <= Size(img, f)
      modifies this
      ensures Valid() && At(img, p, f) && Kept(old(img), img) && OthersSame(old(img), img, f)
      ensures Holds(img, f, offset, buf) && Size(img, f) == old(Size(img, f))
      ensures r == -E_INVAL || r == -E_NO_DISK || r == |buf| == n
      ensures r == -E_INVAL ==> offset + n > BLKSIZE * MAXBLOCKS
      ensures r == -E_NO_DISK ==> forall b: nat :: b < |img| ==> !Free(img, b)
      ensures r < 0 ==> |buf| < n && Gap(img, f, offset, offset + n)
      ensures FreeKept(old(img), img)
    {
      buf := [];
      KeptSelf(img);
      while |buf| < n
        invariant Valid() && At(img, p, f) && Kept(old(img), img) && OthersSame(old(img), img, f)
        invariant FreeKept(old(img), img)
        invariant Size(img, f) == old(Size(img, f)) && |buf| <= n && Holds(img, f, offset, buf)
        invariant f.Root? ==> LookupSafe(img)
        decreases n - |buf|
      {
        ghost var was := img;
        var more;
        r, more := ReadStep(p, f, offset, offset + n, buf);
        KeptTwice(old(img), was, img);
        FreeKeptTwice(old(img), was, img);
        if r < 0 {
          return;
        }
        buf := buf + more;
      }
      r := n;
    }

    /**
     * file_read: the bytes of the file from offset on, at most count of them and none past the end. Nothing already
     * mapped changes; a hole in the range is given a block.
     */
    method FileRead(p: Ptr, ghost f: Node, count: nat, offset: nat) returns (r: int, buf: seq<byte>)
      requires Valid() && At(img, p, f) && (f.Root? ==> LookupSafe(img))
      modifies this
      ensures Valid() && At(img, p, f) && Kept(old(img), img) && OthersSame(old(img), img, f)
      ensures Holds(img, f, offset, buf)
      ensures r == -E_INVAL || r == -E_NO_DISK || r == |buf| == Available(Size(img, f), count, offset)
      ensures r >= 0 ==> r <= count && (r > 0 ==> offset + r <= Size(img, f))
      ensures 0 <= r < count ==> offset + r >= Size(img, f)
      ensures r >= 0 && offset == 0 && count >= Size(img, f) ==> r == Size(img, f)
      ensures r == -E_INVAL ==> offset + count > BLKSIZE * MAXBLOCKS
      ensures r == -E_NO_DISK ==> forall b: nat :: b < |img| ==> !Free(img, b)
      ensures r < 0 ==> |buf| < count && Gap(img, f, offset, offset + count)
      ensures FreeKept(old(img), img)
    {
      HomeInUse(img, owner, 0, Ind(f));
      SizeReads(img, f);
      var size := LoadWord(p.blk, p.base + SIZE);
      if offset >= size {
        KeptSelf(img);
        return 0, [];
      }
      var n := if count < size - offset then count else size - offset;
      r, buf := ReadLoop(p, f, n, offset);
      if r < 0 {
        GapWider(img, f, offset, offset + n, offset + count);
      }
    }

    // ---- resizing ----

    /** free_block, then zeroing the reference that named the block. */
    method Release(ghost r: Ref, b: nat, pb: nat, pi: nat)
      requires Valid() && IsRef(r) && r.f.Entry? && b == Target(img, r) != 0 && (r.Ind? ==> NoIndirects(img, r.f))
      requires pb == RefHome(img, r) != 0 && pi == RefWord(r)
      modifies this
      ensures Valid() && Target(img, r) == 0 && SameExcept(old(img), img, r)
      ensures SameInfos(old(img), img) && SameData(old(img), img) && st.disk == old(st.disk)
    {
      SoundRelease(img, owner, r);
      FreeBlock(b);
      StoreWord(pb, pi, 0);
      owner := owner - {b};
    }

    /** Freeing the block in a slot, if there is one. */
    method FreeSlot(p: Ptr, ghost f: Node, ghost k: nat, pb: nat, pi: nat, ghost lo: nat)
      requires Valid() && At(img, p, f) && f.Entry? && lo <= k < MAXBLOCKS
      requires pb == RefHome(img, Slot(f, k)) != 0 && pi == RefWord(Slot(f, k))
      modifies this
      ensures Valid() && At(img, p, f) && Cut(old(img), img, f, lo)
      ensures Target(img, Slot(f, k)) == 0 && SameExcept(old(img), img, Slot(f, k))
    {
      HomeInUse(img, owner, 0, Slot(f, k));
      RefReads(img, Slot(f, k));
      var b := LoadWord(pb, pi);
      CutGrew(img, img, f, lo);
      if b != 0 {
        Release(Slot(f, k), b, pb, pi);
        CutOne(old(img), img, f, Slot(f, k), lo);
        AtCut(old(img), img, p, f, lo);
      }
    }

    /** file_free_block: block k of the file is gone afterwards. Looking for it may add the indirect block. */
    method FileFreeBlock(p: Ptr, ghost f: Node, k: nat, ghost lo: nat) returns (r: int)
      requires Valid() && At(img, p, f) && f.Entry? && lo <= k && (k < MAXBLOCKS ==> BLKSIZE * k < Size(img, f))
      modifies this
      ensures Valid() && At(img, p, f) && Cut(old(img), img, f, lo)
      ensures r == 0 || r == -E_INVAL || r == -E_NO_DISK
      ensures k < MAXBLOCKS ==> Target(img, Slot(f, k)) == 0
      ensures forall l: nat :: l < MAXBLOCKS && l != k ==> Target(img, Slot(f, l)) == old(Target(img, Slot(f, l)))
    {
      var pb, pi;
      r, pb, pi := FileBlockWalk(p, f, k);
      ghost var mid := img;
      CutGrew(old(img), mid, f, lo);
      if r == 0 {
        FreeSlot(p, f, k, pb, pi, lo);
        CutTwice(old(img), mid, img, f, lo);
      }
    }

    /** The loop of file_truncate_blocks: every block from lo on is freed. A failed lookup leaves nothing behind. */
    method FreeTail(p: Ptr, ghost f: Node, lo: nat, hi: nat)
      requires Valid() && At(img, p, f) && f.Entry? && lo <= hi == BlockCount(Size(img, f))
      modifies this
      ensures Valid() && At(img, p, f) && Cut(old(img), img, f, lo)
      ensures forall k: nat :: lo <= k < MAXBLOCKS ==> Target(img, Slot(f, k)) == 0
    {
      KeptSelf(img);
      CutGrew(img, img, f, lo);
      for k := lo to hi
        invariant Valid() && At(img, p, f) && Cut(old(img), img, f, lo) && Size(img, f) == old(Size(img, f))
        invariant forall l: nat :: lo <= l < k && l < MAXBLOCKS ==> Target(img, Slot(f, l)) == 0
      {
        ghost var was := img;
        BlocksBound(Size(img, f), k);
        var _ := FileFreeBlock(p, f, k, lo);
        CutTwice(old(img), was, img, f, lo);
        assert SameInfo(was, img, f);
      }
      forall k: nat | lo <= k < MAXBLOCKS ensures Target(img, Slot(f, k)) == 0 {
        BlocksBound(Size(img, f), k);
      }
    }

    /** file_truncate_blocks: nothing at or past the new block count stays, nor an indirect block no longer needed. */
    method FileTruncateBlocks(p: Ptr, ghost f: Node, newsize: nat)
      requires Valid() && At(img, p, f) && f.Entry? && newsize < Size(img, f)
      modifies this
      ensures Valid() && At(img, p, f) && Cut(old(img), img, f, BlockCount(newsize))
      ensures forall k: nat :: BlockCount(newsize) <= k < MAXBLOCKS ==> Target(img, Slot(f, k)) == 0
      ensures BlockCount(newsize) <= NDIRECT ==> Target(img, Ind(f)) == 0
    {
      HomeInUse(img, owner, 0, Ind(f));
      SizeReads(img, f);
      var size := LoadWord(p.blk, p.base + SIZE);
      var lo := BlockCount(newsize);
      FreeTail(p, f, lo, BlockCount(size));
      ghost var mid := img;
      HomeInUse(img, owner, 0, Ind(f));
      RefReads(img, Ind(f));
      var ind := LoadWord(p.blk, p.base + INDIRECT);
      if lo <= NDIRECT && ind != 0 {
        Release(Ind(f), ind, p.blk, p.base + INDIRECT);
        CutOne(mid, img, f, Ind(f), lo);
        CutTwice(old(img), mid, img, f, lo);
        AtCut(mid, img, p, f, lo);
      }
    }

    /** Storing f_size. */
    method NewSize(p: Ptr, ghost f: Node, newsize: nat)
      requires Valid() && At(img, p, f) && f.Entry? && Char(img, f, 0) != 0 && Fits(img, f, newsize)
      modifies this
      ensures Valid() && At(img, p, f) && Size(img, f) == newsize
      ensures SameTargets(old(img), img) && SameData(old(img), img)
      ensures SameOtherInfos(old(img), img, f) && SameLabel(old(img), img, f)
      ensures FreeKept(old(img), img)
    {
      HomeInUse(img, owner, 0, Ind(f));
      SetSizeEffect(img, owner, 0, f, newsize);
      SoundSize(img, owner, f, newsize);
      StoreWord(p.blk, p.base + SIZE, newsize);
      RefHomeSame(old(img), img, Ind(f));
      StoreKeepsFree(old(img), img, p.blk);
    }

    /** file_set_size: the new size, nothing past it, and every block below the new block count kept. */
    method FileSetSize(p: Ptr, ghost f: Node, newsize: nat)
      requires Valid() && At(img, p, f) && f.Entry? && Char(img, f, 0) != 0 && newsize < OFF_MAX
      modifies this
      ensures Valid() && At(img, p, f)
      ensures Size(img, f) == newsize && SameOtherInfos(old(img), img, f) && SameLabel(old(img), img, f)
      ensures CutRefs(old(img), img, f, BlockCount(newsize))
      ensures forall k: nat :: BlockCount(newsize) <= k < MAXBLOCKS ==> Target(img, Slot(f, k)) == 0
      ensures newsize < old(Size(img, f)) && BlockCount(newsize) <= NDIRECT ==> Target(img, Ind(f)) == 0
      ensures p.blk < |img| && st.disk[p.blk] == img[p.blk]
      ensures old(Size(img, f)) <= newsize ==> FreeKept(old(img), img)
    {
      HomeInUse(img, owner, 0, Ind(f));
      SizeReads(img, f);
      var size := LoadWord(p.blk, p.base + SIZE);
      KeptSelf(img);
      CutGrew(img, img, f, BlockCount(newsize));
      if size > newsize {
        FileTruncateBlocks(p, f, newsize);
      }
      ghost var mid := img;
      FitsNow(old(img), img, f, newsize);
      NewSize(p, f, newsize);
      CutThenSize(old(img), mid, img, f, BlockCount(newsize));
      FlushBlock(p.blk);
    }

    // ---- writing ----

    /** The memmove into block b, which is block k of a regular file. */
    method Overwrite(p: Ptr, ghost f: Node, ghost k: nat, o: nat, piece: seq<byte>, b: nat)
      requires Valid() && At(img, p, f) && f.Entry? && IsRef(Slot(f, k)) && b == Target(img, Slot(f, k)) != 0
      requires o + |piece| <= BLKSIZE
      modifies this
      ensures Valid() && At(img, p, f) && Rewritten(old(img), img, f, BLKSIZE * k + o, BLKSIZE * k + o + |piece|)
      ensures b == Target(img, Slot(f, k)) < |img| && piece == img[b][o..o + |piece|]
      ensures FreeKept(old(img), img)
    {
      SpliceBytes(img, owner, f, k, o, piece);
      Touch(b);
      StoreBlock(b, Splice(st.page[b].data, o, piece));
      RefHomeSame(old(img), img, Ind(f));
      StoreKeepsFree(old(img), img, b);
    }

    /** Writing a piece at offset o of block k of a regular file. */
    method WritePiece(p: Ptr, ghost f: Node, k: nat, o: nat, piece: seq<byte>) returns (r: int)
      requires Valid() && At(img, p, f) && f.Entry? && (k < MAXBLOCKS ==> BLKSIZE * k < Size(img, f))
        && o + |piece| <= BLKSIZE
      modifies this
      ensures Valid() && At(img, p, f) && Rewritten(old(img), img, f, BLKSIZE * k + o, BLKSIZE * k + o + |piece|)
      ensures r == -E_INVAL || r == -E_NO_DISK || r > 0
      ensures r == -E_INVAL <==> k >= MAXBLOCKS
      ensures r == -E_NO_DISK ==> Target(img, Slot(f, k)) == 0 && forall b: nat :: b < |img| ==> !Free(img, b)
      ensures r > 0 ==> r == Target(img, Slot(f, k)) < |img| && piece == img[r][o..o + |piece|]
      ensures FreeKept(old(img), img)
    {
      r := FileGetBlock(p, f, k);
      ghost var mid := img;
      KeptRewritten(old(img), mid, f, BLKSIZE * k + o, BLKSIZE * k + o + |piece|);
      if r > 0 {
        Overwrite(p, f, k, o, piece, r);
        RewrittenTwice(old(img), mid, img, f, BLKSIZE * k + o, BLKSIZE * k + o + |piece|);
        FreeKeptTwice(old(img), mid, img);
      }
    }

    /** One round of the copying loop, at pos = offset + n: up to the end of that block or of the buffer. */
    method WriteStep(p: Ptr, ghost f: Node, buf: seq<byte>, offset: nat, n: nat) returns (r: int, m: nat)
      requires Valid() && At(img, p, f) && f.Entry? && n < |buf| && offset + |buf| <= Size(img, f)
      requires Holds(img, f, offset, buf[..n])
      modifies this
      ensures Valid() && At(img, p, f) && Rewritten(old(img), img, f, offset, offset + |buf|)
      ensures r == -E_INVAL || r == -E_NO_DISK || r > 0
      ensures r == -E_INVAL ==> offset + |buf| > BLKSIZE * MAXBLOCKS
      ensures r == -E_NO_DISK ==> forall b: nat :: b < |img| ==> !Free(img, b)
      ensures r > 0 ==> 0 < m <= |buf| - n && Holds(img, f, offset, buf[..n + m])
      ensures r < 0 ==> Gap(img, f, offset, offset + |buf|)
      ensures FreeKept(old(img), img)
    {
      var pos := offset + n;
      var k, o := pos / BLKSIZE, pos % BLKSIZE;
      m := if BLKSIZE - o < |buf| - n then BLKSIZE - o else |buf| - n;
      r := WritePiece(p, f, k, o, buf[n..n + m]);
      if r > 0 {
        HoldsRewritten(old(img), img, f, offset, buf[..n], pos, pos + m);
        HoldsMore(img, f, offset, buf[..n], k, o, buf[n..n + m]);
        assert buf[..n] + buf[n..n + m] == buf[..n + m];
      } else {
        assert Byte(img, f, k, o) == -1;
      }
      RewrittenWider(old(img), img, f, pos, pos + m, offset, offset + |buf|);
    }

    /** The copying loop of file_write. */
    method WriteLoop(p: Ptr, ghost f: Node, buf: seq<byte>, offset: nat) returns (r: int)
      requires Valid() && At(img, p, f) && f.Entry? && offset + |buf| <= Size(img, f)
      modifies this
      ensures Valid() && At(img, p, f) && Rewritten(old(img), img, f, offset, offset + |buf|)
      ensures r == -E_INVAL || r == -E_NO_DISK || (r == |buf| && Holds(img, f, offset, buf))
      ensures r == -E_INVAL ==> offset + |buf| > BLKSIZE * MAXBLOCKS
      ensures r == -E_NO_DISK ==> forall b: nat :: b < |img| ==> !Free(img, b)
      ensures r < 0 ==> Gap(img, f, offset, offset + |buf|)
      ensures FreeKept(old(img), img)
    {
      KeptSelf(img);
      KeptRewritten(img, img, f, offset, offset + |buf|);
      var n := 0;
      while n < |buf|
        invariant Valid() && At(img, p, f) && Rewritten(old(img), img, f, offset, offset + |buf|)
        invariant FreeKept(old(img), img)
        invariant n <= |buf| && Size(img, f) == old(Size(img, f)) && Holds(img, f, offset, buf[..n])
        decreases |buf| - n
      {
        ghost var was := img;
        var m;
        r, m := WriteStep(p, f, buf, offset, n);
        RewrittenTwice(old(img), was, img, f, offset, offset + |buf|);
        FreeKeptTwice(old(img), was, img);
        if r < 0 {
          return;
        }
        assert SameInfo(was, img, f);
        n := n + m;
      }
      assert buf[..n] == buf;
      r := |buf|;
    }

    /** The first part of file_write: extend the file to cover the range. */
    method Extend(p: Ptr, ghost f: Node, end: nat)
      requires Valid() && At(img, p, f) && f.Entry? && Char(img, f, 0) != 0 && end < OFF_MAX
      modifies this
      ensures Valid() && At(img, p, f)
      ensures Size(img, f) == (if old(Size(img, f)) < end then end else old(Size(img, f)))
      ensures BytesSame(old(img), img, f, 0, 0) && OthersSame(old(img), img, f)
      ensures SameOtherInfos(old(img), img, f) && SameLabel(old(img), img, f)
      ensures FreeKept(old(img), img)
    {
      HomeInUse(img, owner, 0, Ind(f));
      SizeReads(img, f);
      var size := LoadWord(p.blk, p.base + SIZE);
      if end > size {
        FileSetSize(p, f, end);
        CutBytes(old(img), img, f, end);
      } else {
        KeptSelf(img);
        KeptRewritten(img, img, f, 0, 0);
      }
    }

    /**
     * file_write: on success the bytes stand in the file at offset. Whatever the outcome the file covers the range,
     * and no other mapped byte of this or any other file changes.
     */
    method FileWrite(p: Ptr, ghost f: Node, buf: seq<byte>, offset: nat) returns (r: int)
      requires Valid() && At(img, p, f) && f.Entry? && Char(img, f, 0) != 0 && offset + |buf| < OFF_MAX
      modifies this
      ensures Valid() && At(img, p, f)
      ensures r == -E_INVAL || r == -E_NO_DISK || (r == |buf| && Holds(img, f, offset, buf))
      ensures r == -E_INVAL ==> offset + |buf| > BLKSIZE * MAXBLOCKS
      ensures r == -E_NO_DISK ==> forall b: nat :: b < |img| ==> !Free(img, b)
      ensures BytesSame(old(img), img, f, offset, offset + |buf|) && OthersSame(old(img), img, f)
      ensures Size(img, f) == (if old(Size(img, f)) < offset + |buf| then offset + |buf| else old(Size(img, f)))
      ensures SameOtherInfos(old(img), img, f) && SameLabel(old(img), img, f)
      ensures r < 0 ==> Gap(img, f, offset, offset + |buf|)
      ensures FreeKept(old(img), img)
    {
      Extend(p, f, offset + |buf|);
      ghost var mid := img;
      r := WriteLoop(p, f, buf, offset);
      FreeKeptTwice(old(img), mid, img);
      ThenRewritten(old(img), mid, img, f, offset, offset + |buf|);
    }

    /** Bytes written with file_write come back from file_read. */
    method WriteThenRead(p: Ptr, ghost f: Node, buf: seq<byte>, offset: nat) returns (w: int, r: int, back: seq<byte>)
      requires Valid() && At(img, p, f) && f.Entry? && Char(img, f, 0) != 0 && offset + |buf| < OFF_MAX
      modifies this
      ensures Valid()
      ensures w == |buf| ==> r == |buf| && back == buf
    {
      w := FileWrite(p, f, buf, offset);
      ghost var mid := img;
      r, back := FileRead(p, f, |buf|, offset);
      assert SameInfo(mid, img, f);
      if w == |buf| {
        OwnOfData(mid, img, f);
        HoldsKept(mid, img, f, offset, buf);
        HoldsNoGap(img, f, offset, buf);
        HoldsUnique(img, f, offset, buf, back);
      }
    }

    // ---- flushing ----

    /** Flushing the block a reference names, if it names one. */
    method FlushNamed(ghost r: Ref, pb: nat, pi: nat)
      requires Valid() && IsRef(r) && pb == RefHome(img, r) != 0 && pi == RefWord(r)
      modifies `st
      ensures Valid() && st.disk == DiskAfter(old(st.disk), img, Target(img, r))
    {
      HomeInUse(img, owner, 0, r);
      RefReads(img, r);
      var b := LoadWord(pb, pi);
      if b != 0 {
        FlushBlock(b);
      }
    }

    /** One round of file_flush: block k, if there is one, goes to disk. */
    method FlushStep(p: Ptr, ghost f: Node, k: nat)
      requires Valid() && At(img, p, f) && (k < MAXBLOCKS ==> BLKSIZE * k < Size(img, f))
      modifies this
      ensures Valid() && At(img, p, f)
      ensures img == old(img) || (GrewOnly(old(img), img, Ind(f)) && SameOwn(old(img), img, f))
      ensures DiskMoved(old(st.disk), st.disk, img, f, k)
    {
      var r, pb, pi := FileBlockWalk(p, f, k);
      ghost var mid := st.disk;
      if r == 0 {
        FlushNamed(Slot(f, k), pb, pi);
      }
      DiskSteps(old(st.disk), mid, st.disk, img, f, k);
    }

    /** The loop of file_flush: all data blocks go to disk. */
    method FlushBlocks(p: Ptr, ghost f: Node, n: nat)
      requires Valid() && At(img, p, f) && n == BlockCount(Size(img, f))
      modifies this
      ensures Valid() && At(img, p, f) && Kept(old(img), img) && SameExcept(old(img), img, Ind(f))
      ensures DataFlushed(st.disk, img, f, MAXBLOCKS)
      ensures FreeKept(old(img), img)
    {
      KeptSelf(img);
      for k := 0 to n
        invariant Valid() && At(img, p, f) && Kept(old(img), img) && SameExcept(old(img), img, Ind(f))
        invariant FreeKept(old(img), img)
        invariant Size(img, f) == old(Size(img, f)) && DataFlushed(st.disk, img, f, k)
      {
        ghost var was, disk := img, st.disk;
        BlocksBound(Size(img, f), k);
        FlushStep(p, f, k);
        if img == was { KeptSelf(img); }
        GrewKeepsFree(was, img, Ind(f));
        FreeKeptTwice(old(img), was, img);
        KeptTwice(old(img), was, img);
        assert SameInfo(was, img, f);
        FlushedOne(disk, st.disk, was, img, owner, f, k);
      }
      AllFlushed(st.disk, img, f, n);
    }

    /** The struct itself and the indirect block. */
    method FlushStruct(p: Ptr, ghost f: Node)
      requires Valid() && At(img, p, f)
      modifies `st
      ensures Valid() && p.blk < |img|
        && st.disk == DiskAfter(DiskAfter(old(st.disk), img, p.blk), img, Target(img, Ind(f)))
      ensures old(DataFlushed(st.disk, img, f, MAXBLOCKS)) ==> Flushed(st.disk, img, p, f)
    {
      HomeInUse(img, owner, 0, Ind(f));
      FlushBlock(p.blk);
      FlushNamed(Ind(f), p.blk, p.base + INDIRECT);
    }

    /** file_flush: afterwards the file's struct, its indirect block and its data are on disk as loads see them. */
    method FileFlush(p: Ptr, ghost f: Node)
      requires Valid() && At(img, p, f)
      modifies this
      ensures Valid() && At(img, p, f) && Kept(old(img), img) && SameExcept(old(img), img, Ind(f))
      ensures Flushed(st.disk, img, p, f)
      ensures FreeKept(old(img), img)
    {
      HomeInUse(img, owner, 0, Ind(f));
      SizeReads(img, f);
      var size := LoadWord(p.blk, p.base + SIZE);
      FlushBlocks(p, f, BlockCount(size));
      FlushStruct(p, f);
    }

    // ---- the directory ----

    /** The inner loop of dir_lookup, on a block that is there. */
    method SearchBlock(i: nat, b: nat, name: seq<byte>) returns (r: int, q: Ptr, ghost g: Node)
      requires Valid() && i < MAXBLOCKS && b == Target(img, Slot(Root, i)) != 0 && NoneNamed(img, i, name)
      modifies `st
      ensures Valid() && (r == 0 || r == 1)
      ensures r == 0 ==> FirstMatch(img, g, name) && At(img, q, g)
      ensures r == 1 ==> NoneNamed(img, i + 1, name)
    {
      assert IsRef(Slot(Root, i));
      Touch(b);
      var j := FindName(st.page[b].data, name);
      if j < BLKFILES {
        EntryAt(img, i, j);
        FirstHere(img, i, j, name);
        return 0, Ptr(b, 64 * j), Entry(i, j);
      }
      NoneMore(img, i, name);
      r, q, g := 1, Ptr(0, 0), Root;
    }

    /** One round of dir_lookup: block i of the directory. Result 1 means go on. */
    method LookupStep(i: nat, name: seq<byte>) returns (r: int, q: Ptr, ghost g: Node)
      requires Valid() && Text(name) && NoneNamed(img, i, name) && BLKSIZE * i < Size(img, Root) && DirSafe(img, i)
      modifies this
      ensures Valid() && Kept(old(img), img) && OthersSame(old(img), img, Root)
        && Size(img, Root) == old(Size(img, Root))
      ensures r == 0 || r == 1 || r == -E_NO_DISK || r == -E_INVAL
      ensures r == 0 ==> FirstMatch(img, g, name) && At(img, q, g)
      ensures r == 1 ==> NoneNamed(img, i + 1, name)
      ensures r == -E_NO_DISK ==> forall b: nat :: b < |img| ==> !Free(img, b)
      ensures r == -E_INVAL <==> i >= MAXBLOCKS
      ensures r >= 0 ==> RoomStays(old(img), img)
      ensures i < MAXBLOCKS && old(Target(img, Slot(Root, i))) != 0 ==> img == old(img) && r >= 0
      ensures FreeKept(old(img), img)
    {
      q, g := Ptr(0, 0), Root;
      r := FileGetBlock(Ptr(1, 2), Root, i);
      assert SameInfo(old(img), img, Root);
      NoneKept(old(img), img, i, name);
      if r < 0 {
        return;
      }
      RoomAfter(old(img), img, i);
      r, q, g := SearchBlock(i, r, name);
    }

    /**
     * dir_lookup on the root: the first entry of that name, or proof that there is none. A last block missing since an
     * earlier failed growth is allocated on the way.
     */
    method DirLookup(name: seq<byte>) returns (r: int, q: Ptr, ghost g: Node)
      requires Valid() && Text(name) && LookupSafe(img)
      modifies this
      ensures Valid() && Kept(old(img), img) && OthersSame(old(img), img, Root)
      ensures r == 0 || r == -E_NOT_FOUND || r == -E_NO_DISK || r == -E_INVAL
      ensures r == 0 ==> FirstMatch(img, g, name) && At(img, q, g)
      ensures r == -E_NOT_FOUND ==> DirComplete(img) && NoneNamed(img, Size(img, Root) / BLKSIZE, name)
      ensures r == -E_NO_DISK ==> forall b: nat :: b < |img| ==> !Free(img, b)
      ensures r == -E_INVAL ==> old(Size(img, Root)) > BLKSIZE * MAXBLOCKS
      ensures r == -E_NOT_FOUND ==> RoomStays(old(img), img)
      ensures old(DirComplete(img)) ==> img == old(img) && (r == 0 || r == -E_NOT_FOUND)
      ensures FreeKept(old(img), img)
    {
      SizeReads(img, Root);
      var size := LoadWord(1, 2 + SIZE);
      KeptSelf(img);
      var n := size / BLKSIZE;
      for i := 0 to n
        invariant Valid() && Kept(old(img), img) && OthersSame(old(img), img, Root)
        invariant Size(img, Root) == size && NoneNamed(img, i, name)
        invariant RoomStays(old(img), img) && (img == old(img) || i == n)
        invariant old(DirComplete(img)) ==> img == old(img)
        invariant FreeKept(old(img), img)
      {
        ghost var was := img;
        assert DirSafe(img, i);
        r, q, g := LookupStep(i, name);
        KeptTwice(old(img), was, img);
        FreeKeptTwice(old(img), was, img);
        if r != 1 {
          return;
        }
      }
      CompleteNow(img, n, name);
      r, q, g := -E_NOT_FOUND, Ptr(0, 0), Root;
    }

    /** The first unused entry of directory block i. */
    method RoomIn(i: nat) returns (r: int, j: nat)
      requires Valid() && BLKSIZE * i < Size(img, Root) && DirSafe(img, i)
      modifies this
      ensures Valid() && Kept(old(img), img) && Size(img, Root) == old(Size(img, Root))
      ensures r == -E_INVAL || r == -E_NO_DISK || r > 0
      ensures r == -E_INVAL <==> i >= MAXBLOCKS
      ensures r == -E_NO_DISK ==> forall b: nat :: b < |img| ==> !Free(img, b)
      ensures r > 0 ==> r == Target(img, Slot(Root, i)) && j <= BLKFILES && RoomStays(old(img), img)
      ensures r > 0 && j < BLKFILES ==> Unused(img, Entry(i, j)) && At(img, Ptr(r, 64 * j), Entry(i, j))
      ensures r > 0 ==> forall l: nat {:trigger Entry(i, l)} :: l < j ==> Char(img, Entry(i, l), 0) != 0
      ensures i < MAXBLOCKS && old(Target(img, Slot(Root, i))) != 0 ==> img == old(img) && r > 0
      ensures FreeKept(old(img), img)
      ensures i < MAXBLOCKS && old(Target(img, Slot(Root, i))) != 0 ==> st.disk == old(st.disk)
    {
      j := 0;
      r := FileGetBlock(Ptr(1, 2), Root, i);
      assert SameInfo(old(img), img, Root);
      if r < 0 {
        return;
      }
      RoomAfter(old(img), img, i);
      Touch(r);
      j := FindUnused(st.page[r].data);
      FirstChars(img, i);
      if j < BLKFILES { EntryAt(img, i, j); }
    }

    /** The scan of dir_alloc_file for an unused entry; r is 1 if one is found and 0 if there is none. */
    method FindRoom(n: nat) returns (r: int, q: Ptr, ghost g: Node)
      requires Valid() && LookupSafe(img) && n == Size(img, Root) / BLKSIZE
      modifies this
      ensures Valid() && Kept(old(img), img) && Size(img, Root) == old(Size(img, Root))
      ensures r == 0 || r == 1 || r == -E_INVAL || r == -E_NO_DISK
      ensures r == -E_INVAL ==> n > MAXBLOCKS
      ensures r == -E_NO_DISK ==> forall b: nat :: b < |img| ==> !Free(img, b)
      ensures r == 1 ==> Unused(img, g) && At(img, q, g) && g.i < n
      ensures r == 0 ==> !HasRoom(img) && DirComplete(img) && RoomStays(old(img), img)
      ensures old(DirComplete(img)) ==> img == old(img) && r >= 0
      ensures FreeKept(old(img), img)
      ensures old(DirComplete(img)) ==> st.disk == old(st.disk)
    {
      KeptSelf(img);
      for i := 0 to n
        invariant Valid() && Kept(old(img), img) && Size(img, Root) == old(Size(img, Root))
        invariant RoomStays(old(img), img) && (img == old(img) || i == n) && FullTo(img, i)
        invariant old(DirComplete(img)) ==> img == old(img) && st.disk == old(st.disk)
        invariant FreeKept(old(img), img)
      {
        ghost var was := img;
        assert DirSafe(img, i);
        var j;
        r, j := RoomIn(i);
        KeptTwice(old(img), was, img);
        FreeKeptTwice(old(img), was, img);
        if r < 0 {
          return r, Ptr(0, 0), Root;
        }
        if j < BLKFILES {
          return 1, Ptr(r, 64 * j), Entry(i, j);
        }
        FullMore(was, img, i);
      }
      FullHasNoRoom(img, n);
      r, q, g := 0, Ptr(0, 0), Root;
    }

    /** Adding a block to the directory's size. */
    method GrowDir(size: nat)
      requires Valid() && DirComplete(img) && size == Size(img, Root)
      modifies this
      ensures Valid() && KeptFiles(old(img), img) && Size(img, Root) == size + BLKSIZE
      ensures SameTargets(old(img), img) && OnlyBlock(old(img), img, 1)
      ensures FreeKept(old(img), img)
    {
      HomeInUse(img, owner, 0, Ind(Root));
      SetSizeEffect(img, owner, 0, Root, size + BLKSIZE);
      SoundGrowth(img, owner);
      StoreWord(1, 2 + SIZE, size + BLKSIZE);
      StoreKeepsFree(old(img), img, 1);
    }

    /** The growing half of dir_alloc_file: a new block at the end, whose first entry is handed out. */
    method GrowForFile(size: nat) returns (r: int, q: Ptr, ghost g: Node)
      requires Valid() && DirComplete(img) && DirReady(img) && size == Size(img, Root)
      modifies this
      ensures Valid() && KeptFiles(old(img), img) && FreshUnused(old(img), img)
      ensures r == 0 || r == -E_NO_DISK || r == -E_INVAL
      ensures r == 0 ==> Unused(img, g) && At(img, q, g) && BLKSIZE * g.i < Size(img, Root) && DirComplete(img)
      ensures r == -E_NO_DISK ==> forall b: nat :: b < |img| ==> !Free(img, b)
      ensures r == -E_INVAL ==> size == BLKSIZE * MAXBLOCKS
      ensures FreeKept(old(img), img)
    {
      var n := size / BLKSIZE;
      GrowDir(size);
      ReadyGrown(old(img), img, n);
      ghost var mid := img;
      q, g := Ptr(0, 0), Root;
      r := FileGetBlock(Ptr(1, 2), Root, n);
      KeptFilesThen(old(img), mid, img);
      FreeKeptTwice(old(img), mid, img);
      GrownFresh(old(img), mid, img, n);
      if r > 0 {
        FreshEntries(img, n, 0);
        CompleteGrown(old(img), mid, img, n);
        r, q, g := 0, Ptr(r, 0), Entry(n, 0);
      }
    }

    /** dir_alloc_file: an unused entry, in a new block at the end if the present ones are full. */
    method DirAllocFile() returns (r: int, q: Ptr, ghost g: Node)
      requires Valid() && CreateReady(img)
      modifies this
      ensures Valid() && KeptFiles(old(img), img) && (old(DirComplete(img)) ==> FreshUnused(old(img), img))
      ensures r == 0 || r == -E_NO_DISK || r == -E_INVAL
      ensures r == 0 ==> Unused(img, g) && At(img, q, g) && BLKSIZE * g.i < Size(img, Root)
      ensures r == -E_NO_DISK ==> forall b: nat :: b < |img| ==> !Free(img, b)
      ensures r == -E_INVAL ==> old(Size(img, Root)) >= BLKSIZE * MAXBLOCKS
      ensures old(DirComplete(img)) && old(HasRoom(img)) ==> r == 0 && img == old(img)
      ensures old(DirComplete(img)) && r == 0 ==> DirComplete(img)
      ensures FreeKept(old(img), img)
    {
      SizeReads(img, Root);
      var size := LoadWord(1, 2 + SIZE);
      if DirReady(img) { ReadyIsSafe(img); }
      r, q, g := FindRoom(size / BLKSIZE);
      ghost var mid := img;
      KeptIsKeptFiles(old(img), mid);
      NoFresh(old(img), mid);
      if r != 0 {
        r := if r == 1 then 0 else r;
        return;
      }
      r, q, g := GrowForFile(size);
      KeptThenFiles(old(img), mid, img);
      FreeKeptTwice(old(img), mid, img);
      FreshThen(old(img), mid, img);
    }

    // ---- paths ----

    /** Looking one component up in the file reached so far, which must be a directory. */
    method WalkStep(q0: Ptr, ghost g0: Node, name: seq<byte>) returns (isDir: bool, r: int, q: Ptr, ghost g: Node)
      requires Valid() && Text(name) && At(img, q0, g0) && (g0 == Root ==> LookupSafe(img))
      modifies this
      ensures Valid() && Kept(old(img), img) && (isDir <==> g0 == Root)
      ensures r == 0 || r == -E_NOT_FOUND || r == -E_NO_DISK || r == -E_INVAL
      ensures !isDir ==> r == -E_NOT_FOUND && img == old(img)
      ensures isDir && r == -E_NOT_FOUND ==> Missing(img, name) && RoomStays(old(img), img)
      ensures r == 0 ==> Matches(img, g, name) && At(img, q, g)
      ensures r == -E_NO_DISK ==> forall b: nat :: b < |img| ==> !Free(img, b)
      ensures old(DirComplete(img)) ==> img == old(img) && (r == 0 || r == -E_NOT_FOUND)
      ensures r == -E_INVAL ==> old(Size(img, Root)) > BLKSIZE * MAXBLOCKS
      ensures FreeKept(old(img), img)
    {
      HomeInUse(img, owner, 0, Ind(g0));
      KindReads(img, g0);
      KeptSelf(img);
      var kind := LoadWord(q0.blk, q0.base + TYPE);
      isDir := kind == 1;
      if !isDir {
        return isDir, -E_NOT_FOUND, q0, g0;
      }
      r, q, g := DirLookup(name);
    }

    /**
     * walk_path. The root is the only directory, so a path of one component names an entry of the root or, not found,
     * a file that could be created there (inRoot); a longer one names nothing.
     */
    method WalkPath(path: seq<byte>) returns (r: int, q: Ptr, ghost g: Node, inRoot: bool, last: seq<byte>)
      requires Valid() && Text(path) && LookupSafe(img)
      modifies this
      ensures Valid() && Kept(old(img), img)
      ensures r == 0 || r == -E_NOT_FOUND || r == -E_BAD_PATH || r == -E_NO_DISK || r == -E_INVAL
      ensures r == 0 ==> At(img, q, g) && Resolves(img, Components(path), g)
      ensures inRoot ==> r == -E_NOT_FOUND && Components(path) == [last] && Text(last) && 0 < |last| < MAXNAMELEN
      ensures inRoot ==> Missing(img, last) && RoomStays(old(img), img)
      ensures old(DirComplete(img)) ==> img == old(img) && r != -E_NO_DISK && r != -E_INVAL
      ensures r == -E_NOT_FOUND ==> inRoot || |Components(path)| > 1
      ensures r == -E_BAD_PATH ==> LongName(Components(path))
      ensures r == -E_NO_DISK ==> forall b: nat :: b < |img| ==> !Free(img, b)
      ensures r == -E_INVAL ==> old(Size(img, Root)) > BLKSIZE * MAXBLOCKS
      ensures FreeKept(old(img), img)
    {
      q, g, inRoot, last := Ptr(1, 2), Root, false, [];
      KeptSelf(img);
      var rest := SkipSlash(path);
      SkipText(path);
      ComponentsSkip(path);
      while rest != []
        invariant Valid() && Kept(old(img), img) && At(img, q, g) && !inRoot
        invariant Text(rest) && SkipSlash(rest) == rest && WalkedTo(img, Components(path), Components(rest), g)
        invariant g == Root || old(DirComplete(img)) ==> img == old(img)
        invariant FreeKept(old(img), img)
        decreases |rest|
      {
        var n := NameLen(rest);
        NameText(rest);
        if n >= MAXNAMELEN {
          LongHere(img, Components(path), Components(rest), g);
          r := -E_BAD_PATH;
          return;
        }
        var name := rest[..n];
        rest := SkipSlash(rest[n..]);
        var isDir;
        isDir, r, q, g := WalkStep(q, g, name);
        if !isDir {
          return;
        }
        if r < 0 {
          if r == -E_NOT_FOUND && rest == [] {
            inRoot, last := true, name;
          }
          return;
        }
      }
      r := 0;
    }

    /** strcpy into an unused entry. */
    method NameEntry(q: Ptr, ghost g: Node, name: seq<byte>)
      requires Valid() && Unused(img, g) && At(img, q, g) && Text(name) && 0 < |name| < MAXNAMELEN
      modifies this
      ensures Valid() && At(img, q, g) && Name(img, g) == name && Size(img, g) == 0
      ensures SameTargets(old(img), img) && SameData(old(img), img) && SameOtherInfos(old(img), img, g)
      ensures FreeKept(old(img), img)
    {
      HomeInUse(img, owner, 0, Ind(g));
      Touch(q.blk);
      var c := Splice(st.page[q.blk].data, 4 * q.base, name + [0]);
      SetNameEffect(img, owner, 0, g, name);
      SoundName(img, owner, g, name);
      StoreBlock(q.blk, c);
      StoreKeepsFree(old(img), img, q.blk);
    }

    /** The rest of file_create once the path is known to be free: entry, name, and the directory flushed. */
    method CreateNamed(name: seq<byte>) returns (r: int, q: Ptr, ghost g: Node)
      requires Valid() && Missing(img, name) && (HasRoom(img) || DirReady(img)) && Text(name) && 0 < |name| < MAXNAMELEN
      modifies this
      ensures Valid() && (r == 0 || r == -E_NO_DISK || r == -E_INVAL)
      ensures r == 0 ==> At(img, q, g) && OnlyNamed(img, g, name) && Size(img, g) == 0
      ensures r == 0 ==> old(Char(img, g, 0)) == 0 && Created(old(img), img, g)
      ensures r == 0 ==> Flushed(st.disk, img, Ptr(1, 2), Root)
      ensures r != 0 ==> KeptFiles(old(img), img)
      ensures r == -E_NO_DISK ==> forall b: nat :: b < |img| ==> !Free(img, b)
      ensures r == -E_INVAL ==> old(Size(img, Root)) >= BLKSIZE * MAXBLOCKS
      ensures old(HasRoom(img)) ==> r == 0 && Size(img, Root) == old(Size(img, Root))
      ensures r == 0 ==> DirComplete(img)
      ensures FreeKept(old(img), img)
    {
      CompleteIsSafe(img);
      r, q, g := DirAllocFile();
      ghost var c, ownerC := img, owner;
      if r < 0 {
        return;
      }
      WasUnused(old(img), c, g);
      NameEntry(q, g, name);
      ghost var d := img;
      NamedOnce(old(img), c, d, ownerC, owner, g, name);
      CreatedNow(old(img), c, d, g);
      FileFlush(Ptr(1, 2), Root);
      StillNamed(d, img, owner, g, name);
      CreatedThen(old(img), d, img, g);
      FreeKeptTwice(old(img), c, d);
      FreeKeptTwice(old(img), d, img);
      AtKept(d, img, q, g);
      assert SameInfo(c, d, Root) && SameInfo(d, img, Root);
    }

    /**
     * file_create: a new empty file in an unused entry, the only one of its name; every other file keeps its name,
     * size, blocks and bytes.
     */
    method FileCreate(path: seq<byte>) returns (r: int, q: Ptr, ghost g: Node)
      requires Valid() && Text(path) && CreateReady(img)
      modifies this
      ensures Valid()
      ensures r == 0 || r == -E_FILE_EXISTS || r == -E_NOT_FOUND || r == -E_BAD_PATH || r == -E_NO_DISK || r == -E_INVAL
      ensures r == -E_FILE_EXISTS ==> exists h: Node :: Resolves(img, Components(path), h)
      ensures r == 0 ==>
        At(img, q, g) && |Components(path)| == 1 && OnlyNamed(img, g, Components(path)[0]) && Size(img, g) == 0
      ensures r == 0 ==> old(Char(img, g, 0)) == 0 && Created(old(img), img, g) && !LongName(Components(path))
      ensures r == 0 ==> Flushed(st.disk, img, Ptr(1, 2), Root)
      ensures r != 0 ==> KeptFiles(old(img), img)
      ensures r == -E_NOT_FOUND ==> |Components(path)| > 1
      ensures r == -E_BAD_PATH ==> LongName(Components(path))
      ensures r == -E_NO_DISK ==> forall b: nat :: b < |img| ==> !Free(img, b)
      ensures r == -E_INVAL ==> old(Size(img, Root)) >= BLKSIZE * MAXBLOCKS
      ensures old(DirComplete(img)) && old(HasRoom(img)) ==>
        Size(img, Root) == old(Size(img, Root)) && r != -E_NO_DISK && r != -E_INVAL
      ensures r == 0 ==> DirComplete(img)
      ensures old(DirComplete(img)) && r != 0 && r != -E_NO_DISK && r != -E_INVAL ==> img == old(img)
      ensures FreeKept(old(img), img)
    {
      var inRoot, last;
      if DirReady(img) { ReadyIsSafe(img); }
      r, q, g, inRoot, last := WalkPath(path);
      ghost var b := img;
      KeptIsKeptFiles(old(img), b);
      if r == 0 {
        r := -E_FILE_EXISTS;
        return;
      }
      if !inRoot {
        return;
      }
      r, q, g := CreateNamed(last);
      FreeKeptTwice(old(img), b, img);
      if r == 0 {
        CreatedAfter(old(img), b, img, g);
        WasUnused(old(img), b, g);
      } else {
        KeptThenFiles(old(img), b, img);
      }
    }
  }
}
