/** A formatted image is one the file server accepts, and it reads every input file back. */
module FsAgreement {
  import opened Blocks
  import opened FsLayout
  import opened FsInvariant
  import opened FileSystem
  import opened FsFormat
  import opened FileRuns

  /** Directory blocks. */
  function DirBlocks(files: seq<Input>): nat { BlockCount(256 * |files|) }

  function DirStart(files: seq<Input>): nat { Start(files, |files|) }

  function End(files: seq<Input>): nat { DirStart(files) + DirBlocks(files) }

  /** The finished image. */
  ghost predicate Formatted(img: Image, ents: seq<Block>, files: seq<Input>) {
    && 0 < |files| <= MAX_DIR_ENTS && |ents| == ENTBLOCKS && End(files) < |img| <= 1024
    && (forall e: nat :: e < |files| ==> LaidAt(ents, img, files, e))
    && (forall e: nat :: |files| <= e < MAX_DIR_ENTS ==> BlankAt(ents, e))
    && (forall i: nat {:trigger ents[i]} :: i < DirBlocks(files) ==> img[DirStart(files) + i] == ents[i])
    && Describes(img[1], 2, DirStart(files), BLKSIZE * DirBlocks(files)) && Word(img[1], 2 + TYPE) == 1
    && (forall b: nat :: b < |img| ==> (Free(img, b) <==> End(files) <= b))
    && (forall b: nat :: End(files) <= b < |img| ==> Empty(img[b]))
  }

  /** The block each reference should name. */
  function Want(files: seq<Input>, r: Ref): nat {
    match r.f
    case Root => if r.Slot? && r.k < DirBlocks(files) then DirStart(files) + r.k else 0
    case Entry(i, j) =>
      if 16 * i + j >= |files| || j >= BLKFILES then 0
      else WantIn(Start(files, 16 * i + j), BlockCount(|files[16 * i + j].data|), r)
  }

  function WantIn(start: nat, n: nat, r: Ref): nat {
    if r.Slot? then if r.k < n then start + r.k else 0 else if n >= NDIRECT then start + n else 0
  }

  lemma DirCount(files: seq<Input>)
    requires 0 < |files| <= MAX_DIR_ENTS
    ensures 1 <= DirBlocks(files) <= ENTBLOCKS && BlockCount(BLKSIZE * DirBlocks(files)) == DirBlocks(files)
  {
    BlocksBound(256 * |files|, 0);
  }

  lemma EntryIn(files: seq<Input>, i: nat, j: nat)
    requires 16 * i + j < |files| && j < BLKFILES
    ensures i < DirBlocks(files)
  {
    BlocksBound(256 * |files|, i);
  }

  /** A described struct, read word by word. */
  lemma DescribedWalk(b: Block, base: nat, start: nat, size: nat, k: nat)
    requires base + 64 <= BLKWORDS && Describes(b, base, start, size) && k < NDIRECT
    ensures Word(b, base + DIRECT + k) == if k < BlockCount(size) then start + k else 0
    ensures Word(b, base + INDIRECT) == if BlockCount(size) >= NDIRECT then start + BlockCount(size) else 0
  {
    assert Pointer(b, base, k) == Word(b, base + DIRECT + k) && Pointer(b, base, NDIRECT) == Word(b, base + INDIRECT);
  }

  lemma RootWanted(img: Image, ents: seq<Block>, files: seq<Input>, r: Ref)
    requires Formatted(img, ents, files) && IsRef(r) && r.f.Root?
    ensures Target(img, r) == Want(files, r)
  {
    assert Open(0);
    DirCount(files);
    DescribedWalk(img[1], 2, DirStart(files), BLKSIZE * DirBlocks(files), if r.Slot? && r.k < NDIRECT then r.k else 0);
  }

  lemma HomeWanted(img: Image, ents: seq<Block>, files: seq<Input>, f: Node)
    requires Formatted(img, ents, files) && IsNode(f) && f.Entry?
    ensures Home(img, f) == if f.i < DirBlocks(files) then DirStart(files) + f.i else 0
    ensures f.i < DirBlocks(files) ==> f.i < ENTBLOCKS && img[Home(img, f)] == ents[f.i]
  {
    DirCount(files);
    EntryHome(img, f);
    RootWanted(img, ents, files, Slot(Root, f.i));
    if f.i < DirBlocks(files) { assert img[DirStart(files) + f.i] == ents[f.i]; }
  }

  lemma FileWanted(img: Image, ents: seq<Block>, files: seq<Input>, r: Ref)
    requires Formatted(img, ents, files) && IsRef(r) && r.f.Entry? && 16 * r.f.i + r.f.j < |files|
    ensures Target(img, r) == Want(files, r)
  {
    var e := 16 * r.f.i + r.f.j;
    assert LaidAt(ents, img, files, e) && e / 16 == r.f.i && e % 16 == r.f.j;
    EntryIn(files, r.f.i, r.f.j);
    HomeWanted(img, ents, files, r.f);
    LaidReads(ents[r.f.i], img, Start(files, e), files[e], r);
  }

  lemma LaidReads(b: Block, img: Image, start: nat, f: Input, r: Ref)
    requires IsRef(r) && r.f.Entry? && Laid(b, r.f.j, img, start, f)
    requires 0 < Home(img, r.f) < |img| && img[Home(img, r.f)] == b
    ensures Target(img, r) == WantIn(start, BlockCount(|f.data|), r)
  {
    assert Open(0);
    DescribedWalk(b, 64 * r.f.j, start, |f.data|, if r.Slot? && r.k < NDIRECT then r.k else 0);
  }

  lemma BlankWanted(img: Image, ents: seq<Block>, files: seq<Input>, r: Ref)
    requires Formatted(img, ents, files) && IsRef(r) && r.f.Entry? && 16 * r.f.i + r.f.j >= |files|
    ensures Target(img, r) == 0 && Size(img, r.f) == 0 && Kind(img, r.f) == 0 && Char(img, r.f, 127) == 0
  {
    HomeWanted(img, ents, files, r.f);
    if r.f.i < DirBlocks(files) {
      var e := 16 * r.f.i + r.f.j;
      assert BlankAt(ents, e) && e / 16 == r.f.i && e % 16 == r.f.j;
    }
    assert Open(0);
  }

  lemma Wanted(img: Image, ents: seq<Block>, files: seq<Input>, r: Ref)
    requires Formatted(img, ents, files) && IsRef(r)
    ensures Target(img, r) == Want(files, r)
  {
    if r.f.Root? {
      RootWanted(img, ents, files, r);
    } else if 16 * r.f.i + r.f.j < |files| {
      FileWanted(img, ents, files, r);
    } else {
      BlankWanted(img, ents, files, r);
    }
  }

  // ---- who owns what ----

  function NodeOf(e: nat): Node { Entry(e / 16, e % 16) }

  /** The reference that names block b, one of the blocks of the first n files. */
  function OwnerIn(files: seq<Input>, n: nat, b: nat): Ref
    requires n <= |files|
  {
    if n == 0 then Ind(Root)
    else if b < Start(files, n - 1) then OwnerIn(files, n - 1, b)
    else if b - Start(files, n - 1) < BlockCount(|files[n - 1].data|) then Slot(NodeOf(n - 1), b - Start(files, n - 1))
    else Ind(NodeOf(n - 1))
  }

  function OwnerOf(files: seq<Input>, b: nat): Ref {
    if b >= DirStart(files) then Slot(Root, b - DirStart(files)) else OwnerIn(files, |files|, b)
  }

  lemma {:induction false} OwnerInIs(files: seq<Input>, n: nat, e: nat, b: nat)
    requires e < n <= |files| && Start(files, e) <= b < Start(files, e) + Extent(|files[e].data|)
    ensures b < Start(files, n)
    ensures OwnerIn(files, n, b) ==
            if b - Start(files, e) < BlockCount(|files[e].data|)
            then Slot(NodeOf(e), b - Start(files, e)) else Ind(NodeOf(e))
  {
    if e + 1 < n {
      OwnerInIs(files, n - 1, e, b);
    }
  }

  /** Every block of the first n files lies in one of them. */
  lemma {:induction false} FileOf(files: seq<Input>, n: nat, b: nat) returns (e: nat)
    requires n <= |files| && 3 <= b < Start(files, n)
    ensures e < n && Start(files, e) <= b < Start(files, e) + Extent(|files[e].data|)
  {
    if b < Start(files, n - 1) { e := FileOf(files, n - 1, b); } else { e := n - 1; }
  }

  /** A wanted block is owned by the reference that wants it. */
  lemma OwnerRight(files: seq<Input>, r: Ref)
    requires IsRef(r) && Want(files, r) != 0
    ensures 3 <= Want(files, r) < End(files) && OwnerOf(files, Want(files, r)) == r
  {
    if r.f.Entry? {
      var e := 16 * r.f.i + r.f.j;
      assert NodeOf(e) == r.f;
      OwnerInIs(files, |files|, e, Want(files, r));
    }
  }

  lemma OwnerNames(files: seq<Input>, b: nat)
    requires 0 < |files| <= MAX_DIR_ENTS && 3 <= b < End(files)
    requires forall e: nat :: e < |files| ==> BlockCount(|files[e].data|) <= MAXBLOCKS
    ensures IsRef(OwnerOf(files, b)) && Want(files, OwnerOf(files, b)) == b
  {
    DirCount(files);
    if b < DirStart(files) {
      var e := FileOf(files, |files|, b);
      OwnerInIs(files, |files|, e, b);
      assert 16 * (e / 16) + e % 16 == e;
    }
  }

  ghost function Owner(files: seq<Input>): map<nat, Ref> { map b: nat | 3 <= b < End(files) :: OwnerOf(files, b) }

  lemma FormattedOwned(img: Image, ents: seq<Block>, files: seq<Input>)
    requires Formatted(img, ents, files)
    ensures Owned(img, Owner(files), 0)
  {
    forall r: Ref | IsRef(r) && Target(img, r) != 0
      ensures Target(img, r) in Owner(files) && Owner(files)[Target(img, r)] == r
    {
      Wanted(img, ents, files, r);
      OwnerRight(files, r);
    }
    forall b: nat | b in Owner(files)
      ensures IsRef(Owner(files)[b]) && Target(img, Owner(files)[b]) == b && 3 <= b < |img|
    {
      forall e: nat | e < |files| ensures BlockCount(|files[e].data|) <= MAXBLOCKS {
        assert LaidAt(ents, img, files, e);
      }
      OwnerNames(files, b);
      Wanted(img, ents, files, Owner(files)[b]);
    }
  }

  // ---- what the server sees ----

  /** Names as the formatter's callers give them: proper, and no two alike. */
  predicate ProperNames(files: seq<Input>) {
    && (forall e: nat :: e < |files| ==> Text(files[e].name) && 0 < |files[e].name| < 128)
    && (forall d: nat, e: nat :: d < e < |files| ==> files[d].name != files[e].name)
  }

  lemma FileSeen(img: Image, ents: seq<Block>, files: seq<Input>, e: nat)
    requires Formatted(img, ents, files) && e < |files| && Text(files[e].name) && 0 < |files[e].name|
    ensures var f := NodeOf(e);
            && IsNode(f) && 0 < Home(img, f) < |img| && Size(img, f) == |files[e].data| && Kind(img, f) == 0
            && Char(img, f, 127) == 0 && Char(img, f, 0) != 0 && Name(img, f) == files[e].name
  {
    var f := NodeOf(e);
    assert LaidAt(ents, img, files, e) && 16 * f.i + f.j == e;
    EntryIn(files, f.i, f.j);
    DirCount(files);
    HomeWanted(img, ents, files, f);
    StructSeen(ents[f.i], img, Start(files, e), files[e], f);
  }

  lemma StructSeen(b: Block, img: Image, start: nat, f: Input, g: Node)
    requires IsNode(g) && g.Entry? && Laid(b, g.j, img, start, f) && Text(f.name) && 0 < |f.name|
    requires 0 < Home(img, g) < |img| && img[Home(img, g)] == b
    ensures Size(img, g) == |f.data| && Kind(img, g) == 0 && Name(img, g) == f.name
    ensures Char(img, g, 127) == 0 && Char(img, g, 0) != 0
  {
    SizeReads(img, g);
    KindReads(img, g);
    CharIs(img, g, 0);
    CharIs(img, g, 127);
    CStringIs(b, 256 * g.j, f.name);
  }

  lemma FileTrimmed(img: Image, ents: seq<Block>, files: seq<Input>, f: Node)
    requires Formatted(img, ents, files) && IsNode(f) && f.Entry? && 16 * f.i + f.j < |files|
    requires Size(img, f) == |files[16 * f.i + f.j].data|
    ensures Trimmed(img, f)
  {
    var size := Size(img, f);
    assert LaidAt(ents, img, files, 16 * f.i + f.j);
    BlocksBound(size, MAXBLOCKS);
    forall k: nat | k < MAXBLOCKS && size <= BLKSIZE * k ensures Target(img, Slot(f, k)) == 0 {
      FileWanted(img, ents, files, Slot(f, k));
      BlocksBound(size, k);
    }
    FileWanted(img, ents, files, Ind(f));
    BlocksBound(size, NDIRECT - 1);
  }

  lemma RootShaped(img: Image, ents: seq<Block>, files: seq<Input>)
    requires Formatted(img, ents, files)
    ensures Trimmed(img, Root) && Directory(img)
  {
    DirCount(files);
    SizeReads(img, Root);
    KindReads(img, Root);
    forall k: nat | k < MAXBLOCKS
      ensures Target(img, Slot(Root, k)) == if k < DirBlocks(files) then DirStart(files) + k else 0
    {
      RootWanted(img, ents, files, Slot(Root, k));
    }
    RootWanted(img, ents, files, Ind(Root));
  }

  /** The image satisfies the server's invariant. */
  lemma FormattedSound(img: Image, ents: seq<Block>, files: seq<Input>)
    requires Formatted(img, ents, files) && ProperNames(files)
    ensures Sound(img, Owner(files), 0)
  {
    FormattedOwned(img, ents, files);
    RootShaped(img, ents, files);
    forall f: Node | IsNode(f) && f.Entry? ensures Trimmed(img, f) && Regular(img, f) {
      var e := 16 * f.i + f.j;
      if e < |files| {
        assert NodeOf(e) == f;
        FileSeen(img, ents, files, e);
        FileTrimmed(img, ents, files, f);
      } else {
        forall k: nat ensures k < MAXBLOCKS ==> Target(img, Slot(f, k)) == 0 {
          if k < MAXBLOCKS { BlankWanted(img, ents, files, Slot(f, k)); }
        }
        BlankWanted(img, ents, files, Ind(f));
      }
    }
  }

  /** Its directory is complete, and the next block it would take holds unused entries: files can be created. */
  lemma FormattedReady(img: Image, ents: seq<Block>, files: seq<Input>)
    requires Formatted(img, ents, files)
    ensures DirComplete(img) && LookupSafe(img) && CreateReady(img)
  {
    FormattedComplete(img, ents, files);
    CompleteIsSafe(img);
    FormattedVacant(img, ents, files);
    VacantIsReady(img);
  }

  /** Its free blocks could all be directory blocks of unused entries. */
  lemma FormattedVacant(img: Image, ents: seq<Block>, files: seq<Input>)
    requires Formatted(img, ents, files)
    ensures FreeVacant(img)
  {
    forall c: nat | c < |img| && Free(img, c) ensures Vacant(img[c]) {
      EmptyVacant(img[c]);
    }
  }

  /** The server sees the input's bytes. */
  lemma FileHolds(img: Image, ents: seq<Block>, files: seq<Input>, e: nat)
    requires Formatted(img, ents, files) && e < |files|
    ensures Holds(img, NodeOf(e), 0, files[e].data)
  {
    var f, start, data := NodeOf(e), Start(files, e), files[e].data;
    assert LaidAt(ents, img, files, e) && 16 * f.i + f.j == e;
    forall k: nat, o: nat | o < BLKSIZE && BLKSIZE * k + o < |data|
      ensures Byte(img, f, k, o) == data[BLKSIZE * k + o] as int
    {
      BlocksBound(|data|, k);
      FileWanted(img, ents, files, Slot(f, k));
      assert DataByte(img, start, k, o) == data[BLKSIZE * k + o] as int;
    }
  }

  lemma RowAndColumn(i: nat, j: nat)
    requires j < 16
    ensures (16 * i + j) / 16 == i && (16 * i + j) % 16 == j
  {
  }

  /** Only one entry has a given input's name. */
  lemma NameFinds(img: Image, ents: seq<Block>, files: seq<Input>, e: nat, g: Node)
    requires Formatted(img, ents, files) && ProperNames(files) && e < |files| && Matches(img, g, files[e].name)
    ensures g == NodeOf(e)
  {
    var d := 16 * g.i + g.j;
    RowAndColumn(g.i, g.j);
    if d < |files| {
      FileSeen(img, ents, files, d);
    } else {
      BlankUnnamed(img, ents, files, g);
    }
  }

  lemma BlankUnnamed(img: Image, ents: seq<Block>, files: seq<Input>, g: Node)
    requires Formatted(img, ents, files) && IsNode(g) && g.Entry? && 16 * g.i + g.j >= |files|
    ensures Name(img, g) == []
  {
    HomeWanted(img, ents, files, g);
    if g.i < DirBlocks(files) {
      RowAndColumn(g.i, g.j);
      assert BlankAt(ents, 16 * g.i + g.j);
    }
  }

  // ---- running both ----

  lemma {:induction false} StartMonotone(files: seq<Input>, d: nat, e: nat)
    requires d <= e <= |files|
    ensures Start(files, d) <= Start(files, e)
  {
    if d < e { StartGrows(files, d, e); }
  }

  lemma {:induction false} StartOfPrefix(files: seq<Input>, n: nat, e: nat)
    requires e <= n <= |files|
    ensures Start(files[..n], e) == Start(files, e)
  {
    if e > 0 { StartOfPrefix(files, n, e - 1); }
  }

  /** When fsformat gets through. */
  predicate Fitting(nblocks: nat, files: seq<Input>) {
    && 4 <= nblocks <= 1024 && |files| <= MAX_DIR_ENTS && End(files) < nblocks
    && forall e: nat :: e < |files| ==> |files[e].data| < BLKSIZE * MAXBLOCKS
  }

  /** The loop over the command line's files. */
  method WriteFiles(d: Formatter, files: seq<Input>) returns (ok: bool)
    requires Built(d.img, d.pos, d.ents, d.n, []) && forall e: nat :: e < |files| ==> |files[e].name| < 128
    modifies d
    ensures |d.img| == old(|d.img|) || !ok
    ensures ok ==> Built(d.img, d.pos, d.ents, d.n, files) && forall b: nat :: b < 3 ==> d.img[b] == old(d.img)[b]
    ensures !ok ==> !Fitting(old(|d.img|), files)
    ensures ok ==> forall e: nat :: e < |files| ==> |files[e].data| < BLKSIZE * MAXBLOCKS
  {
    for i := 0 to |files|
      invariant Built(d.img, d.pos, d.ents, d.n, files[..i]) && |d.img| == old(|d.img|)
      invariant forall b: nat :: b < 3 ==> d.img[b] == old(d.img)[b]
      invariant forall e: nat :: e < i ==> |files[e].data| < BLKSIZE * MAXBLOCKS
    {
      StartOfPrefix(files, i, i);
      StartMonotone(files, i + 1, |files|);
      assert files[..i] + [files[i]] == files[..i + 1];
      ok := d.WriteFile(files[i], files[..i]);
      if !ok {
        return;
      }
    }
    assert files[..|files|] == files;
    ok := true;
  }

  lemma FormattedNow(built: Image, img: Image, ents: seq<Block>, files: seq<Input>)
    requires 0 < |files| <= MAX_DIR_ENTS && Built(built, DirStart(files), ents, |files|, files)
    requires |img| == |built| && End(files) < |img|
    requires forall i: nat :: i < DirBlocks(files) ==> img[DirStart(files) + i] == ents[i]
    requires forall b: nat :: b < |img| && 3 <= b && (b < DirStart(files) || End(files) <= b) ==> img[b] == built[b]
    requires Describes(img[1], 2, DirStart(files), BLKSIZE * DirBlocks(files)) && Word(img[1], 2 + TYPE) == 1
    requires forall b: nat :: b < |img| ==> (Free(img, b) <==> End(files) <= b)
    ensures Formatted(img, ents, files)
  {
    forall e: nat | e < |files| ensures LaidAt(ents, img, files, e) {
      assert LaidAt(ents, built, files, e);
      StartGrows(files, e, |files|);
      LaidReread(ents[e / 16], e % 16, built, img, Start(files, e), files[e]);
    }
  }

  lemma LaidReread(b: Block, j: nat, img: Image, new': Image, start: nat, f: Input)
    requires j < BLKFILES && Laid(b, j, img, start, f) && |new'| == |img| && 3 <= start
    requires forall x: nat :: start <= x < start + Extent(|f.data|) ==> new'[x] == img[x]
    ensures Laid(b, j, new', start, f)
  {
    ContainsLater(img, new', start, f.data);
  }

  /** With no files the root is given a block that was never allocated. */
  lemma EmptyListBroken(img: Image)
    requires 4 <= |img| && Describes(img[1], 2, 3, BLKSIZE)
    ensures Target(img, Slot(Root, 0)) == 3
  {
    assert Open(0);
    DescribedWalk(img[1], 2, 3, BLKSIZE, 0);
  }

  /** So that image breaks the server's invariant, whatever the ownership. */
  lemma EmptyListUnsound(img: Image, owner: map<nat, Ref>)
    requires 4 <= |img| && Target(img, Slot(Root, 0)) == 3 && Free(img, 3)
    ensures !Owned(img, owner, 0)
  {
    assert IsRef(Slot(Root, 0));
  }

  /**
   * fsformat. It gets through exactly when everything fits; the image is then as described, unless there were no
   * files, in which case the root names a block that the bitmap shows free.
   */
  method Format(nblocks: nat, files: seq<Input>) returns (ok: bool, img: Image, ghost ents: seq<Block>)
    requires forall e: nat :: e < |files| ==> |files[e].name| < 128
    ensures ok <==> Fitting(nblocks, files)
    ensures ok ==> |img| == nblocks && W(img, 1, 0) == FS_MAGIC && W(img, 1, 1) == nblocks
    ensures ok && files != [] ==> Formatted(img, ents, files)
    ensures ok && files == [] ==> Target(img, Slot(Root, 0)) == 3 && Free(img, 3)
  {
    ok, img, ents := false, [], [];
    if nblocks < 4 || nblocks > 1024 {
      return;
    }
    var d := new Formatter(nblocks);
    ghost var super := d.img[1];
    ok := WriteFiles(d, files);
    if !ok {
      return;
    }
    ghost var built, start := d.img, d.pos;
    ok := d.FinishDir(files);
    if !ok {
      return;
    }
    d.FinishDisk();
    img, ents := d.img, d.ents;
    if files != [] {
      FormattedNow(built, img, ents, files);
    } else {
      EmptyListBroken(img);
    }
  }

  /** Formatting, mounting, looking a file up and reading it gives back its bytes. */
  method FormatThenRead(nblocks: nat, files: seq<Input>, e: nat) returns (ok: bool, r: int, back: seq<byte>)
    requires ProperNames(files) && e < |files|
    ensures ok <==> Fitting(nblocks, files)
    ensures ok ==> r == |files[e].data| && back == files[e].data
  {
    var img;
    ghost var ents;
    r, back := 0, [];
    ok, img, ents := Format(nblocks, files);
    if !ok {
      return;
    }
    FormattedSound(img, ents, files);
    var server := new Server(img, Owner(files));
    r, back := ReadBack(server, files, e, ents);
  }

  /** The flat files a run on a formatted image starts from are the inputs. */
  lemma InputsAreFlat(img: Image, ents: seq<Block>, files: seq<Input>, e: nat)
    requires Formatted(img, ents, files) && ProperNames(files) && e < |files|
    ensures FlatSize(img, [], NodeOf(e)) == |files[e].data|
    ensures forall x: nat :: x < |files[e].data| ==> FlatByte(img, [], NodeOf(e), x) == files[e].data[x] as int
  {
    FileSeen(img, ents, files, e);
    FileHolds(img, ents, files, e);
    var f := NodeOf(e);
    forall x: nat | x < |files[e].data| ensures FlatByte(img, [], f, x) == files[e].data[x] as int {
      assert Byte(img, f, x / BLKSIZE, x % BLKSIZE) == files[e].data[BLKSIZE * (x / BLKSIZE) + x % BLKSIZE - 0] as int;
    }
  }

  /**
   * Formatting, mounting and any run of operations, until after a cut the directory would have to grow: each does what
   * it should, the disk is in order after every one, and reads return what flat files starting as the inputs would.
   */
  method FormatThenRun(nblocks: nat, files: seq<Input>, ops: seq<Op>)
    returns (ok: bool, n: nat, outs: seq<Outcome>, img: Image, ghost log: seq<Event>)
    requires ProperNames(files) && files != [] && forall i: nat :: i < |ops| ==> Proper(ops[i])
    ensures ok <==> Fitting(nblocks, files)
    ensures ok ==> var start := Stage(img, img, []);
      && Intact(start) && n <= |ops| && Reported(log, ops[..n], outs) && Story(start, log) && Refined(start, log)
      && (n < |ops| ==> Barred(start, log, ops[n], true, true))
    ensures ok ==> forall e: nat :: e < |files| ==>
      && FlatSize(img, [], NodeOf(e)) == |files[e].data|
      && forall x: nat :: x < |files[e].data| ==> FlatByte(img, [], NodeOf(e), x) == files[e].data[x] as int
  {
    ghost var ents;
    n, outs, log := 0, [], [];
    ok, img, ents := Format(nblocks, files);
    if !ok {
      return;
    }
    FormattedSound(img, ents, files);
    FormattedVacant(img, ents, files);
    FormattedReady(img, ents, files);
    forall e: nat | e < |files|
      ensures FlatSize(img, [], NodeOf(e)) == |files[e].data|
      ensures forall x: nat :: x < |files[e].data| ==> FlatByte(img, [], NodeOf(e), x) == files[e].data[x] as int
    {
      InputsAreFlat(img, ents, files, e);
    }
    var server := new Server(img, Owner(files));
    PresentIntact(server, [], Stage(img, img, []));
    var files';
    n, outs, files', log := Run(server, [], [], ops, true, true);
  }

  /** Looking up and reading file e of a freshly mounted image. */
  method ReadBack(server: Server, files: seq<Input>, e: nat, ghost ents: seq<Block>) returns (r: int, back: seq<byte>)
    requires server.Valid() && Formatted(server.img, ents, files) && ProperNames(files) && e < |files|
    modifies server
    ensures r == |files[e].data| && back == files[e].data
  {
    FormattedComplete(server.img, ents, files);
    CompleteIsSafe(server.img);
    FileSeen(server.img, ents, files, e);
    FileHolds(server.img, ents, files, e);
    ghost var img := server.img;
    var q;
    ghost var g;
    r, q, g := server.DirLookup(files[e].name);
    Found(img, ents, files, e, r, g);
    r, back := server.FileRead(q, g, |files[e].data|, 0);
    assert SameInfo(img, server.img, g);
    OwnOfData(img, server.img, g);
    HoldsKept(img, server.img, g, 0, files[e].data);
    HoldsNoGap(server.img, g, 0, files[e].data);
    HoldsUnique(server.img, g, 0, files[e].data, back);
  }

  lemma FormattedComplete(img: Image, ents: seq<Block>, files: seq<Input>)
    requires Formatted(img, ents, files)
    ensures DirComplete(img) && Size(img, Root) == BLKSIZE * DirBlocks(files)
  {
    DirCount(files);
    SizeReads(img, Root);
    forall i: nat | i < MAXBLOCKS && BLKSIZE * i < Size(img, Root) ensures Target(img, Slot(Root, i)) != 0 {
      RootWanted(img, ents, files, Slot(Root, i));
    }
  }

  /** The lookup of an input's name finds that input. */
  lemma Found(img: Image, ents: seq<Block>, files: seq<Input>, e: nat, r: int, g: Node)
    requires Formatted(img, ents, files) && ProperNames(files) && e < |files| && (r == 0 || r == -E_NOT_FOUND)
    requires r == 0 ==> Matches(img, g, files[e].name)
    requires r == -E_NOT_FOUND ==> NoneNamed(img, Size(img, Root) / BLKSIZE, files[e].name)
    ensures r == 0 && g == NodeOf(e)
  {
    FormattedComplete(img, ents, files);
    FileSeen(img, ents, files, e);
    EntryIn(files, e / 16, e % 16);
    if r == 0 { NameFinds(img, ents, files, e, g); }
  }
}
