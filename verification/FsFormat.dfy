/** The image builder, fs/fsformat.c, and its agreement with the file server. */
module FsFormat {
  import opened Blocks
  import opened FsLayout
  import opened FsInvariant
  import opened FileSystem

  const MAX_DIR_ENTS := 128
  const ENTBLOCKS := 8        // MAX_DIR_ENTS entries of 256 bytes

  datatype Input = Input(name: seq<byte>, data: seq<byte>)

  /** Blocks a file takes, its indirect block included: finishfile adds one as soon as there are NDIRECT blocks. */
  function Extent(size: nat): nat { BlockCount(size) + if BlockCount(size) >= NDIRECT then 1 else 0 }

  // ---- what finishfile leaves ----

  /** Block pointer k of the struct at word `base`: a direct slot, or for k = NDIRECT the indirect pointer. */
  function Pointer(b: Block, base: nat, k: nat): nat
    requires base + 64 <= BLKWORDS && k <= NDIRECT
  {
    Word(b, base + DIRECT + k)
  }

  function SetPointer(b: Block, base: nat, k: nat, w: nat): (c: Block)
    requires base + 64 <= BLKWORDS && k <= NDIRECT && w < WORD
    ensures Pointer(c, base, k) == w && Word(c, base + SIZE) == Word(b, base + SIZE) && OnlyLayout(b, c, base)
    ensures forall l: nat :: l <= NDIRECT && l != k ==> Pointer(c, base, l) == Pointer(b, base, l)
  {
    SetWord(b, base + DIRECT + k, w)
  }

  lemma OnlyLayoutTwice(a: Block, b: Block, c: Block, base: nat)
    requires base + 64 <= BLKWORDS && OnlyLayout(a, b, base) && OnlyLayout(b, c, base)
    ensures OnlyLayout(a, c, base)
  {
  }

  ghost predicate NoPointers(b: Block, base: nat)
    requires base + 64 <= BLKWORDS
  {
    forall k: nat :: k <= NDIRECT ==> Pointer(b, base, k) == 0
  }

  /** The direct slots name consecutive blocks from `start`, the first n of them. */
  ghost predicate Directs(b: Block, base: nat, start: nat, n: nat)
    requires base + 64 <= BLKWORDS
  {
    forall k: nat :: k < NDIRECT ==> Pointer(b, base, k) == if k < n then start + k else 0
  }

  /** The struct at word `base` of block b describes a file of this size laid out from block `start`. */
  ghost predicate Describes(b: Block, base: nat, start: nat, size: nat)
    requires base + 64 <= BLKWORDS
  {
    && Word(b, base + SIZE) == size
    && Directs(b, base, start, BlockCount(size))
    && Pointer(b, base, NDIRECT) == if BlockCount(size) >= NDIRECT then start + BlockCount(size) else 0
  }

  /** The indirect table of such a file. */
  ghost predicate Tabulates(b: Block, start: nat, size: nat) {
    forall k: nat {:trigger Word(b, k)} :: k < BLKWORDS ==>
      Word(b, k) == if k + NDIRECT < BlockCount(size) then start + NDIRECT + k else 0
  }

  function DataByte(img: Image, start: nat, k: nat, o: nat): int {
    if start + k < |img| && o < BLKSIZE then img[start + k][o] as int else -1
  }

  /** The data, block by block, from block `start` of the image on. */
  ghost predicate Contains(img: Image, start: nat, data: seq<byte>) {
    && start + BlockCount(|data|) <= |img|
    && forall k: nat, o: nat {:trigger DataByte(img, start, k, o)} :: o < BLKSIZE && BLKSIZE * k + o < |data| ==>
         DataByte(img, start, k, o) == data[BLKSIZE * k + o] as int
  }

  /** Words and bytes of a struct File after its name and type, and before the padding. */
  ghost predicate OnlyLayout(b: Block, c: Block, base: nat)
    requires base + 64 <= BLKWORDS
  {
    && (forall i: nat {:trigger Word(c, i)} ::
          i < BLKWORDS && (i < base + SIZE || i == base + TYPE || base + INDIRECT < i) ==>
          Word(c, i) == Word(b, i))
    && (forall x: nat {:trigger c[x]} :: x < BLKSIZE && (x < 4 * (base + SIZE) || 4 * (base + INDIRECT + 1) <= x) ==>
      c[x] == b[x])
  }

  /** The first n blocks of the data are in place. */
  ghost predicate HoldsTo(img: Image, start: nat, data: seq<byte>, n: nat) {
    forall k: nat, o: nat {:trigger DataByte(img, start, k, o)} :: k < n && o < BLKSIZE && BLKSIZE * k + o < |data| ==>
      DataByte(img, start, k, o) == data[BLKSIZE * k + o] as int
  }

  /** Block k of the data, copied to its place. */
  function WithPiece(img: Image, start: nat, data: seq<byte>, k: nat): (r: Image)
    requires BLKSIZE * k < |data| && start + k < |img|
    ensures OnlyBlock(img, r, start + k)
    ensures forall o: nat {:trigger DataByte(r, start, k, o)} :: o < BLKSIZE && BLKSIZE * k + o < |data| ==>
      DataByte(r, start, k, o) == data[BLKSIZE * k + o] as int
  {
    var hi := if BLKSIZE * k + BLKSIZE < |data| then BLKSIZE * k + BLKSIZE else |data|;
    img[start + k := Splice(img[start + k], 0, data[BLKSIZE * k..hi])]
  }

  lemma CopyOne(img: Image, new': Image, start: nat, data: seq<byte>, k: nat)
    requires start + k < |img| && HoldsTo(img, start, data, k) && OnlyBlock(img, new', start + k)
    requires forall o: nat {:trigger DataByte(new', start, k, o)} :: o < BLKSIZE && BLKSIZE * k + o < |data| ==>
      DataByte(new', start, k, o) == data[BLKSIZE * k + o] as int
    ensures HoldsTo(new', start, data, k + 1)
  {
    forall l: nat, o: nat | l < k && o < BLKSIZE && BLKSIZE * l + o < |data|
      ensures DataByte(new', start, l, o) == data[BLKSIZE * l + o] as int
    {
      assert DataByte(new', start, l, o) == DataByte(img, start, l, o);
    }
  }

  lemma AllCopied(img: Image, start: nat, data: seq<byte>)
    requires start + BlockCount(|data|) <= |img| && HoldsTo(img, start, data, BlockCount(|data|))
    ensures Contains(img, start, data)
  {
    forall k: nat, o: nat | o < BLKSIZE && BLKSIZE * k + o < |data|
      ensures DataByte(img, start, k, o) == data[BLKSIZE * k + o] as int
    {
      BlocksBound(|data|, k);
    }
  }

  // ---- the files laid out one after another ----

  /** First block of file e; the files follow the boot, super and bitmap blocks without gaps. */
  function Start(files: seq<Input>, e: nat): (s: nat)
    requires e <= |files|
    ensures 3 <= s
  {
    if e == 0 then 3 else Start(files, e - 1) + Extent(|files[e - 1].data|)
  }

  /** The name field at byte o. */
  ghost predicate NameAt(b: Block, o: nat, name: seq<byte>) {
    && o + 128 <= BLKSIZE && |name| < 128 && b[o + 127] == 0 && b[o + |name|] == 0
    && forall x: nat :: x < |name| ==> b[o + x] == name[x]
  }

  /** Entry j of an entry block describes a file laid out from block `start`, and the image holds it there. */
  ghost predicate Laid(b: Block, j: nat, img: Image, start: nat, f: Input)
    requires j < BLKFILES
  {
    && Describes(b, 64 * j, start, |f.data|) && Word(b, 64 * j + TYPE) == 0 && NameAt(b, 256 * j, f.name)
    && BlockCount(|f.data|) <= MAXBLOCKS && start + Extent(|f.data|) < |img| && Contains(img, start, f.data)
    && (BlockCount(|f.data|) >= NDIRECT ==> Tabulates(img[start + BlockCount(|f.data|)], start, |f.data|))
  }

  /** Entry j has not been used. */
  ghost predicate BlankEntry(b: Block, j: nat)
    requires j < BLKFILES
  {
    && (forall x: nat :: 256 * j <= x < 256 * j + 256 ==> b[x] == 0)
    && (forall i: nat :: 64 * j <= i < 64 * j + 64 ==> Word(b, i) == 0)
  }

  /** Blocks b and c differ only inside entry j. */
  ghost predicate OnlyEntry(b: Block, c: Block, j: nat)
    requires j < BLKFILES
  {
    && (forall x: nat :: x < BLKSIZE && (x < 256 * j || 256 * j + 256 <= x) ==> c[x] == b[x])
    && (forall i: nat :: i < BLKWORDS && (i < 64 * j || 64 * j + 64 <= i) ==> Word(c, i) == Word(b, i))
  }

  lemma LaidElsewhere(b: Block, c: Block, j: nat, l: nat, img: Image, start: nat, f: Input)
    requires j < BLKFILES && l < BLKFILES && l != j && OnlyEntry(b, c, j) && Laid(b, l, img, start, f)
    ensures Laid(c, l, img, start, f)
  {
    assert forall k: nat :: k <= NDIRECT ==> Pointer(c, 64 * l, k) == Pointer(b, 64 * l, k);
  }

  lemma ContainsLater(img: Image, new': Image, start: nat, data: seq<byte>)
    requires Contains(img, start, data) && |new'| == |img|
    requires forall x: nat :: start <= x < start + BlockCount(|data|) ==> new'[x] == img[x]
    ensures Contains(new', start, data)
  {
    forall k: nat, o: nat | o < BLKSIZE && BLKSIZE * k + o < |data|
      ensures DataByte(new', start, k, o) == data[BLKSIZE * k + o] as int
    {
      BlocksBound(|data|, k);
      assert DataByte(img, start, k, o) == data[BLKSIZE * k + o] as int;
    }
  }

  /** Later writes do not reach the blocks of an earlier file. */
  lemma LaidLater(b: Block, j: nat, img: Image, new': Image, start: nat, f: Input)
    requires j < BLKFILES && Laid(b, j, img, start, f) && |new'| == |img|
    requires forall x: nat :: x < start + Extent(|f.data|) ==> new'[x] == img[x]
    ensures Laid(b, j, new', start, f)
  {
    ContainsLater(img, new', start, f.data);
  }

  ghost predicate LaidAt(ents: seq<Block>, img: Image, files: seq<Input>, e: nat) {
    e < |files| <= MAX_DIR_ENTS && |ents| == ENTBLOCKS && Laid(ents[e / 16], e % 16, img, Start(files, e), files[e])
  }

  ghost predicate BlankAt(ents: seq<Block>, e: nat) {
    e < MAX_DIR_ENTS && |ents| == ENTBLOCKS && BlankEntry(ents[e / 16], e % 16)
  }

  /** The state between two calls of writefile: these files are laid out, everything else is zero. */
  ghost predicate Built(img: Image, pos: nat, ents: seq<Block>, n: nat, files: seq<Input>) {
    && n == |files| <= MAX_DIR_ENTS && |ents| == ENTBLOCKS && pos == Start(files, n) < |img| <= 1024
    && (forall e: nat :: e < n ==> LaidAt(ents, img, files, e))
    && (forall e: nat :: n <= e < MAX_DIR_ENTS ==> BlankAt(ents, e))
    && (forall b: nat :: pos <= b < |img| ==> Empty(img[b]))
  }

  lemma {:induction false} StartPrefix(files: seq<Input>, f: Input, e: nat)
    requires e <= |files|
    ensures Start(files + [f], e) == Start(files, e)
  {
    if e > 0 {
      StartPrefix(files, f, e - 1);
      assert (files + [f])[e - 1] == files[e - 1];
    }
  }

  lemma {:induction false} StartGrows(files: seq<Input>, d: nat, e: nat)
    requires d < e <= |files|
    ensures Start(files, d) + Extent(|files[d].data|) <= Start(files, e)
  {
    if d + 1 < e { StartGrows(files, d, e - 1); }
  }

  /** Adding one file to the layout. */
  lemma BuiltMore(img: Image, new': Image, ents: seq<Block>, c: Block, n: nat, files: seq<Input>, f: Input)
    requires n == |files| < MAX_DIR_ENTS && Built(img, Start(files, n), ents, n, files)
    requires |new'| == |img| && Start(files, n) + Extent(|f.data|) < |img|
    requires forall b: nat :: b < |img| && (b < Start(files, n) || Start(files, n) + Extent(|f.data|) <= b) ==>
      new'[b] == img[b]
    requires OnlyEntry(ents[n / 16], c, n % 16) && Laid(c, n % 16, new', Start(files, n), f)
    ensures Built(new', Start(files, n) + Extent(|f.data|), ents[n / 16 := c], n + 1, files + [f])
  {
    var all, more := files + [f], ents[n / 16 := c];
    StartPrefix(files, f, n);
    forall e: nat | e <= n ensures LaidAt(more, new', all, e) {
      StartPrefix(files, f, e);
      if e < n { LaidStays(img, new', ents, c, n, files, e); }
    }
    forall e: nat | n < e < MAX_DIR_ENTS ensures BlankAt(more, e) {
      assert BlankAt(ents, e);
      assert e / 16 == n / 16 ==> e % 16 > n % 16;
    }
  }

  lemma LaidStays(img: Image, new': Image, ents: seq<Block>, c: Block, n: nat, files: seq<Input>, e: nat)
    requires e < n == |files| < MAX_DIR_ENTS && LaidAt(ents, img, files, e) && |new'| == |img|
    requires forall b: nat :: b < |img| && b < Start(files, n) ==> new'[b] == img[b]
    requires OnlyEntry(ents[n / 16], c, n % 16)
    ensures Laid(ents[n / 16 := c][e / 16], e % 16, new', Start(files, e), files[e])
  {
    StartGrows(files, e, n);
    LaidLater(ents[e / 16], e % 16, img, new', Start(files, e), files[e]);
    if e / 16 == n / 16 {
      LaidElsewhere(ents[n / 16], c, n % 16, e % 16, new', Start(files, e), files[e]);
    }
  }

  /** strcpy of the name into a blank entry. */
  function Entered(b: Block, j: nat, name: seq<byte>): (c: Block)
    requires j < BLKFILES && |name| < 128 && BlankEntry(b, j)
    ensures NameAt(c, 256 * j, name) && OnlyEntry(b, c, j)
    ensures NoPointers(c, 64 * j) && Word(c, 64 * j + TYPE) == 0
  {
    Splice(b, 256 * j, name + [0])
  }

  /** What finishfile does to an entered block completes the entry. */
  lemma EntryDone(b: Block, a: Block, c: Block, j: nat, img: Image, start: nat, f: Input)
    requires j < BLKFILES && OnlyEntry(b, a, j) && NameAt(a, 256 * j, f.name) && Word(a, 64 * j + TYPE) == 0
    requires OnlyLayout(a, c, 64 * j) && Describes(c, 64 * j, start, |f.data|)
    requires BlockCount(|f.data|) <= MAXBLOCKS && start + Extent(|f.data|) < |img| && Contains(img, start, f.data)
    requires BlockCount(|f.data|) >= NDIRECT ==> Tabulates(img[start + BlockCount(|f.data|)], start, |f.data|)
    ensures OnlyEntry(b, c, j) && Laid(c, j, img, start, f)
  {
  }

  // ---- super block and directory ----

  /** What opendisk writes: magic number, size, and a root that is a directory of no blocks yet. */
  ghost predicate Superblock(b: Block, nblocks: nat) {
    Word(b, 0) == FS_MAGIC && Word(b, 1) == nblocks && Word(b, 2 + TYPE) == 1 && NoPointers(b, 2)
  }

  function NewSuper(nblocks: nat): (b: Block)
    requires nblocks < WORD
    ensures Superblock(b, nblocks) && CString(b, 8) == [SLASH]
  {
    ZerosEmpty();
    var b := SetWord(SetWord(SetWord(Zeros(), 0, FS_MAGIC), 1, nblocks), 2 + TYPE, 1);
    var named := Splice(b, 8, [SLASH, 0]);
    CStringIs(named, 8, [SLASH]);
    named
  }

  /** Copying only the used bytes of an entry block onto zeros copies all of it: the rest is zero. */
  lemma TailBlank(b: Block, ents: seq<Block>, n: nat, i: nat, m: nat)
    requires Empty(b) && |ents| == ENTBLOCKS && i < ENTBLOCKS && n <= MAX_DIR_ENTS && m <= BLKSIZE
    requires m == BLKSIZE || BLKSIZE * i + m == 256 * n
    requires forall e: nat :: n <= e < MAX_DIR_ENTS ==> BlankAt(ents, e)
    ensures Splice(b, 0, ents[i][..m]) == ents[i]
  {
    var c := Splice(b, 0, ents[i][..m]);
    forall x: nat | x < BLKSIZE ensures c[x] == ents[i][x] {
      if m <= x {
        var e := 16 * i + x / 256;
        assert BlankAt(ents, e);
        assert e / 16 == i && e % 16 == x / 256;
      }
    }
  }

  class Formatter {
    var img: Image        // the mapped disk
    var pos: nat          // blockof(diskpos): everything before it is allocated
    var ents: seq<Block>  // the root's entries, kept aside until finishdir
    var n: nat            // how many are used

    /** alloc(bytes), in blocks; false is the panic "out of disk blocks". */
    method Alloc(n: nat) returns (ok: bool, start: nat)
      modifies `pos
      ensures start == old(pos) && pos == old(pos) + n && (ok <==> pos < |img|)
    {
      start := pos;
      pos := pos + n;
      ok := pos < |img|;
    }

    /** The direct slots of finishfile. */
    method FillDirect(b: Block, base: nat, start: nat, size: nat) returns (c: Block)
      requires base + 64 <= BLKWORDS && size < OFF_MAX && start + BlockCount(size) < WORD
      requires NoPointers(b, base)
      ensures Word(c, base + SIZE) == size && OnlyLayout(b, c, base) && Pointer(c, base, NDIRECT) == 0
      ensures Directs(c, base, start, BlockCount(size))
    {
      c := SetWord(b, base + SIZE, size);
      assert forall k: nat :: k <= NDIRECT ==> Pointer(c, base, k) == Pointer(b, base, k);
      var i := 0;
      while i < BlockCount(size) && i < NDIRECT
        invariant i <= NDIRECT && i <= BlockCount(size)
        invariant Word(c, base + SIZE) == size && OnlyLayout(b, c, base) && Pointer(c, base, NDIRECT) == 0
        invariant Directs(c, base, start, i)
      {
        var d := SetPointer(c, base, i, start + i);
        OnlyLayoutTwice(b, c, d, base);
        c, i := d, i + 1;
      }
    }

    /** The indirect table of finishfile, in a block that holds zeros. */
    method FillTable(b: Block, start: nat, size: nat) returns (c: Block)
      requires Empty(b) && NDIRECT <= BlockCount(size) <= MAXBLOCKS && start + BlockCount(size) < WORD
      ensures Tabulates(c, start, size)
    {
      c := b;
      for i := NDIRECT to BlockCount(size)
        invariant forall k: nat {:trigger Word(c, k)} :: k < BLKWORDS ==>
          Word(c, k) == if k + NDIRECT < i then start + NDIRECT + k else 0
      {
        c := SetWord(c, i - NDIRECT, start + i);
      }
    }

    /** finishfile: the struct, and the indirect block when there are NDIRECT blocks or more. */
    method FinishFile(b: Block, base: nat, start: nat, size: nat) returns (ok: bool, c: Block)
      requires base + 64 <= BLKWORDS && BlockCount(size) <= MAXBLOCKS && start <= pos < |img| < OFF_MAX
      requires BlockCount(size) >= NDIRECT ==> start + BlockCount(size) == pos
      requires NoPointers(b, base)
      requires Empty(img[pos])
      modifies `img, `pos
      ensures |img| == old(|img|) && pos == old(pos) + (if BlockCount(size) >= NDIRECT then 1 else 0)
        && (ok <==> pos < |img|)
      ensures ok ==> Describes(c, base, start, size) && OnlyLayout(b, c, base)
      ensures ok && BlockCount(size) >= NDIRECT ==>
        OnlyBlock(old(img), img, old(pos)) && Tabulates(img[old(pos)], start, size)
      ensures BlockCount(size) < NDIRECT ==> img == old(img)
    {
      c := FillDirect(b, base, start, size);
      ok := true;
      if BlockCount(size) >= NDIRECT {
        var at;
        ok, at := Alloc(1);
        if ok {
          var d := SetPointer(c, base, NDIRECT, at);
          OnlyLayoutTwice(b, c, d, base);
          c := d;
          var t := FillTable(img[at], start, size);
          img := img[at := t];
        }
      }
    }

    /** readn into freshly allocated blocks. */
    method CopyIn(start: nat, data: seq<byte>)
      requires start + BlockCount(|data|) <= |img|
      modifies `img
      ensures |img| == old(|img|) && Contains(img, start, data)
      ensures forall b: nat :: b < |img| && (b < start || start + BlockCount(|data|) <= b) ==> img[b] == old(img)[b]
    {
      for k := 0 to BlockCount(|data|)
        invariant |img| == old(|img|) && HoldsTo(img, start, data, k)
        invariant forall b: nat :: b < |img| && (b < start || start + k <= b) ==> img[b] == old(img)[b]
      {
        BlocksBound(|data|, k);
        ghost var was := img;
        img := WithPiece(img, start, data, k);
        CopyOne(was, img, start, data, k);
      }
      AllCopied(img, start, data);
    }

    /** The part of writefile after diradd: space, contents, and the rest of the entry. */
    method PlaceFile(ghost b: Block, a: Block, j: nat, f: Input) returns (ok: bool, c: Block)
      requires |f.data| < BLKSIZE * MAXBLOCKS && j < BLKFILES && pos < |img| <= 1024
      requires OnlyEntry(b, a, j) && NameAt(a, 256 * j, f.name) && Word(a, 64 * j + TYPE) == 0 && NoPointers(a, 64 * j)
      requires forall x: nat :: pos <= x < |img| ==> Empty(img[x])
      modifies `img, `pos
      ensures |img| == old(|img|) && (ok <==> old(pos) + Extent(|f.data|) < |img|)
      ensures ok ==> pos == old(pos) + Extent(|f.data|) && OnlyEntry(b, c, j) && Laid(c, j, img, old(pos), f)
      ensures ok ==> forall x: nat :: x < |img| && (x < old(pos) || pos <= x) ==> img[x] == old(img)[x]
    {
      var start;
      ok, start := Alloc(BlockCount(|f.data|));
      c := a;
      if !ok {
        return;
      }
      CopyIn(start, f.data);
      ghost var mid := img;
      ok, c := FinishFile(a, 64 * j, start, |f.data|);
      if ok {
        ContainsLater(mid, img, start, f.data);
        EntryDone(b, a, c, j, img, start, f);
      }
    }

    /** writefile: a file too large, one too many, or one that does not fit is the end of the run. */
    method WriteFile(f: Input, ghost files: seq<Input>) returns (ok: bool)
      requires Built(img, pos, ents, n, files) && |f.name| < 128
      modifies this
      ensures ok ==> Built(img, pos, ents, n, files + [f]) && |img| == old(|img|)
      ensures ok ==> forall b: nat :: b < 3 ==> img[b] == old(img)[b]
      ensures ok <==>
        |f.data| < BLKSIZE * MAXBLOCKS && |files| < MAX_DIR_ENTS && old(pos) + Extent(|f.data|) < old(|img|)
    {
      if |f.data| >= BLKSIZE * MAXBLOCKS {
        return false;
      }
      var e, all := n, ents;
      n := n + 1;
      if n > MAX_DIR_ENTS {
        return false;
      }
      assert BlankAt(all, e);
      var a := Entered(all[e / 16], e % 16, f.name);
      var c;
      ghost var img0 := img;
      ok, c := PlaceFile(all[e / 16], a, e % 16, f);
      if ok {
        BuiltMore(img0, img, all, c, e, files, f);
        ents := all[e / 16 := c];
      }
    }

    /** opendisk: boot block, super block and bitmap, and an empty list of entries. */
    constructor (nblocks: nat)
      requires 4 <= nblocks <= 1024
      ensures Built(img, pos, ents, n, []) && |img| == nblocks && img[2] == Ones() && Superblock(img[1], nblocks)
    {
      ZerosEmpty();
      var s := NewSuper(nblocks);
      img := seq(nblocks, b => if b == 1 then s else if b == 2 then Ones() else Zeros());
      pos, ents, n := 3, seq(ENTBLOCKS, _ => Zeros()), 0;
      new;
      forall e: nat | e < MAX_DIR_ENTS ensures BlankAt(ents, e) {
        assert ents[e / 16] == Zeros();
      }
    }

    /** Block i of the entries, as far as they are used, copied onto a block of zeros. */
    method EntryBlock(b: Block, i: nat) returns (c: Block)
      requires |ents| == ENTBLOCKS && n <= MAX_DIR_ENTS && BLKSIZE * i < 256 * n && Empty(b)
      requires forall e: nat :: n <= e < MAX_DIR_ENTS ==> BlankAt(ents, e)
      ensures c == ents[i]
    {
      var m := if 256 * n - BLKSIZE * i < BLKSIZE then 256 * n - BLKSIZE * i else BLKSIZE;
      TailBlank(b, ents, n, i, m);
      c := Splice(b, 0, ents[i][..m]);
    }

    /** The memmove of finishdir: the used entries, block by block. */
    method CopyEntries(start: nat, ghost files: seq<Input>)
      requires |ents| == ENTBLOCKS && n == |files| <= MAX_DIR_ENTS && start + BlockCount(256 * n) < |img|
      requires forall e: nat :: n <= e < MAX_DIR_ENTS ==> BlankAt(ents, e)
      requires forall b: nat :: start <= b < |img| ==> Empty(img[b])
      modifies `img
      ensures |img| == old(|img|) && forall i: nat :: i < BlockCount(256 * n) ==> img[start + i] == ents[i]
      ensures forall b: nat :: b < |img| && (b < start || start + BlockCount(256 * n) <= b) ==> img[b] == old(img)[b]
    {
      for i := 0 to BlockCount(256 * n)
        invariant |img| == old(|img|) && forall l: nat :: l < i ==> img[start + l] == ents[l]
        invariant forall b: nat :: b < |img| && (b < start || start + i <= b) ==> img[b] == old(img)[b]
      {
        BlocksBound(256 * n, i);
        var b := EntryBlock(img[start + i], i);
        img := img[start + i := b];
      }
    }

    /** finishdir: the entries follow the files, and the root's struct describes them. */
    method FinishDir(ghost files: seq<Input>) returns (ok: bool)
      requires Built(img, pos, ents, n, files) && NoPointers(img[1], 2)
      modifies `img, `pos
      ensures |img| == old(|img|) && (ok <==> old(pos) + BlockCount(256 * n) < |img|)
      ensures ok ==> pos == old(pos) + BlockCount(256 * n) && OnlyLayout(old(img)[1], img[1], 2)
      ensures ok ==> Describes(img[1], 2, old(pos), if n == 0 then BLKSIZE else BLKSIZE * BlockCount(256 * n))
      ensures ok ==> forall i: nat :: i < BlockCount(256 * n) ==> img[old(pos) + i] == ents[i]
      ensures ok ==> forall b: nat :: b < |img| && b != 1 && (b < old(pos) || pos <= b) ==> img[b] == old(img)[b]
    {
      var start;
      ok, start := Alloc(BlockCount(256 * n));
      if !ok {
        return;
      }
      CopyEntries(start, files);
      // ROUNDUP is computed on a signed size here, and rounds 0 up to a whole block.
      var size := if n == 0 then BLKSIZE else BLKSIZE * BlockCount(256 * n);
      var c;
      ok, c := FinishFile(img[1], 2, start, size);
      img := img[1 := c];
    }

    /** finishdisk: the bitmap shows everything before diskpos in use. */
    method FinishDisk()
      requires 3 <= pos < |img| <= 1024 && img[2] == Ones()
      modifies `img
      ensures OnlyBlock(old(img), img, 2) && forall b: nat :: b < |img| ==> (Free(img, b) <==> pos <= b)
    {
      forall b: nat | b < |img| ensures Free(img, b) {
        OnesBits(b);
      }
      for i := 0 to pos
        invariant OnlyBlock(old(img), img, 2) && forall b: nat :: b < |img| ==> (Free(img, b) <==> i <= b)
      {
        img := MarkBit(img, i, false);
      }
    }
  }
}
