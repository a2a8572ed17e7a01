/** The file server's table of open files and its read and write requests (fs/serv.c). */
module OpenFiles {
  import opened Blocks
  import opened FsLayout
  import opened FsInvariant
  import opened FileSystem
  import opened Base

  const MAXOPEN := 1024
  const E_MAX_OPEN := 11
  const E_NO_MEM := 4

  /** An entry of opentab with the seek position kept in its Fd page. */
  datatype OpenFile = OpenFile(fileid: nat, file: Ptr, offset: nat)

  /** A 32-bit word as a C int. */
  function Signed(w: nat): int { if w < OFF_MAX then w else w - WORD }

  /** The id after n further allocations of the same slot. */
  function Later(id: nat, n: nat): nat { (id + MAXOPEN * n) % WORD }

  /** A file id is not given out again until its slot has been allocated 2^22 times. */
  lemma StaleFileId(id: nat, n: nat)
    requires id < WORD && 0 < n < 0x40_0000
    ensures Later(id, n) != id && Later(id, 0x40_0000) == id && Later(id, n) % MAXOPEN == id % MAXOPEN
  {
    var x := id + MAXOPEN * n;
    assert 0 < MAXOPEN * n < WORD;
    assert x < WORD ==> x % WORD == x;
    assert x >= WORD ==> x % WORD == x - WORD;
    assert (id + WORD) % WORD == id;
    ModSlot(id, n);
    if x >= WORD { ModSlot(x - WORD, 0x40_0000); }
  }

  lemma ModSlot(id: nat, n: nat)
    ensures (id + MAXOPEN * n) % MAXOPEN == id % MAXOPEN
  {
    assert id + MAXOPEN * n == MAXOPEN * (id / MAXOPEN + n) + id % MAXOPEN;
  }

  /** A pointer to a named regular file, or to the root. */
  ghost predicate Names(img: Image, p: Ptr, f: Node) { At(img, p, f) && (f.Entry? ==> Char(img, f, 0) != 0) }

  lemma StillNames(img: Image, new': Image, p: Ptr, f: Node)
    requires Names(img, p, f) && Kept(img, new')
    ensures Names(new', p, f)
  {
    AtKept(img, new', p, f);
    assert SameInfo(img, new', f);
  }

  /** An operation on f leaves the others named. */
  ghost predicate Apart(img: Image, new': Image, f: Node) {
    f.Entry? && OthersSame(img, new', f) && SameOtherInfos(img, new', f) && SameLabel(img, new', f)
  }

  lemma OtherNames(img: Image, new': Image, f: Node, p: Ptr, g: Node)
    requires Names(img, p, g) && Apart(img, new', f)
    ensures Names(new', p, g)
  {
    if g.Entry? {
      EntryHome(img, g);
      EntryHome(new', g);
    }
    assert g != f ==> SameInfo(img, new', g);
  }

  /** So does the creation of a file in an unused entry g, or in none if g is the root. */
  ghost predicate Made(img: Image, new': Image, g: Node) {
    Created(img, new', g) && (g == Root || Char(img, g, 0) == 0)
  }

  lemma MadeNames(img: Image, new': Image, g: Node, p: Ptr, f: Node)
    requires Names(img, p, f) && Made(img, new', g)
    ensures Names(new', p, f)
  {
    if f.Entry? {
      EntryHome(img, f);
      EntryHome(new', f);
      assert SameInfo(img, new', f);
    }
  }

  lemma KeptIsMade(img: Image, new': Image)
    requires KeptFiles(img, new') || Kept(img, new')
    ensures Made(img, new', Root)
  {
    if Kept(img, new') { KeptIsKeptFiles(img, new'); }
  }

  // ---- file_open and file_create ----

  lemma ComponentText(path: seq<byte>)
    ensures Components(path) != [] ==> Components(path)[0] != []
  {
  }

  /** What a path resolves to is the root or a named file. */
  lemma ResolvedNames(img: Image, path: seq<byte>, q: Ptr, g: Node)
    requires At(img, q, g) && Resolves(img, Components(path), g) && Home(img, g) < |img|
    ensures Names(img, q, g)
  {
    ComponentText(path);
    if g.Entry? && Char(img, g, 0) == 0 { EmptyName(img, g); }
  }

  /** A complete directory's search misses no entry. */
  lemma NotMissing(img: Image, g: Node, name: seq<byte>)
    requires Trimmed(img, Root) && Directory(img) && Matches(img, g, name)
    ensures !Missing(img, name)
  {
    EntryHome(img, g);
    assert Target(img, Slot(Root, g.i)) != 0;
    assert g == Entry(g.i, g.j);
  }

  ghost predicate NotThere(img: Image, c: seq<seq<byte>>) { |c| > 1 || (|c| == 1 && Missing(img, c[0])) }

  /** file_open. */
  method FileOpen(fs: Server, path: seq<byte>) returns (r: int, q: Ptr, ghost g: Node)
    requires fs.Valid() && Text(path) && LookupSafe(fs.img)
    modifies fs
    ensures fs.Valid() && Kept(old(fs.img), fs.img) && (old(DirComplete(fs.img)) ==> fs.img == old(fs.img))
    ensures r == 0 || r == -E_NOT_FOUND || r == -E_BAD_PATH || r == -E_NO_DISK || r == -E_INVAL
    ensures r == 0 ==> Names(fs.img, q, g) && Resolves(fs.img, Components(path), g)
    ensures r == -E_NOT_FOUND ==> NotThere(fs.img, Components(path))
    ensures r == -E_BAD_PATH ==> LongName(Components(path))
    ensures r == -E_NO_DISK ==> forall b: nat :: b < |fs.img| ==> !Free(fs.img, b)
    ensures r == -E_INVAL ==> old(Size(fs.img, Root)) > BLKSIZE * MAXBLOCKS
    ensures old(DirComplete(fs.img)) ==> r != -E_NO_DISK && r != -E_INVAL
    ensures FreeKept(old(fs.img), fs.img)
  {
    var inRoot, last;
    r, q, g, inRoot, last := fs.WalkPath(path);
    if r == 0 {
      HomeInUse(fs.img, fs.owner, 0, Ind(g));
      ResolvedNames(fs.img, path, q, g);
    }
  }

  lemma ResolvedIsThere(img: Image, c: seq<seq<byte>>, h: Node)
    requires Trimmed(img, Root) && Directory(img) && Resolves(img, c, h)
    ensures !NotThere(img, c)
  {
    if c != [] { NotMissing(img, h, c[0]); }
  }

  /**
   * The O_CREAT half of serve_open: file_create, where an existing file is an error only under O_EXCL, then file_open.
   * `made` is the entry a new file was created in, or the root if none was.
   */
  method CreateOpen(fs: Server, path: seq<byte>, excl: bool) returns (r: int, q: Ptr, ghost g: Node, ghost made: Node)
    requires fs.Valid() && Text(path) && DirComplete(fs.img) && (HasRoom(fs.img) || DirReady(fs.img))
    modifies fs
    ensures fs.Valid() && Made(old(fs.img), fs.img, made)
    ensures r == 0 || r == -E_FILE_EXISTS || r == -E_NOT_FOUND || r == -E_BAD_PATH || r == -E_NO_DISK || r == -E_INVAL
    ensures r == 0 ==> Names(fs.img, q, g) && Resolves(fs.img, Components(path), g)
    ensures r == -E_FILE_EXISTS ==> excl && exists h: Node :: Resolves(fs.img, Components(path), h)
    ensures r == -E_NOT_FOUND ==> |Components(path)| > 1
    ensures r == -E_BAD_PATH ==> LongName(Components(path))
    ensures made != Root ==> r == 0 && g == made && OnlyNamed(fs.img, g, Components(path)[0]) && Size(fs.img, g) == 0
    ensures made == Root && r == 0 ==> fs.img == old(fs.img) && !excl
  {
    CompleteIsSafe(fs.img);
    r, q, g := fs.FileCreate(path);
    if r < 0 {
      made := Root;
      KeptIsMade(old(fs.img), fs.img);
      if excl || r != -E_FILE_EXISTS {
        return;
      }
      ghost var h :| Resolves(fs.img, Components(path), h);
      ResolvedIsThere(fs.img, Components(path), h);
    } else {
      made := g;
      ResolvedIsThere(fs.img, Components(path), g);
    }
    CompleteIsSafe(fs.img);
    r, q, g := FileOpen(fs, path);
  }

  /** Why an open fails. */
  ghost predicate Explained(img: Image, c: seq<seq<byte>>, create: bool, excl: bool, r: int) {
    && (r == 0 || r == -E_FILE_EXISTS || r == -E_NOT_FOUND || r == -E_BAD_PATH || r == -E_NO_DISK || r == -E_INVAL)
    && (r == -E_FILE_EXISTS ==> create && excl && exists h: Node :: Resolves(img, c, h))
    && (r == -E_NOT_FOUND ==> NotThere(img, c) && (create ==> |c| > 1))
    && (r == -E_BAD_PATH ==> LongName(c))
  }

  /** The file serve_open opens. */
  method OpenPath(fs: Server, path: seq<byte>, create: bool, excl: bool)
    returns (r: int, q: Ptr, ghost g: Node, ghost made: Node)
    requires fs.Valid() && Text(path) && LookupSafe(fs.img)
    requires create ==> DirComplete(fs.img) && (HasRoom(fs.img) || DirReady(fs.img))
    modifies fs
    ensures fs.Valid() && Made(old(fs.img), fs.img, made) && (!create ==> Kept(old(fs.img), fs.img))
    ensures Explained(fs.img, Components(path), create, excl, r)
    ensures r == 0 ==> Names(fs.img, q, g) && Resolves(fs.img, Components(path), g)
    ensures made != Root ==> r == 0 && g == made && OnlyNamed(fs.img, g, Components(path)[0]) && Size(fs.img, g) == 0
  {
    if create {
      r, q, g, made := CreateOpen(fs, path, excl);
    } else {
      made := Root;
      r, q, g := FileOpen(fs, path);
      KeptIsMade(old(fs.img), fs.img);
    }
  }

  // ---- the open files ----

  class OpenTable {
    const fs: Server
    var tab: seq<OpenFile>
    ghost var node: seq<Option<Node>>   // the file behind each entry, once opened

    ghost predicate Valid()
      reads this, fs
    {
      && fs.Valid() && |tab| == |node| == MAXOPEN
      && (forall i: nat :: i < MAXOPEN ==> tab[i].fileid < WORD && tab[i].fileid % MAXOPEN == i)
      && (forall i: nat :: i < MAXOPEN && node[i].Some? ==> Names(fs.img, tab[i].file, node[i].value))
    }

    /** A client holds the id of entry k, its Fd page being mapped outside the server too. */
    predicate Open(k: nat, fileid: nat, refs: seq<nat>)
      reads this
      requires |tab| == |refs| == MAXOPEN
    {
      k < MAXOPEN && refs[k] > 1 && tab[k].fileid == fileid
    }

    /** serve_init. */
    constructor (fs: Server)
      requires fs.Valid()
      ensures Valid() && this.fs == fs
      ensures forall i: nat :: i < MAXOPEN ==> tab[i].fileid == i && tab[i].offset == 0 && node[i] == None
    {
      this.fs := fs;
      tab := seq(MAXOPEN, i requires 0 <= i < MAXOPEN => OpenFile(i, Ptr(0, 0), 0));
      node := seq(MAXOPEN, i => None);
    }

    /**
     * openfile_alloc: the first entry whose Fd page nobody else maps gets the next id of its slot. `refs` are the
     * reference counts of the Fd pages; `memory` says whether a page can be had for an entry that has none.
     */
    method OpenfileAlloc(refs: seq<nat>, memory: bool) returns (r: int, i: nat)
      requires Valid() && |refs| == MAXOPEN
      modifies this
      ensures Valid() && i <= MAXOPEN && forall k: nat :: k < i ==> refs[k] > 1
      ensures i == MAXOPEN ==> r == -E_MAX_OPEN && tab == old(tab) && node == old(node)
      ensures i < MAXOPEN ==> refs[i] <= 1
      ensures i < MAXOPEN && (refs[i] == 1 || memory) ==>
        && r == Signed(tab[i].fileid) && tab[i].fileid == Later(old(tab)[i].fileid, 1) && tab[i].offset == 0
        && tab == old(tab)[i := tab[i]] && node == old(node)[i := None]
      ensures i < MAXOPEN && refs[i] == 0 && !memory ==> r == -E_NO_MEM && tab == old(tab) && node == old(node)
    {
      i := 0;
      while i < MAXOPEN && refs[i] > 1
        invariant i <= MAXOPEN && forall k: nat :: k < i ==> refs[k] > 1
      {
        i := i + 1;
      }
      if i == MAXOPEN {
        return -E_MAX_OPEN, i;
      }
      if refs[i] == 0 && !memory {
        return -E_NO_MEM, i;
      }
      StaleFileId(tab[i].fileid, 1);
      tab := tab[i := OpenFile((tab[i].fileid + MAXOPEN) % WORD, tab[i].file, 0)];
      node := node[i := None];
      r := Signed(tab[i].fileid);
    }

    /**
     * serve_open without O_TRUNC: the first entry that is not in use, under a new id, for the file the path names.
     * Ids from 2^31 on are negative as the result of openfile_alloc, and taken for errors.
     */
    method ServeOpen(path: seq<byte>, create: bool, excl: bool, refs: seq<nat>, memory: bool)
      returns (r: int, i: nat, ghost made: Node)
      requires Valid() && |refs| == MAXOPEN && Text(path) && LookupSafe(fs.img)
      requires create ==> DirComplete(fs.img) && (HasRoom(fs.img) || DirReady(fs.img))
      modifies this, fs
      ensures Valid() && Made(old(fs.img), fs.img, made) && (!create ==> Kept(old(fs.img), fs.img))
      ensures forall k: nat :: k < MAXOPEN && (k != i || refs[k] > 1) ==>
        tab[k] == old(tab)[k] && node[k] == old(node)[k]
      ensures r == 0 ==>
        && i < MAXOPEN && refs[i] <= 1 && tab[i].fileid == Later(old(tab)[i].fileid, 1) < OFF_MAX && tab[i].offset == 0
        && node[i].Some? && Resolves(fs.img, Components(path), node[i].value)
      ensures made != Root ==>
        r == 0 && node[i] == Some(made) && OnlyNamed(fs.img, made, Components(path)[0]) && Size(fs.img, made) == 0
      ensures i == MAXOPEN ==> r == -E_MAX_OPEN && forall k: nat :: k < MAXOPEN ==> refs[k] > 1
      ensures i < MAXOPEN && (refs[i] == 1 || memory) && tab[i].fileid < OFF_MAX ==>
        Explained(fs.img, Components(path), create, excl, r)
    {
      made := Root;
      KeptSelf(fs.img);
      KeptIsMade(fs.img, fs.img);
      r, i := OpenfileAlloc(refs, memory);
      if r < 0 {
        return;
      }
      var q;
      ghost var g;
      r, q, g, made := OpenPath(fs, path, create, excl);
      forall l: nat | l < MAXOPEN && node[l].Some? ensures Names(fs.img, tab[l].file, node[l].value) {
        MadeNames(old(fs.img), fs.img, made, tab[l].file, node[l].value);
      }
      if r == 0 {
        tab := tab[i := tab[i].(file := q)];
        node := node[i := Some(g)];
      }
    }

    /** openfile_lookup: the entry of that very id, if some client has it open. */
    method OpenfileLookup(fileid: nat, refs: seq<nat>) returns (r: int, i: nat)
      requires Valid() && |refs| == MAXOPEN && fileid < WORD
      ensures i < MAXOPEN && (r == 0 || r == -E_INVAL)
      ensures r == 0 ==> Open(i, fileid, refs)
      ensures r != 0 ==> forall k: nat :: !Open(k, fileid, refs)
    {
      i := fileid % MAXOPEN;
      r := if refs[i] <= 1 || tab[i].fileid != fileid then -E_INVAL else 0;
    }

    /** seek, by the client in the shared Fd page. */
    method Seek(i: nat, offset: nat)
      requires Valid() && i < MAXOPEN
      modifies `tab
      ensures Valid() && tab == old(tab)[i := old(tab)[i].(offset := offset)]
    {
      tab := tab[i := tab[i].(offset := offset)];
    }

    /** serve_read: the bytes at the seek position, which moves past them. */
    method ServeRead(fileid: nat, count: nat, refs: seq<nat>) returns (r: int, buf: seq<byte>, ghost i: nat)
      requires Valid() && |refs| == MAXOPEN && fileid < WORD
      requires forall k: nat :: Open(k, fileid, refs) ==> node[k].Some? && (node[k].value.Root? ==> LookupSafe(fs.img))
      modifies this, fs
      ensures Valid() && Kept(old(fs.img), fs.img) && node == old(node)
      ensures i < MAXOPEN && tab == old(tab)[i := tab[i]] && tab[i].fileid == old(tab)[i].fileid
      ensures r >= 0 ==> Open(i, fileid, refs) && node[i].Some? && Holds(fs.img, node[i].value, old(tab)[i].offset, buf)
      ensures r >= 0 ==> r == |buf| == Available(Size(fs.img, node[i].value), count, old(tab)[i].offset)
      ensures r >= 0 ==> r <= count && (r > 0 ==> tab[i].offset <= Size(fs.img, node[i].value))
      ensures 0 <= r < count ==> tab[i].offset >= Size(fs.img, node[i].value)
      ensures r >= 0 ==> tab[i] == old(tab)[i].(offset := old(tab)[i].offset + r)
      ensures r < 0 ==> tab == old(tab)
      ensures r < 0 ==> forall k: nat ::
        Open(k, fileid, refs) && node[k].Some? ==> Gap(fs.img, node[k].value, tab[k].offset, tab[k].offset + count)
    {
      KeptSelf(fs.img);
      buf := [];
      var k;
      r, k := OpenfileLookup(fileid, refs);
      i := k;
      if r < 0 {
        return;
      }
      ghost var f := node[k].value;
      r, buf := fs.FileRead(tab[k].file, f, count, tab[k].offset);
      forall l: nat | l < MAXOPEN && node[l].Some? ensures Names(fs.img, tab[l].file, node[l].value) {
        StillNames(old(fs.img), fs.img, tab[l].file, node[l].value);
      }
      if r >= 0 {
        tab := tab[k := tab[k].(offset := tab[k].offset + r)];
      }
    }

    /** serve_write: the bytes go to the seek position, which moves past them; every other byte stays. */
    method ServeWrite(fileid: nat, data: seq<byte>, refs: seq<nat>) returns (r: int, ghost i: nat)
      requires Valid() && |refs| == MAXOPEN && fileid < WORD
      requires forall k: nat :: Open(k, fileid, refs) ==>
        node[k].Some? && node[k].value.Entry? && tab[k].offset + |data| < OFF_MAX
      modifies this, fs
      ensures Valid() && node == old(node) && i < MAXOPEN
      ensures tab == old(tab)[i := tab[i]] && tab[i].fileid == old(tab)[i].fileid
      ensures r >= 0 ==>
        r == |data| && Open(i, fileid, refs) && tab[i] == old(tab)[i].(offset := old(tab)[i].offset + r)
      ensures r >= 0 ==> node[i].Some? && Holds(fs.img, node[i].value, old(tab)[i].offset, data)
      ensures r >= 0 ==> BytesSame(old(fs.img), fs.img, node[i].value, old(tab)[i].offset, tab[i].offset)
      ensures r >= 0 ==> Size(fs.img, node[i].value) >= tab[i].offset
      ensures r < 0 ==> tab == old(tab) && (r == -E_INVAL || r == -E_NO_DISK)
      ensures r == -E_NO_DISK ==> forall b: nat :: b < |fs.img| ==> !Free(fs.img, b)
      ensures r < 0 ==> forall k: nat :: Open(k, fileid, refs) && node[k].Some? ==>
        && Gap(fs.img, node[k].value, tab[k].offset, tab[k].offset + |data|)
        && (r == -E_INVAL ==> tab[k].offset + |data| > BLKSIZE * MAXBLOCKS)
    {
      var k;
      r, k := OpenfileLookup(fileid, refs);
      i := k;
      if r < 0 {
        return;
      }
      ghost var f := node[k].value;
      r := fs.FileWrite(tab[k].file, f, data, tab[k].offset);
      forall l: nat | l < MAXOPEN && node[l].Some? ensures Names(fs.img, tab[l].file, node[l].value) {
        OtherNames(old(fs.img), fs.img, f, tab[l].file, node[l].value);
      }
      if r >= 0 {
        tab := tab[k := tab[k].(offset := tab[k].offset + r)];
      }
    }

    /** serve_flush: the file is on disk as reads see it. */
    method ServeFlush(fileid: nat, refs: seq<nat>) returns (r: int, ghost i: nat)
      requires Valid() && |refs| == MAXOPEN && fileid < WORD
      requires forall k: nat :: Open(k, fileid, refs) ==> node[k].Some?
      modifies fs
      ensures Valid() && Kept(old(fs.img), fs.img) && i < MAXOPEN
      ensures r == 0 ==>
        Open(i, fileid, refs) && node[i].Some? && Flushed(fs.st.disk, fs.img, tab[i].file, node[i].value)
      ensures r != 0 ==> r == -E_INVAL && fs.img == old(fs.img) && forall k: nat :: !Open(k, fileid, refs)
    {
      KeptSelf(fs.img);
      var k;
      r, k := OpenfileLookup(fileid, refs);
      i := k;
      if r < 0 {
        return;
      }
      fs.FileFlush(tab[k].file, node[k].value);
      forall l: nat | l < MAXOPEN && node[l].Some? ensures Names(fs.img, tab[l].file, node[l].value) {
        StillNames(old(fs.img), fs.img, tab[l].file, node[l].value);
      }
    }

    /** Entry i alone can be open under its id. */
    lemma OneOpen(i: nat, refs: seq<nat>)
      requires Valid() && |refs| == MAXOPEN && i < MAXOPEN
      ensures forall k: nat :: Open(k, tab[i].fileid, refs) ==> k == i
    {
    }

    /**
     * A client opens a file, writes to it, seeks back and reads: it gets its bytes. The reply to the open maps the Fd
     * page in the client, which makes two references of it.
     */
    method OpenWriteRead(path: seq<byte>, create: bool, data: seq<byte>, refs: seq<nat>, memory: bool)
      returns (r: int, w: int, n: int, back: seq<byte>)
      requires Valid() && |refs| == MAXOPEN && Text(path) && Components(path) != [] && LookupSafe(fs.img)
      requires create ==> DirComplete(fs.img) && (HasRoom(fs.img) || DirReady(fs.img))
      requires |data| < OFF_MAX
      modifies this, fs
      ensures Valid()
      ensures r == 0 && w >= 0 ==> w == n == |data| && back == data
    {
      var i;
      ghost var made, j;
      r, i, made := ServeOpen(path, create, false, refs, memory);
      w, n, back := 0, 0, [];
      if r != 0 {
        return;
      }
      var shared := refs[i := 2];
      ghost var f := node[i].value;
      OneOpen(i, shared);
      w, j := ServeWrite(tab[i].fileid, data, shared);
      if w < 0 {
        return;
      }
      ghost var mid := fs.img;
      Seek(i, 0);
      OneOpen(i, shared);
      n, back, j := ServeRead(tab[i].fileid, |data|, shared);
      OwnOfData(mid, fs.img, f);
      HoldsKept(mid, fs.img, f, 0, data);
      HoldsNoGap(fs.img, f, 0, data);
      assert SameInfo(mid, fs.img, f);
      HoldsUnique(fs.img, f, 0, data, back);
    }
  }
}
