/** Runs of file operations: what they keep, and the flat byte arrays they behave like (fs/fs.c). */
module FileRuns {
  import opened Blocks
  import opened FsLayout
  import opened FsInvariant
  import opened FileSystem
  import opened OpenFiles

  // ---- files that are left alone ----

  ghost predicate Live(img: Image, f: Node) { IsNode(f) && f.Entry? && Home(img, f) != 0 && Char(img, f, 0) != 0 }

  /** The file f keeps its entry, its size and its bytes. */
  ghost predicate Steady(img: Image, new': Image, f: Node) {
    && Live(new', f) && Size(new', f) == Size(img, f)
    && forall k: nat, o: nat {:trigger Byte(new', f, k, o)} :: Byte(img, f, k, o) != -1 ==>
      Byte(new', f, k, o) == Byte(img, f, k, o)
  }

  lemma SteadyTwice(a: Image, b: Image, c: Image, f: Node)
    requires Steady(a, b, f) && Steady(b, c, f)
    ensures Steady(a, c, f)
  {
    forall k: nat, o: nat | Byte(a, f, k, o) != -1 ensures Byte(c, f, k, o) == Byte(a, f, k, o) {
      assert Byte(b, f, k, o) == Byte(a, f, k, o);
    }
  }

  lemma SteadyWhenMade(img: Image, new': Image, made: Node, f: Node)
    requires Made(img, new', made) && Live(img, f)
    ensures Steady(img, new', f)
  {
    assert SameInfo(img, new', f);
    forall k: nat, o: nat | Byte(img, f, k, o) != -1 ensures Byte(new', f, k, o) == Byte(img, f, k, o) {
      assert Target(new', Slot(f, k)) == Target(img, Slot(f, k));
    }
  }

  lemma SteadyWhenApart(img: Image, new': Image, g: Node, f: Node)
    requires Apart(img, new', g) && Live(img, f) && f != g
    requires (exists lo: nat, hi: nat :: BytesSame(img, new', g, lo, hi))
      || (exists lo: nat :: CutRefs(img, new', g, lo))
    ensures Steady(img, new', f)
  {
    assert SameInfo(img, new', f);
    forall k: nat, o: nat | Byte(img, f, k, o) != -1 ensures Byte(new', f, k, o) == Byte(img, f, k, o) {
      assert Target(new', Slot(f, k)) == Target(img, Slot(f, k));
    }
  }

  // ---- unused entries ----

  /** The unused entries of the directory. */
  ghost function Spare(img: Image): set<Node> {
    set i: nat, j: nat {:trigger Entry(i, j)}
      | i < MAXBLOCKS && j < BLKFILES && BLKSIZE * i < Size(img, Root) && Unused(img, Entry(i, j)) ::
      Entry(i, j)
  }

  lemma Fewer(a: set<Node>, b: set<Node>)
    requires a <= b
    ensures |a| <= |b|
  {
    assert b == a + (b - a);
  }

  lemma SpareIsRoom(img: Image)
    requires Spare(img) != {}
    ensures HasRoom(img)
  {
    var g :| g in Spare(img);
    assert IsNode(Entry(g.i, g.j));
  }

  /** The directory is still complete, and lost at most n unused entries. */
  ghost predicate SpareLeft(img: Image, new': Image, n: nat) { DirComplete(new') && |Spare(img)| <= |Spare(new')| + n }

  /** A directory that keeps its blocks and size keeps the entries that are not named. */
  lemma SpareStays(img: Image, new': Image, gone: set<Node>)
    requires DirComplete(img) && Size(new', Root) == Size(img, Root)
    requires forall k: nat :: k < MAXBLOCKS && Target(img, Slot(Root, k)) != 0 ==>
      Target(new', Slot(Root, k)) == Target(img, Slot(Root, k))
    requires forall g: Node :: IsNode(g) && g.Entry? && g !in gone && Unused(img, g) ==> Char(new', g, 0) == 0
    ensures SpareLeft(img, new', |gone|)
  {
    forall g | g in Spare(img) - gone ensures g in Spare(new') {
      EntryHome(img, g);
      EntryHome(new', g);
      assert g == Entry(g.i, g.j);
    }
    Fewer(Spare(img) - gone, Spare(new'));
    assert Spare(img) <= (Spare(img) - gone) + gone;
    Fewer(Spare(img), (Spare(img) - gone) + gone);
  }

  lemma SpareKept(img: Image, new': Image)
    requires DirComplete(img) && Kept(img, new')
    ensures SpareLeft(img, new', 0)
  {
    assert SameInfo(img, new', Root);
    forall g: Node | IsNode(g) && Unused(img, g) ensures Char(new', g, 0) == 0 {
      assert SameInfo(img, new', g);
    }
    SpareStays(img, new', {});
  }

  lemma SpareApart(img: Image, new': Image, f: Node)
    requires DirComplete(img) && Apart(img, new', f)
    ensures SpareLeft(img, new', 0)
  {
    assert SameInfo(img, new', Root);
    forall g: Node | IsNode(g) && Unused(img, g) ensures Char(new', g, 0) == 0 {
      assert g != f ==> SameInfo(img, new', g);
    }
    SpareStays(img, new', {});
  }

  lemma SpareMade(img: Image, new': Image, made: Node)
    requires DirComplete(img) && Created(img, new', made) && Size(new', Root) == Size(img, Root)
    ensures SpareLeft(img, new', 1)
  {
    forall g: Node | IsNode(g) && g.Entry? && g != made && Unused(img, g) ensures Char(new', g, 0) == 0 {
      assert SameInfo(img, new', g);
    }
    SpareStays(img, new', {made});
  }

  // ---- any run of operations ----

  /** An operation on the i-th of the files opened so far, or on the directory. */
  datatype Op =
    | Read(i: nat, count: nat, offset: nat)
    | Write(i: nat, data: seq<byte>, offset: nat)
    | Resize(i: nat, size: nat)
    | Flush(i: nat)
    | Lookup(path: seq<byte>)
    | Create(path: seq<byte>)

  predicate OnDirectory(op: Op) { op.Lookup? || op.Create? }

  predicate Proper(op: Op) {
    && (op.Write? ==> op.offset + |op.data| < OFF_MAX) && (op.Resize? ==> op.size < OFF_MAX)
    && (OnDirectory(op) ==> Text(op.path))
  }

  ghost predicate AllNamed(img: Image, files: seq<Ptr>, nodes: seq<Node>) {
    |nodes| == |files| && forall k: nat :: k < |files| ==> Names(img, files[k], nodes[k]) && nodes[k].Entry?
  }

  lemma AllStillNamed(img: Image, new': Image, files: seq<Ptr>, nodes: seq<Node>)
    requires AllNamed(img, files, nodes) && Kept(img, new')
    ensures AllNamed(new', files, nodes)
  {
    forall k: nat | k < |files| ensures Names(new', files[k], nodes[k]) {
      StillNames(img, new', files[k], nodes[k]);
    }
  }

  lemma AllOthersNamed(img: Image, new': Image, f: Node, files: seq<Ptr>, nodes: seq<Node>)
    requires AllNamed(img, files, nodes) && Apart(img, new', f)
    ensures AllNamed(new', files, nodes)
  {
    forall k: nat | k < |files| ensures Names(new', files[k], nodes[k]) {
      OtherNames(img, new', f, files[k], nodes[k]);
    }
  }

  lemma AllNamedMade(img: Image, new': Image, made: Node, files: seq<Ptr>, nodes: seq<Node>)
    requires AllNamed(img, files, nodes) && Made(img, new', made)
    ensures AllNamed(new', files, nodes)
  {
    forall k: nat | k < |files| ensures Names(new', files[k], nodes[k]) {
      MadeNames(img, new', made, files[k], nodes[k]);
    }
  }

  function Larger(a: nat, b: nat): (n: nat)
    ensures a <= n && b <= n && (n == a || n == b)
  {
    if a < b then b else a
  }

  /** The operation cuts a file of that size. */
  predicate Cuts(size: nat, op: Op) { op.Resize? && op.size < size }

  ghost predicate NoneFree(img: Image) { forall b: nat :: b < |img| ==> !Free(img, b) }

  /** Why a read or write of [lo, hi) fails: over a gap, past the largest file or with no block left for it. */
  ghost predicate FailsOver(img: Image, f: Node, lo: nat, hi: nat, r: int) {
    && (r == -E_INVAL || r == -E_NO_DISK) && Gap(img, f, lo, hi)
    && (r == -E_INVAL ==> hi > BLKSIZE * MAXBLOCKS) && (r == -E_NO_DISK ==> NoneFree(img))
  }

  /**
   * What an operation on file f does: the bytes read, written, cut or kept, and every other file as it was; a read or
   * write fails only over a gap that cannot be filled, the others not at all.
   */
  ghost predicate Done(img: Image, new': Image, f: Node, op: Op, r: int, buf: seq<byte>) {
    && OthersSame(img, new', f)
    && match op
       case Read(_, count, offset) =>
         && Kept(img, new') && Holds(new', f, offset, buf)
         && (r >= 0 ==> r == |buf| == Available(Size(new', f), count, offset))
         && (r < 0 ==> |buf| < count && FailsOver(new', f, offset, offset + count, r))
       case Write(_, data, offset) =>
         && Apart(img, new', f) && BytesSame(img, new', f, offset, offset + |data|)
         && Size(new', f) == Larger(Size(img, f), offset + |data|) && buf == []
         && (r >= 0 ==> r == |data| && Holds(new', f, offset, data))
         && (r < 0 ==> FailsOver(new', f, offset, offset + |data|, r))
       case Resize(_, size) =>
         && Apart(img, new', f) && Size(new', f) == size && CutRefs(img, new', f, BlockCount(size))
         && r == 0 && buf == []
       case Flush(_) => Kept(img, new') && r == 0 && buf == []
       case _ => true
  }

  /** One operation on a file. */
  method OnFile(fs: Server, p: Ptr, ghost f: Node, ghost files: seq<Ptr>, ghost nodes: seq<Node>, op: Op)
    returns (r: int, buf: seq<byte>)
    requires fs.Valid() && AllNamed(fs.img, files, nodes) && Names(fs.img, p, f) && f.Entry? && Proper(op)
      && !OnDirectory(op)
    modifies fs
    ensures fs.Valid() && AllNamed(fs.img, files, nodes) && Done(old(fs.img), fs.img, f, op, r, buf)
    ensures op.Flush? ==> Flushed(fs.st.disk, fs.img, p, f)
    ensures old(DirComplete(fs.img)) ==> SpareLeft(old(fs.img), fs.img, 0)
    ensures Cuts(old(Size(fs.img, f)), op) || FreeKept(old(fs.img), fs.img)
  {
    ghost var was := fs.img;
    r, buf := 0, [];
    match op {
      case Read(_, count, offset) =>
        r, buf := fs.FileRead(p, f, count, offset);
      case Write(_, data, offset) =>
        r := fs.FileWrite(p, f, data, offset);
      case Resize(_, size) =>
        fs.FileSetSize(p, f, size);
      case Flush(_) =>
        fs.FileFlush(p, f);
    }
    if op.Read? || op.Flush? {
      AllStillNamed(was, fs.img, files, nodes);
      if DirComplete(was) { SpareKept(was, fs.img); }
    } else {
      AllOthersNamed(was, fs.img, f, files, nodes);
      if DirComplete(was) { SpareApart(was, fs.img, f); }
    }
  }

  /** The directory can be searched, or extended, for this operation. */
  ghost predicate Permitted(img: Image, op: Op) {
    (op.Lookup? ==> LookupSafe(img)) && (op.Create? ==> CreateReady(img))
  }

  /** What a lookup does; g is the file it found. A complete directory is only read, and then only the path matters. */
  ghost predicate LookedUp(img: Image, new': Image, c: seq<seq<byte>>, r: int, g: Node) {
    && Kept(img, new') && (DirComplete(img) ==> new' == img && r != -E_NO_DISK && r != -E_INVAL)
    && (r == 0 || r == -E_NOT_FOUND || r == -E_BAD_PATH || r == -E_NO_DISK || r == -E_INVAL)
    && (r == 0 ==> Resolves(new', c, g)) && (r == -E_NOT_FOUND ==> NotThere(new', c))
    && (r == -E_BAD_PATH ==> LongName(c)) && (r == -E_NO_DISK ==> NoneFree(new'))
    && (r == -E_INVAL ==> Size(img, Root) > BLKSIZE * MAXBLOCKS)
  }

  /** What a creation does; g is the file it made. With room in a complete directory only the path matters. */
  ghost predicate Added(img: Image, new': Image, c: seq<seq<byte>>, r: int, g: Node) {
    && (r == 0 || r == -E_FILE_EXISTS || r == -E_NOT_FOUND || r == -E_BAD_PATH || r == -E_NO_DISK || r == -E_INVAL)
    && (DirComplete(img) && HasRoom(img) ==> r != -E_NO_DISK && r != -E_INVAL)
    && (r == 0 ==> |c| == 1 && OnlyNamed(new', g, c[0]) && Size(new', g) == 0 && Made(img, new', g))
    && (r != 0 ==> KeptFiles(img, new')) && (r == -E_FILE_EXISTS ==> exists h: Node :: Resolves(new', c, h))
    && (r == -E_NOT_FOUND ==> |c| > 1) && (r == -E_BAD_PATH ==> LongName(c))
    && (r == -E_NO_DISK ==> NoneFree(new')) && (r == -E_INVAL ==> Size(img, Root) >= BLKSIZE * MAXBLOCKS)
  }

  ghost predicate DirDone(img: Image, new': Image, op: Op, r: int, g: Node)
    requires OnDirectory(op)
  {
    if op.Lookup? then LookedUp(img, new', Components(op.path), r, g) else Added(img, new', Components(op.path), r, g)
  }

  /** A creation that needed a new directory block and did not get it leaves the directory without its last block. */
  predicate GrowthFails(op: Op, r: int) { op.Create? && (r == -E_NO_DISK || r == -E_INVAL) }

  /** One operation on the directory, with the file it opened, if any. */
  method OnDir(fs: Server, ghost files: seq<Ptr>, ghost nodes: seq<Node>, op: Op)
    returns (r: int, q: Ptr, ghost g: Node)
    requires fs.Valid() && AllNamed(fs.img, files, nodes) && Proper(op) && OnDirectory(op) && Permitted(fs.img, op)
    modifies fs
    ensures fs.Valid() && AllNamed(fs.img, files, nodes) && DirDone(old(fs.img), fs.img, op, r, g)
    ensures r == 0 ==> Names(fs.img, q, g) && (Components(op.path) != [] ==> g.Entry?)
    ensures op.Create? && r == 0 ==> Flushed(fs.st.disk, fs.img, Ptr(1, 2), Root)
    ensures old(DirComplete(fs.img)) && (op.Create? ==> old(HasRoom(fs.img))) ==>
      SpareLeft(old(fs.img), fs.img, if op.Create? then 1 else 0)
    ensures old(DirComplete(fs.img)) && !GrowthFails(op, r) ==> DirComplete(fs.img)
    ensures FreeKept(old(fs.img), fs.img)
  {
    ghost var was := fs.img;
    if op.Lookup? {
      r, q, g := FileOpen(fs, op.path);
      AllStillNamed(was, fs.img, files, nodes);
      if DirComplete(was) { SpareKept(was, fs.img); }
    } else {
      r, q, g := fs.FileCreate(op.path);
      ghost var made := if r == 0 then g else Root;
      if r == 0 {
        HomeInUse(fs.img, fs.owner, 0, Ind(g));
        ResolvedNames(fs.img, op.path, q, g);
      } else {
        KeptIsMade(was, fs.img);
      }
      AllNamedMade(was, fs.img, made, files, nodes);
      if DirComplete(was) && HasRoom(was) { SpareMade(was, fs.img, made); }
    }
  }

  // ---- states and events ----

  /** What a client saw. */
  datatype Outcome = Outcome(r: int, buf: seq<byte>)

  /** The state between operations: what loads see, the disk, and the files opened so far. */
  datatype Stage = Stage(img: Image, disk: Image, open: seq<Node>)

  /** An operation of a run, the file it was about (the root if none), what the client saw, and the state after. */
  datatype Event = Event(op: Op, f: Node, out: Outcome, now: Stage)

  /** Every block has one owner or is free, and what is free on disk is free in memory. */
  ghost predicate Intact(s: Stage) {
    && (exists owner: map<nat, Ref> :: Sound(s.img, owner, 0))
    && 2 < |s.disk| && forall c: nat :: c < |s.img| && BitAt(s.disk[2], c) ==> Free(s.img, c)
  }

  /** The operation opens a file. */
  predicate Opens(op: Op, r: int) { OnDirectory(op) && r == 0 && Components(op.path) != [] }

  /** An operation on the directory: the file it opened is new at the end of the list. */
  ghost predicate OnDirHappened(s: Stage, e: Event)
    requires OnDirectory(e.op)
  {
    && e.out.buf == [] && DirDone(s.img, e.now.img, e.op, e.out.r, e.f)
    && (if Opens(e.op, e.out.r) then Live(e.now.img, e.f) && e.now.open == s.open + [e.f]
        else e.f == Root && e.now.open == s.open)
    && (e.op.Create? && e.out.r == 0 ==> Flushed(e.now.disk, e.now.img, Ptr(1, 2), Root))
  }

  /** An operation on a file: the one at that index, or an error for an index past the list. */
  ghost predicate OnFileHappened(s: Stage, e: Event)
    requires !OnDirectory(e.op)
  {
    && e.now.open == s.open
    && if e.op.i < |s.open| then
         && e.f == s.open[e.op.i] && Live(s.img, e.f) && Done(s.img, e.now.img, e.f, e.op, e.out.r, e.out.buf)
         && (e.op.Flush? ==> Flushed(e.now.disk, e.now.img, Ptr(Home(s.img, e.f), FsLayout.Base(e.f)), e.f))
       else e.f == Root && e.out == Outcome(-E_INVAL, []) && e.now == s
  }

  /** The event is what the operation should have done from state s. */
  ghost predicate Happened(s: Stage, e: Event) {
    Intact(e.now) && if OnDirectory(e.op) then OnDirHappened(s, e) else OnFileHappened(s, e)
  }

  /** The state before event i of a run from `start`. */
  ghost function Before(start: Stage, log: seq<Event>, i: nat): Stage
    requires i <= |log|
  {
    if i == 0 then start else log[i - 1].now
  }

  ghost function Latest(start: Stage, log: seq<Event>): Stage { Before(start, log, |log|) }

  ghost predicate HappenedAt(start: Stage, log: seq<Event>, i: nat) {
    i < |log| ==> Happened(Before(start, log, i), log[i])
  }

  /** Every event is what its operation should have done from the state the one before it left. */
  ghost predicate Events(start: Stage, log: seq<Event>) { forall i: nat :: HappenedAt(start, log, i) }

  /** The same, on demand. */
  ghost predicate Story(start: Stage, log: seq<Event>) {
    forall n: nat {:trigger Open(n)} :: n == 0 ==> Events(start, log)
  }

  lemma StoryStarts(start: Stage)
    ensures Story(start, [])
  {
    assert Events(start, []);
  }

  lemma StoryMore(start: Stage, log: seq<Event>, e: Event)
    requires Story(start, log) && Happened(Latest(start, log), e)
    ensures Story(start, log + [e]) && Latest(start, log + [e]) == e.now
  {
    var more := log + [e];
    assert Events(start, more) by {
      assert Open(0);
      forall i: nat ensures HappenedAt(start, more, i) {
        assert HappenedAt(start, log, i);
      }
    }
  }

  lemma StoryOfPrefix(start: Stage, log: seq<Event>, n: nat)
    requires Story(start, log) && n <= |log|
    ensures Story(start, log[..n])
  {
    assert Events(start, log[..n]) by {
      assert Open(0);
      forall i: nat ensures HappenedAt(start, log[..n], i) {
        assert HappenedAt(start, log, i);
      }
    }
  }

  /** One event of a story. */
  lemma StoryAt(start: Stage, log: seq<Event>, i: nat)
    requires Story(start, log) && i < |log|
    ensures Happened(Before(start, log, i), log[i])
  {
    assert Open(0);
    assert HappenedAt(start, log, i);
  }

  // ---- files an operation leaves alone ----

  predicate Writes(op: Op) { op.Write? || op.Resize? }

  /** The operation writes to f, cuts it or makes it. */
  predicate Touches(e: Event, f: Node) { e.f == f != Root && (Writes(e.op) || e.op.Create?) }

  lemma StepSteady(s: Stage, e: Event, f: Node)
    requires Happened(s, e) && Live(s.img, f) && !Touches(e, f)
    ensures Steady(s.img, e.now.img, f)
  {
    if e.now.img == s.img {
    } else if Writes(e.op) {
      SteadyWhenApart(s.img, e.now.img, e.f, f);
    } else if e.op.Create? {
      if e.out.r != 0 { KeptIsMade(s.img, e.now.img); }
      SteadyWhenMade(s.img, e.now.img, if e.out.r == 0 then e.f else Root, f);
    } else {
      KeptIsMade(s.img, e.now.img);
      SteadyWhenMade(s.img, e.now.img, Root, f);
    }
  }

  // ---- flat files ----

  /** A file as one byte array: its size, or -1 while nothing is known of such a file. */
  ghost function SizeNext(s: int, e: Event, f: Node): int {
    if e.f != f || f == Root then s
    else match e.op
         case Create(_) => 0
         case Write(_, data, offset) => if s < 0 then s else Larger(s, offset + |data|)
         case Resize(_, size) => if s < 0 then s else size
         case Lookup(_) => if s < 0 then Size(e.now.img, f) else s
         case _ => s
  }

  ghost function ByteOf(img: Image, f: Node, x: nat): int { Byte(img, f, x / BLKSIZE, x % BLKSIZE) }

  /** Its byte at x, or -1 where nothing was written, a write failed, or the file was cut; s is its size before. */
  ghost function ByteNext(v: int, s: int, e: Event, f: Node, x: nat): int {
    if e.f != f || f == Root then v
    else match e.op
         case Create(_) => -1
         case Write(_, data, offset) =>
           if !(offset <= x < offset + |data|) then v else if e.out.r < 0 then -1 else data[x - offset] as int
         case Resize(_, size) => if x < BLKSIZE * BlockCount(size) then v else -1
         case Lookup(_) => if s < 0 then ByteOf(e.now.img, f, x) else v
         case _ => v
  }

  /** The same over a run that starts on img. */
  ghost function FlatSize(img: Image, log: seq<Event>, f: Node): int {
    if log == [] then if Live(img, f) then Size(img, f) else -1
    else SizeNext(FlatSize(img, log[..|log| - 1], f), log[|log| - 1], f)
  }

  ghost function FlatByte(img: Image, log: seq<Event>, f: Node, x: nat): int {
    if log == [] then if Live(img, f) then ByteOf(img, f, x) else -1
    else var init := log[..|log| - 1]; ByteNext(FlatByte(img, init, f, x), FlatSize(img, init, f), log[|log| - 1], f, x)
  }

  /** File f on img has that size, and byte v at x if v is known. */
  ghost predicate FlatAt(img: Image, f: Node, s: int) { s >= 0 ==> Live(img, f) && Size(img, f) == s }

  ghost predicate FlatByteAt(img: Image, f: Node, x: nat, v: int) { v != -1 ==> Live(img, f) && ByteOf(img, f, x) == v }

  /** The image agrees with the flat files. */
  ghost predicate Agrees(start: Image, log: seq<Event>, img: Image) {
    && (forall f: Node :: FlatAt(img, f, FlatSize(start, log, f)))
    && (forall f: Node, x: nat :: FlatByteAt(img, f, x, FlatByte(start, log, f, x)))
  }

  /** A read returned what the flat file, which is known, held: as many bytes as there are, and each known byte. */
  ghost predicate ReadTrue(start: Image, log: seq<Event>, e: Event) {
    e.op.Read? && e.out.r >= 0 ==>
      && FlatSize(start, log, e.f) >= 0
      && e.out.r == |e.out.buf| == Available(FlatSize(start, log, e.f), e.op.count, e.op.offset)
      && forall j: nat :: j < |e.out.buf| && FlatByte(start, log, e.f, e.op.offset + j) != -1 ==>
           e.out.buf[j] as int == FlatByte(start, log, e.f, e.op.offset + j)
  }

  ghost predicate ReadTrueAt(start: Image, log: seq<Event>, i: nat) {
    i < |log| ==> ReadTrue(start, log[..i], log[i])
  }

  ghost predicate ReadsTrue(start: Image, log: seq<Event>) { forall i: nat :: ReadTrueAt(start, log, i) }

  lemma LogMore(start: Image, log: seq<Event>, e: Event, f: Node, x: nat)
    ensures FlatSize(start, log + [e], f) == SizeNext(FlatSize(start, log, f), e, f)
    ensures FlatByte(start, log + [e], f, x) == ByteNext(FlatByte(start, log, f, x), FlatSize(start, log, f), e, f, x)
  {
    assert (log + [e])[..|log|] == log;
  }

  lemma ReadsMore(start: Image, log: seq<Event>, e: Event)
    requires ReadsTrue(start, log) && ReadTrue(start, log, e)
    ensures ReadsTrue(start, log + [e])
  {
    var more := log + [e];
    forall i: nat ensures ReadTrueAt(start, more, i) {
      assert ReadTrueAt(start, log, i);
      if i < |log| { assert more[..i] == log[..i]; }
      if i == |log| { assert more[..i] == log; }
    }
  }

  /** All open files are known. */
  ghost predicate AllFlat(start: Image, log: seq<Event>, open: seq<Node>) {
    forall i: nat :: i < |open| ==> FlatSize(start, log, open[i]) >= 0
  }

  lemma StartAgrees(start: Stage)
    requires forall i: nat :: i < |start.open| ==> Live(start.img, start.open[i])
    ensures Agrees(start.img, [], start.img) && ReadsTrue(start.img, []) && AllFlat(start.img, [], start.open)
  {}

  lemma FlatMore(start: Image, log: seq<Event>, s: Stage, e: Event)
    requires AllFlat(start, log, s.open) && Happened(s, e)
    ensures AllFlat(start, log + [e], e.now.open)
  {
    OpenMore(s, e);
    forall i: nat | i < |e.now.open| ensures FlatSize(start, log + [e], e.now.open[i]) >= 0 {
      LogMore(start, log, e, e.now.open[i], 0);
      StaysKnown(FlatSize(start, log, e.now.open[i]), e, e.now.open[i]);
    }
  }

  /** The list of open files only grows, by the file a lookup found or a creation made. */
  lemma OpenMore(s: Stage, e: Event)
    requires Happened(s, e)
    ensures e.now.open == s.open || (OnDirectory(e.op) && e.f.Entry? && e.now.open == s.open + [e.f])
  {}

  lemma StaysKnown(size: int, e: Event, f: Node)
    requires size >= 0 || (OnDirectory(e.op) && e.f == f != Root)
    ensures SizeNext(size, e, f) >= 0
  {}

  lemma StillLive(img: Image, new': Image, f: Node)
    requires Live(img, f) && Apart(img, new', f)
    ensures Live(new', f)
  {
    OtherNames(img, new', f, Ptr(Home(img, f), FsLayout.Base(f)), f);
  }

  lemma SizeFollows(s: Stage, e: Event, f: Node, size: int)
    requires Happened(s, e) && FlatAt(s.img, f, size)
    ensures FlatAt(e.now.img, f, SizeNext(size, e, f))
  {
    if size >= 0 && !Touches(e, f) {
      StepSteady(s, e, f);
    } else if size >= 0 && e.f == f && Writes(e.op) {
      StillLive(s.img, e.now.img, f);
    }
  }

  lemma ByteFollows(s: Stage, e: Event, f: Node, x: nat, v: int, size: int)
    requires Happened(s, e) && FlatByteAt(s.img, f, x, v)
    ensures FlatByteAt(e.now.img, f, x, ByteNext(v, size, e, f, x))
  {
    var k, o := x / BLKSIZE, x % BLKSIZE;
    if ByteNext(v, size, e, f, x) == -1 || (e.op.Lookup? && e.f == f != Root && size < 0) {
    } else if !Touches(e, f) {
      StepSteady(s, e, f);
      assert Byte(e.now.img, f, k, o) == Byte(s.img, f, k, o);
    } else if e.op.Write? {
      StillLive(s.img, e.now.img, f);
      WrittenByte(s.img, e.now.img, f, e.op, e.out.r, e.out.buf, k, o);
    } else {
      StillLive(s.img, e.now.img, f);
      CutByte(s.img, e.now.img, f, e.op.size, k, o);
    }
  }

  lemma WrittenByte(img: Image, new': Image, f: Node, op: Op, r: int, buf: seq<byte>, k: nat, o: nat)
    requires op.Write? && Done(img, new', f, op, r, buf) && IsNode(f) && f.Entry? && o < BLKSIZE
    ensures var x := BLKSIZE * k + o;
            if op.offset <= x < op.offset + |op.data|
            then r >= 0 ==> Byte(new', f, k, o) == op.data[x - op.offset] as int
            else Byte(img, f, k, o) != -1 ==> Byte(new', f, k, o) == Byte(img, f, k, o)
  {}

  lemma CutByte(img: Image, new': Image, f: Node, size: nat, k: nat, o: nat)
    requires IsNode(f) && f.Entry? && CutRefs(img, new', f, BlockCount(size))
    requires BLKSIZE * k + o < BLKSIZE * BlockCount(size)
    requires Byte(img, f, k, o) != -1
    ensures Byte(new', f, k, o) == Byte(img, f, k, o)
  {
    assert k < BlockCount(size) && Outside(Slot(f, k), f, BlockCount(size));
    assert Target(new', Slot(f, k)) == Target(img, Slot(f, k));
  }

  lemma ReadFollows(start: Image, log: seq<Event>, s: Stage, e: Event)
    requires Agrees(start, log, s.img) && AllFlat(start, log, s.open) && Happened(s, e)
    ensures ReadTrue(start, log, e)
  {
    var size := FlatSize(start, log, e.f);
    if e.op.Read? && e.out.r >= 0 {
      assert e.op.i < |s.open| && e.f == s.open[e.op.i];
      assert FlatAt(s.img, e.f, size);
      StepSteady(s, e, e.f);
      forall j: nat | j < |e.out.buf| && FlatByte(start, log, e.f, e.op.offset + j) != -1
        ensures e.out.buf[j] as int == FlatByte(start, log, e.f, e.op.offset + j)
      {
        var x := e.op.offset + j;
        assert FlatByteAt(s.img, e.f, x, FlatByte(start, log, e.f, x));
        assert Byte(e.now.img, e.f, x / BLKSIZE, x % BLKSIZE) == Byte(s.img, e.f, x / BLKSIZE, x % BLKSIZE);
      }
    }
  }

  /** One more operation of a run. */
  lemma AgreesMore(start: Image, log: seq<Event>, s: Stage, e: Event)
    requires Agrees(start, log, s.img) && ReadsTrue(start, log) && AllFlat(start, log, s.open) && Happened(s, e)
    ensures Agrees(start, log + [e], e.now.img) && ReadsTrue(start, log + [e])
  {
    forall f: Node ensures FlatAt(e.now.img, f, FlatSize(start, log + [e], f)) {
      LogMore(start, log, e, f, 0);
      assert FlatAt(s.img, f, FlatSize(start, log, f));
      SizeFollows(s, e, f, FlatSize(start, log, f));
    }
    forall f: Node, x: nat
      ensures FlatByteAt(e.now.img, f, x, FlatByte(start, log + [e], f, x))
    {
      LogMore(start, log, e, f, x);
      assert FlatByteAt(s.img, f, x, FlatByte(start, log, f, x));
      ByteFollows(s, e, f, x, FlatByte(start, log, f, x), FlatSize(start, log, f));
    }
    ReadFollows(start, log, s, e);
    ReadsMore(start, log, e);
  }

  /** Files that no operation of the run touches are as they were. */
  ghost predicate Untouched(log: seq<Event>, f: Node) { forall i: nat :: i < |log| ==> !Touches(log[i], f) }

  ghost predicate LeftAlone(img: Image, log: seq<Event>, new': Image) {
    forall f: Node :: Live(img, f) && Untouched(log, f) ==> Steady(img, new', f)
  }

  lemma AloneMore(start: Image, log: seq<Event>, s: Stage, e: Event)
    requires LeftAlone(start, log, s.img) && Happened(s, e)
    ensures LeftAlone(start, log + [e], e.now.img)
  {
    var more := log + [e];
    forall f: Node | Live(start, f) && Untouched(more, f) ensures Steady(start, e.now.img, f) {
      assert more[|log|] == e;
      forall i: nat | i < |log| ensures !Touches(log[i], f) {
        assert more[i] == log[i];
      }
      StepSteady(s, e, f);
      SteadyTwice(start, s.img, e.now.img, f);
    }
  }

  /** A run behaves like one flat byte array per file, and leaves alone the files it does not write. */
  ghost predicate Refined(start: Stage, log: seq<Event>) {
    && Agrees(start.img, log, Latest(start, log).img) && ReadsTrue(start.img, log)
    && AllFlat(start.img, log, Latest(start, log).open)
    && LeftAlone(start.img, log, Latest(start, log).img)
  }

  /** Every run whose events are what their operations should have done refines flat files. */
  lemma {:induction false} StoryRefines(start: Stage, log: seq<Event>)
    requires Story(start, log) && forall i: nat :: i < |start.open| ==> Live(start.img, start.open[i])
    ensures Refined(start, log)
    decreases |log|
  {
    if log == [] {
      StartAgrees(start);
    } else {
      var n := |log| - 1;
      var init := log[..n];
      StoryOfPrefix(start, log, n);
      StoryRefines(start, init);
      StoryAt(start, log, n);
      assert log == init + [log[n]];
      AgreesMore(start.img, init, Latest(start, init), log[n]);
      FlatMore(start.img, init, Latest(start, init), log[n]);
      AloneMore(start.img, init, Latest(start, init), log[n]);
    }
  }

  // ---- runs ----

  /** The server is in that state; `files` are where the open files' structs are. */
  ghost predicate Present(fs: Server, files: seq<Ptr>, s: Stage)
    reads fs
  {
    fs.Valid() && AllNamed(fs.img, files, s.open) && s.img == fs.img && s.disk == fs.st.disk
  }

  lemma PresentIntact(fs: Server, files: seq<Ptr>, s: Stage)
    requires Present(fs, files, s)
    ensures Intact(s)
  {
    assert Sound(s.img, fs.owner, 0);
  }

  lemma AllLive(img: Image, files: seq<Ptr>, nodes: seq<Node>)
    requires AllNamed(img, files, nodes)
    ensures forall i: nat :: i < |nodes| ==> Live(img, nodes[i])
  {}

  /** The operations with what the client saw of each. */
  ghost predicate Reported(log: seq<Event>, ops: seq<Op>, outs: seq<Outcome>) {
    |log| == |outs| == |ops| && forall i: nat :: i < |log| ==> log[i].op == ops[i] && log[i].out == outs[i]
  }

  lemma ReportedMore(log: seq<Event>, ops: seq<Op>, outs: seq<Outcome>, n: nat, e: Event)
    requires n < |ops| && Reported(log, ops[..n], outs) && e.op == ops[n]
    ensures Reported(log + [e], ops[..n + 1], outs + [e.out])
  {}

  /** A lookup or creation, recorded. */
  method DirStep(fs: Server, files: seq<Ptr>, ghost s: Stage, op: Op)
    returns (out: Outcome, files': seq<Ptr>, ghost e: Event)
    requires Present(fs, files, s) && Proper(op) && OnDirectory(op) && Permitted(fs.img, op)
    modifies fs
    ensures Present(fs, files', e.now) && files <= files' && e.op == op && e.out == out && Happened(s, e)
    ensures old(DirComplete(fs.img)) && (op.Create? ==> old(HasRoom(fs.img))) ==>
      SpareLeft(old(fs.img), fs.img, if op.Create? then 1 else 0)
    ensures old(DirComplete(fs.img)) && !GrowthFails(op, out.r) ==> DirComplete(fs.img)
    ensures FreeKept(old(fs.img), fs.img)
  {
    var r, q;
    ghost var g;
    r, q, g := OnDir(fs, files, s.open, op);
    out, files' := Outcome(r, []), if Opens(op, r) then files + [q] else files;
    e := Event(op, if Opens(op, r) then g else Root, out,
               Stage(fs.img, fs.st.disk, if Opens(op, r) then s.open + [g] else s.open));
    PresentIntact(fs, files', e.now);
  }

  /** An operation on an open file, recorded. */
  method FileStep(fs: Server, files: seq<Ptr>, ghost s: Stage, op: Op) returns (out: Outcome, ghost e: Event)
    requires Present(fs, files, s) && Proper(op) && !OnDirectory(op)
    modifies fs
    ensures Present(fs, files, e.now) && e.op == op && e.out == out && Happened(s, e)
    ensures old(DirComplete(fs.img)) ==> SpareLeft(old(fs.img), fs.img, 0)
    ensures (op.i < |s.open| && Cuts(Size(s.img, s.open[op.i]), op)) || FreeKept(old(fs.img), fs.img)
  {
    if op.i < |files| {
      var r, buf := OnFile(fs, files[op.i], s.open[op.i], files, s.open, op);
      out := Outcome(r, buf);
      e := Event(op, s.open[op.i], out, Stage(fs.img, fs.st.disk, s.open));
    } else {
      KeptSelf(fs.img);
      if DirComplete(fs.img) { SpareKept(fs.img, fs.img); }
      out := Outcome(-E_INVAL, []);
      e := Event(op, Root, out, s);
    }
    PresentIntact(fs, files, e.now);
  }

  /**
   * Any run, one operation at a time: from whatever story led here, an operation that is permitted now continues it.
   * Cuts, creations and growth of the directory may come in any order.
   */
  method Step(fs: Server, files: seq<Ptr>, op: Op, ghost start: Stage, ghost log: seq<Event>)
    returns (out: Outcome, files': seq<Ptr>, ghost e: Event)
    requires Present(fs, files, Latest(start, log)) && Story(start, log) && Proper(op) && Permitted(fs.img, op)
    modifies fs
    ensures Present(fs, files', e.now) && files <= files' && e.op == op && e.out == out
    ensures Story(start, log + [e]) && Latest(start, log + [e]) == e.now
    ensures old(DirComplete(fs.img)) && (op.Create? ==> old(HasRoom(fs.img))) ==>
      SpareLeft(old(fs.img), fs.img, if op.Create? then 1 else 0)
    ensures old(DirComplete(fs.img)) && !GrowthFails(op, out.r) ==> DirComplete(fs.img)
    ensures CutsNow(Latest(start, log), op) || FreeKept(old(fs.img), fs.img)
  {
    if OnDirectory(op) {
      out, files', e := DirStep(fs, files, Latest(start, log), op);
    } else {
      out, e := FileStep(fs, files, Latest(start, log), op);
      files' := files;
    }
    StoryMore(start, log, e);
  }

  /** The operation would cut its file. */
  ghost predicate CutsNow(s: Stage, op: Op) { op.Resize? && op.i < |s.open| && Cuts(Size(s.img, s.open[op.i]), op) }

  /** The number of creations in a run. */
  function Creates(ops: seq<Op>): nat {
    if ops == [] then 0 else (if ops[0].Create? then 1 else 0) + Creates(ops[1..])
  }

  /** A run that leaves the directory alone, or whose creations fit the unused entries of a complete one. */
  ghost predicate Ample(img: Image, ops: seq<Op>) {
    (exists i: nat :: i < |ops| && OnDirectory(ops[i])) ==> DirComplete(img) && Creates(ops) <= |Spare(img)|
  }

  /** What is left of an ample run is ample. */
  lemma AmpleNext(img: Image, new': Image, ops: seq<Op>)
    requires ops != [] && Ample(img, ops)
    requires DirComplete(img) && (ops[0].Create? ==> HasRoom(img)) ==>
      SpareLeft(img, new', if ops[0].Create? then 1 else 0)
    ensures Ample(new', ops[1..])
  {
    if i: nat :| i < |ops[1..]| && OnDirectory(ops[1..][i]) {
      assert OnDirectory(ops[i + 1]);
      if ops[0].Create? { SpareIsRoom(img); }
    }
  }

  lemma AmplePermits(img: Image, ops: seq<Op>)
    requires ops != [] && Ample(img, ops)
    ensures Permitted(img, ops[0])
  {
    if OnDirectory(ops[0]) {
      CompleteIsSafe(img);
      if ops[0].Create? { SpareIsRoom(img); }
    }
  }

  /**
   * Any run of opens, creations, reads, writes, resizes and flushes on any files, creations fitting the unused entries:
   * each operation does what it should, fails only for its reasons, and leaves the disk in order; the whole behaves
   * like one flat byte array per file.
   */
  method RunOps(fs: Server, files: seq<Ptr>, ghost nodes: seq<Node>, ops: seq<Op>)
    returns (outs: seq<Outcome>, files': seq<Ptr>, ghost log: seq<Event>)
    requires fs.Valid() && AllNamed(fs.img, files, nodes) && (forall i: nat :: i < |ops| ==> Proper(ops[i]))
    requires Ample(fs.img, ops)
    modifies fs
    ensures var start := Stage(old(fs.img), old(fs.st.disk), nodes);
      && Present(fs, files', Latest(start, log)) && files <= files'
      && Reported(log, ops, outs) && Story(start, log) && Refined(start, log)
  {
    ghost var start := Stage(fs.img, fs.st.disk, nodes);
    outs, files', log := [], files, [];
    StoryStarts(start);
    AllLive(fs.img, files, nodes);
    assert ops[0..] == ops && ops[..0] == [];
    for n := 0 to |ops|
      invariant Present(fs, files', Latest(start, log)) && files <= files' && Story(start, log)
      invariant Ample(fs.img, ops[n..]) && Reported(log, ops[..n], outs)
    {
      ghost var was := fs.img;
      assert ops[n..][0] == ops[n] && ops[n..][1..] == ops[n + 1..];
      AmplePermits(was, ops[n..]);
      var out;
      ghost var e;
      out, files', e := Step(fs, files', ops[n], start, log);
      AmpleNext(was, fs.img, ops[n..]);
      ReportedMore(log, ops, outs, n, e);
      outs, log := outs + [out], log + [e];
    }
    assert ops[..|ops|] == ops;
    StoryRefines(start, log);
  }

  /** Whether the operation would cut its file. */
  method WouldCut(fs: Server, files: seq<Ptr>, ghost s: Stage, op: Op) returns (cut: bool)
    requires Present(fs, files, s)
    modifies fs`st
    ensures Present(fs, files, s) && (cut <==> CutsNow(s, op))
  {
    if !op.Resize? || op.i >= |files| {
      return false;
    }
    ghost var f := s.open[op.i];
    HomeInUse(fs.img, fs.owner, 0, Ind(f));
    SizeReads(fs.img, f);
    var size := fs.LoadWord(files[op.i].blk, files[op.i].base + SIZE);
    cut := op.size < size;
  }

  /** Whether a complete directory has an unused entry. */
  method RoomLeft(fs: Server, ghost files: seq<Ptr>, ghost s: Stage) returns (room: bool)
    requires Present(fs, files, s) && DirComplete(fs.img)
    modifies fs
    ensures Present(fs, files, s) && (room <==> HasRoom(fs.img))
  {
    SizeReads(fs.img, Root);
    var size := fs.LoadWord(1, 2 + SIZE);
    CompleteIsSafe(fs.img);
    var r, q;
    ghost var g;
    r, q, g := fs.FindRoom(size / BLKSIZE);
    room := r == 1;
  }

  /** Some operation of the run cut a file. */
  ghost predicate HasCut(start: Stage, log: seq<Event>) {
    exists i: nat :: i < |log| && CutsNow(Before(start, log, i), log[i].op)
  }

  /** Some creation of the run found no block for the directory. */
  ghost predicate HasFailed(log: seq<Event>) { exists i: nat :: i < |log| && GrowthFails(log[i].op, log[i].out.r) }

  /**
   * The directory would have to take a free block that may hold anything: after a cut (or from a disk not `clean`), to
   * make room, or to replace a block it could not get before (or that was missing if not `whole`).
   */
  ghost predicate Barred(start: Stage, log: seq<Event>, op: Op, clean: bool, whole: bool) {
    && OnDirectory(op) && (!clean || HasCut(start, log))
    && (!whole || HasFailed(log) || (op.Create? && !HasRoom(Latest(start, log).img)))
  }

  /** What a run knows of the disk: `vacant` is lost only to a cut, `complete` only to a failed growth. */
  ghost predicate Known(start: Stage, log: seq<Event>, clean: bool, whole: bool, vacant: bool, complete: bool) {
    forall n: nat {:trigger Open(n)} :: n == 0 ==> Knows(start, log, clean, whole, vacant, complete)
  }

  ghost predicate Knows(start: Stage, log: seq<Event>, clean: bool, whole: bool, vacant: bool, complete: bool) {
    (vacant || !clean || HasCut(start, log)) && (complete || !whole || HasFailed(log))
  }

  lemma KnownSo(start: Stage, log: seq<Event>, clean: bool, whole: bool, vacant: bool, complete: bool)
    requires Knows(start, log, clean, whole, vacant, complete)
    ensures Known(start, log, clean, whole, vacant, complete)
  {}

  lemma KnownMore(start: Stage, log: seq<Event>, e: Event, clean: bool, whole: bool, vacant: bool, complete: bool,
                  vacant': bool, complete': bool)
    requires Known(start, log, clean, whole, vacant, complete)
    requires vacant' <==> vacant && !CutsNow(Latest(start, log), e.op)
    requires complete' <==> complete && !GrowthFails(e.op, e.out.r)
    ensures Known(start, log + [e], clean, whole, vacant', complete')
  {
    var more := log + [e];
    assert Knows(start, more, clean, whole, vacant', complete') by {
      assert Open(0);
      assert more[|log|] == e;
      if i: nat :| i < |log| && CutsNow(Before(start, log, i), log[i].op) {
        assert CutsNow(Before(start, more, i), more[i].op);
      }
      if i: nat :| i < |log| && GrowthFails(log[i].op, log[i].out.r) {
        assert more[i] == log[i];
      }
    }
  }

  lemma KnownBars(start: Stage, log: seq<Event>, op: Op, clean: bool, whole: bool, vacant: bool, complete: bool)
    requires Known(start, log, clean, whole, vacant, complete) && OnDirectory(op) && !vacant
    requires !complete || (op.Create? && !HasRoom(Latest(start, log).img))
    ensures Barred(start, log, op, clean, whole)
  {
    assert Open(0);
  }

  /** Whether what is known of the disk permits the operation. */
  method MayStep(fs: Server, ghost files: seq<Ptr>, ghost s: Stage, op: Op, vacant: bool, complete: bool)
    returns (may: bool)
    requires Present(fs, files, s) && (vacant ==> FreeVacant(fs.img)) && (complete ==> DirComplete(fs.img))
    modifies fs
    ensures Present(fs, files, s) && (may ==> Permitted(fs.img, op))
    ensures !may ==> OnDirectory(op) && !vacant && (!complete || (op.Create? && !HasRoom(fs.img)))
  {
    if !OnDirectory(op) {
      return true;
    }
    if vacant {
      VacantPermits(fs.img, fs.owner, op);
      return true;
    }
    if !complete {
      return false;
    }
    CompleteIsSafe(fs.img);
    if op.Lookup? {
      return true;
    }
    may := RoomLeft(fs, files, s);
  }

  /** A step of a run, with what is known of the disk afterwards. */
  method RunStep(fs: Server, files: seq<Ptr>, op: Op, vacant: bool, complete: bool, ghost start: Stage,
                 ghost log: seq<Event>)
    returns (out: Outcome, files': seq<Ptr>, vacant': bool, complete': bool, ghost e: Event)
    requires Present(fs, files, Latest(start, log)) && Story(start, log) && Proper(op) && Permitted(fs.img, op)
    requires (vacant ==> FreeVacant(fs.img)) && (complete ==> DirComplete(fs.img))
    modifies fs
    ensures Present(fs, files', e.now) && files <= files' && e.op == op && e.out == out
    ensures Story(start, log + [e]) && Latest(start, log + [e]) == e.now
    ensures (vacant' ==> FreeVacant(fs.img)) && (complete' ==> DirComplete(fs.img))
    ensures (vacant' <==> vacant && !CutsNow(Latest(start, log), op))
    ensures (complete' <==> complete && !GrowthFails(op, out.r))
  {
    var cut := WouldCut(fs, files, Latest(start, log), op);
    ghost var was := fs.img;
    out, files', e := Step(fs, files, op, start, log);
    if vacant && !cut { VacantStays(was, fs.img); }
    vacant', complete' := vacant && !cut, complete && !GrowthFails(op, out.r);
  }

  /**
   * Any run, cuts and growth of the directory together, until the directory would have to take a block that may hold
   * anything. `clean` says that all free blocks hold unused entries to begin with, `whole` that the directory has all
   * its blocks; both hold of a formatted disk.
   */
  method Run(fs: Server, files: seq<Ptr>, ghost nodes: seq<Node>, ops: seq<Op>, clean: bool, whole: bool)
    returns (n: nat, outs: seq<Outcome>, files': seq<Ptr>, ghost log: seq<Event>)
    requires fs.Valid() && AllNamed(fs.img, files, nodes) && (forall i: nat :: i < |ops| ==> Proper(ops[i]))
    requires (clean ==> FreeVacant(fs.img)) && (whole ==> DirComplete(fs.img))
    modifies fs
    ensures var start := Stage(old(fs.img), old(fs.st.disk), nodes);
      && Present(fs, files', Latest(start, log)) && files <= files' && n <= |ops|
      && Reported(log, ops[..n], outs) && Story(start, log) && Refined(start, log)
      && (n < |ops| ==> Barred(start, log, ops[n], clean, whole))
  {
    ghost var start := Stage(fs.img, fs.st.disk, nodes);
    n, outs, files', log := 0, [], files, [];
    var vacant, complete := clean, whole;
    StoryStarts(start);
    AllLive(fs.img, files, nodes);
    KnownSo(start, log, clean, whole, vacant, complete);
    assert ops[..0] == [];
    while n < |ops|
      invariant n <= |ops| && Present(fs, files', Latest(start, log)) && files <= files' && Story(start, log)
      invariant Reported(log, ops[..n], outs)
      invariant (vacant ==> FreeVacant(fs.img)) && (complete ==> DirComplete(fs.img))
      invariant Known(start, log, clean, whole, vacant, complete)
      decreases |ops| - n
    {
      var may := MayStep(fs, files', Latest(start, log), ops[n], vacant, complete);
      if !may {
        StoryRefines(start, log);
        KnownBars(start, log, ops[n], clean, whole, vacant, complete);
        return;
      }
      var out;
      ghost var e;
      ghost var had, full := vacant, complete;
      out, files', vacant, complete, e := RunStep(fs, files', ops[n], vacant, complete, start, log);
      KnownMore(start, log, e, clean, whole, had, full, vacant, complete);
      ReportedMore(log, ops, outs, n, e);
      n, outs, log := n + 1, outs + [out], log + [e];
    }
    StoryRefines(start, log);
  }

  lemma VacantPermits(img: Image, owner: map<nat, Ref>, op: Op)
    requires Sound(img, owner, 0) && FreeVacant(img)
    ensures Permitted(img, op)
  {
    VacantIsReady(img);
    ReadyIsSafe(img);
  }
}
