/** The on-disk structures of fs/fs.c as functions of a block image, and who owns which block. */
module FsLayout {
  import opened Blocks

  const NDIRECT := 10
  const MAXBLOCKS := 1034     // NDIRECT + NINDIRECT
  const BLKFILES := 16
  const OFF_MAX := 0x8000_0000

  // Word offsets inside struct File, after the 32 words of its name.
  const SIZE := 32
  const TYPE := 33
  const DIRECT := 34
  const INDIRECT := 44

  type Image = seq<Block>

  /** A struct File: the root's, in the super block, or entry j of directory block i. */
  datatype Node = Root | Entry(i: nat, j: nat)

  /** A place that can name a block: slot k of a file, or its indirect pointer. */
  datatype Ref = Slot(f: Node, k: nat) | Ind(f: Node)

  predicate IsNode(f: Node) { f.Entry? ==> f.i < MAXBLOCKS && f.j < BLKFILES }

  predicate IsRef(r: Ref) { IsNode(r.f) && (r.Slot? ==> r.k < MAXBLOCKS) }

  function W(img: Image, b: nat, i: nat): nat { if b < |img| && i < BLKWORDS then Word(img[b], i) else 0 }

  function DirSlot(img: Image, i: nat): nat {
    if i < NDIRECT then W(img, 1, 2 + DIRECT + i)
    else if W(img, 1, 2 + INDIRECT) == 0 then 0
    else W(img, W(img, 1, 2 + INDIRECT), i - NDIRECT)
  }

  /** The block holding a struct File (0 while the directory has no such block), and the struct's first word there. */
  function Seat(img: Image, f: Node): nat { if f.Root? then 1 else DirSlot(img, f.i) }

  function Base(f: Node): nat { if f.Root? then 2 else 64 * f.j }

  function Field(img: Image, f: Node, x: nat): nat {
    if Seat(img, f) == 0 then 0 else W(img, Seat(img, f), Base(f) + x)
  }

  /** Byte x of a struct File, the name being at its start. */
  function FieldByte(img: Image, f: Node, x: nat): byte {
    if Seat(img, f) == 0 || Seat(img, f) >= |img| || 4 * Base(f) + x >= BLKSIZE then 0
    else img[Seat(img, f)][4 * Base(f) + x]
  }

  /** The block a reference names, 0 for none. */
  function Walk(img: Image, r: Ref): nat {
    match r
    case Ind(f) => Field(img, f, INDIRECT)
    case Slot(f, k) =>
      if k < NDIRECT then Field(img, f, DIRECT + k)
      else if Field(img, f, INDIRECT) == 0 then 0
      else W(img, Field(img, f, INDIRECT), k - NDIRECT)
  }

  // The same readings under names that proofs see through only after `assert Open(0)`.
  predicate Open(n: nat) { true }

  ghost predicate IsTarget(img: Image, r: Ref, t: nat) {
    forall n: nat {:trigger Open(n)} :: n == 0 ==> t == Walk(img, r)
  }

  ghost predicate IsHome(img: Image, f: Node, t: nat) {
    forall n: nat {:trigger Open(n)} :: n == 0 ==> t == Seat(img, f)
  }

  ghost predicate IsSize(img: Image, f: Node, t: nat) {
    forall n: nat {:trigger Open(n)} :: n == 0 ==> t == Field(img, f, SIZE)
  }

  ghost predicate IsKind(img: Image, f: Node, t: nat) {
    forall n: nat {:trigger Open(n)} :: n == 0 ==> t == Field(img, f, TYPE)
  }

  ghost predicate IsChar(img: Image, f: Node, x: nat, t: byte) {
    forall n: nat {:trigger Open(n)} :: n == 0 ==> t == FieldByte(img, f, x)
  }

  ghost function Home(img: Image, f: Node): (t: nat)
    ensures f.Root? ==> t == 1
  {
    assert Open(0) && IsHome(img, f, Seat(img, f));
    var t: nat :| IsHome(img, f, t);
    t
  }

  ghost function Target(img: Image, r: Ref): (t: nat) {
    assert Open(0) && IsTarget(img, r, Walk(img, r));
    var t: nat :| IsTarget(img, r, t);
    t
  }

  ghost function Size(img: Image, f: Node): (t: nat)
    ensures t < WORD
  {
    assert Open(0) && IsSize(img, f, Field(img, f, SIZE));
    var t: nat :| IsSize(img, f, t);
    t
  }

  ghost function Kind(img: Image, f: Node): (t: nat) {
    assert Open(0) && IsKind(img, f, Field(img, f, TYPE));
    var t: nat :| IsKind(img, f, t);
    t
  }

  /** Character x of a file's name field. */
  ghost function Char(img: Image, f: Node, x: nat): (t: byte) {
    assert Open(0) && IsChar(img, f, x, FieldByte(img, f, x));
    var t: byte :| IsChar(img, f, x, t);
    t
  }

  predicate Free(img: Image, b: nat) { 2 < |img| && BitAt(img[2], b) }

  // ---- ownership ----

  /**
   * Every block named is owned by the reference naming it, so no block is named twice; every owner names its block;
   * and the bitmap shows free exactly the unreserved blocks without an owner, `loose` aside.
   */
  ghost predicate Owned(img: Image, owner: map<nat, Ref>, loose: nat) {
    && 3 <= |img| <= BLKBITS && (loose == 0 || 3 <= loose < |img|)
    && (forall r: Ref :: IsRef(r) && Target(img, r) != 0 ==> Target(img, r) in owner && owner[Target(img, r)] == r)
    && (forall b: nat :: b in owner ==>
          IsRef(owner[b]) && Target(img, owner[b]) == b && 3 <= b < |img| && b != loose)
    && (forall b: nat :: b < |img| ==> (Free(img, b) <==> 3 <= b && b !in owner && b != loose))
  }

  lemma Distinct(img: Image, owner: map<nat, Ref>, loose: nat, r: Ref, s: Ref)
    requires Owned(img, owner, loose) && IsRef(r) && IsRef(s) && r != s && Target(img, r) != 0
    ensures Target(img, r) != Target(img, s) && 3 <= Target(img, r) < |img| && Target(img, r) != loose
  {
  }

  lemma TablesApart(img: Image, owner: map<nat, Ref>, loose: nat, g: Node, i: nat)
    requires Owned(img, owner, loose) && IsNode(g) && i < MAXBLOCKS
    ensures Target(img, Ind(g)) != 0 ==> Target(img, Ind(g)) != DirSlot(img, i) && Target(img, Ind(g)) >= 3
  {
    assert Open(0);
    assert DirSlot(img, i) == Target(img, Slot(Root, i));
  }

  /** The root's slots are where the entries live. */
  lemma EntryHome(img: Image, f: Node)
    requires f.Entry?
    ensures Home(img, f) == Target(img, Slot(Root, f.i))
  {
    assert Open(0);
  }

  // ---- changing one block ----

  ghost predicate OnlyBlock(img: Image, new': Image, b: nat) {
    |new'| == |img| && forall c :: 0 <= c < |img| && c != b ==> new'[c] == img[c]
  }

  /**
   * A block that is neither the super block nor the root's indirect block can change without moving any struct File.
   */
  lemma HomesKept(img: Image, new': Image, b: nat)
    requires OnlyBlock(img, new', b) && b != 1 && b != Target(img, Ind(Root)) && 1 < |img|
    ensures forall f: Node :: Home(new', f) == Home(img, f)
    ensures forall f: Node, x: nat :: Home(img, f) != b ==> Field(new', f, x) == Field(img, f, x)
    ensures forall r: Ref :: Home(img, r.f) != b && Target(img, Ind(r.f)) != b ==> Target(new', r) == Target(img, r)
  {
    assert Open(0);
    assert forall i :: W(new', 1, i) == W(img, 1, i);
    assert forall i :: DirSlot(new', i) == DirSlot(img, i);
  }

  /** The block a reference itself is stored in, and the word there. */
  ghost function RefHome(img: Image, r: Ref): nat {
    if r.Slot? && NDIRECT <= r.k then Target(img, Ind(r.f)) else Home(img, r.f)
  }

  function RefWord(r: Ref): nat {
    if r.Ind? then Base(r.f) + INDIRECT else if r.k < NDIRECT then Base(r.f) + DIRECT + r.k else r.k - NDIRECT
  }

  /** Writing a word. */
  function Poke(img: Image, b: nat, i: nat, w: nat): (r: Image)
    requires b < |img| && i < BLKWORDS && w < WORD
    ensures OnlyBlock(img, r, b) && W(r, b, i) == w
    ensures forall j: nat :: j != i ==> W(r, b, j) == W(img, b, j)
    ensures forall x :: 0 <= x < BLKSIZE && (x < 4 * i || 4 * i + 4 <= x) ==> r[b][x] == img[b][x]
  {
    img[b := SetWord(img[b], i, w)]
  }

  ghost predicate SameExcept(img: Image, new': Image, r: Ref) {
    forall s: Ref {:trigger Target(new', s)} :: IsRef(s) && s != r ==> Target(new', s) == Target(img, s)
  }

  ghost predicate Empty(b: Block) {
    && (forall i :: 0 <= i < BLKWORDS ==> Word(b, i) == 0)
    && (forall x :: 0 <= x < BLKSIZE ==> b[x] == 0)
  }

  /** None of the sixteen structs in a block names anything: words DIRECT to INDIRECT of each are zero. */
  ghost predicate Pointerless(b: Block) {
    forall j: nat, x: nat {:trigger PointerWord(b, j, x)} :: j < BLKFILES && DIRECT <= x <= INDIRECT ==>
      PointerWord(b, j, x) == 0
  }

  /** Word x of struct j of a directory block. */
  function PointerWord(b: Block, j: nat, x: nat): nat {
    if j < BLKFILES && x < 64 then Word(b, 64 * j + x) else 0
  }

  lemma ZerosEmpty()
    ensures Empty(Zeros())
  {
    forall i | 0 <= i < BLKWORDS ensures Word(Zeros(), i) == 0 {
      ZeroWord(i);
    }
  }

  /** No slot in the indirect block of f names anything. */
  ghost predicate NoIndirects(img: Image, f: Node) {
    forall k :: NDIRECT <= k < MAXBLOCKS ==> Target(img, Slot(f, k)) == 0
  }

  lemma EntryStructs(img: Image, owner: map<nat, Ref>, loose: nat, f: Node, x: nat, w: nat)
    requires Owned(img, owner, loose) && IsNode(f) && f.Entry? && Home(img, f) != 0 && x < 64 && w < WORD
    ensures 3 <= Home(img, f) < |img| && Home(img, f) != Target(img, Ind(Root))
    ensures var new' := Poke(img, Home(img, f), Base(f) + x, w);
            && (forall g: Node :: Home(new', g) == Home(img, g))
            && (forall g: Node, y: nat :: IsNode(g) && y < 64 && (g != f || y != x) ==>
              Field(new', g, y) == Field(img, g, y))
            && Field(new', f, x) == w
  {
    assert Open(0);
    EntryHome(img, f);
    var b := Home(img, f);
    assert owner[b] == Slot(Root, f.i);
    var new' := Poke(img, b, Base(f) + x, w);
    HomesKept(img, new', b);
    forall g: Node, y: nat | IsNode(g) && y < 64 && (g != f || y != x) ensures Field(new', g, y) == Field(img, g, y) {
      if Home(img, g) == b && g.Entry? {
        EntryHome(img, g);
        assert g.i == f.i;
        assert Base(g) + y != Base(f) + x;
      }
    }
  }

  /** A reference through a struct File whose fields are kept keeps its target, if its indirect block is kept too. */
  lemma TargetFollows(img: Image, new': Image, s: Ref)
    requires IsRef(s)
    requires Home(new', s.f) == Home(img, s.f)
    requires s.Ind? || NDIRECT <= s.k ==> Field(new', s.f, INDIRECT) == Field(img, s.f, INDIRECT)
    requires s.Slot? && s.k < NDIRECT ==> Field(new', s.f, DIRECT + s.k) == Field(img, s.f, DIRECT + s.k)
    requires s.Slot? && NDIRECT <= s.k && Field(img, s.f, INDIRECT) != 0 ==>
      W(new', Field(img, s.f, INDIRECT), s.k - NDIRECT) == W(img, Field(img, s.f, INDIRECT), s.k - NDIRECT)
    ensures Target(new', s) == Target(img, s)
  {
    assert Open(0);
  }

  lemma OtherBlockWord(img: Image, new': Image, b: nat, c: nat, i: nat)
    requires OnlyBlock(img, new', b) && c != b
    ensures W(new', c, i) == W(img, c, i)
  {
  }

  lemma SetEntryField(img: Image, owner: map<nat, Ref>, loose: nat, r: Ref, v: nat)
    requires Owned(img, owner, loose) && IsRef(r) && r.f.Entry? && (r.Slot? ==> r.k < NDIRECT) && Home(img, r.f) != 0
    requires v < WORD
    requires r.Ind? ==> NoIndirects(img, r.f) && (v != 0 ==> v == loose < |img| && Empty(img[v]))
    ensures Home(img, r.f) < |img|
    ensures var new' := Poke(img, RefHome(img, r), RefWord(r), v); Target(new', r) == v && SameExcept(img, new', r)
  {
    EntryFieldSelf(img, owner, loose, r, v);
    var new' := Poke(img, RefHome(img, r), RefWord(r), v);
    forall s: Ref | IsRef(s) && s != r ensures Target(new', s) == Target(img, s) {
      EntryFieldOther(img, owner, loose, r, v, s);
    }
  }

  lemma EntryFieldSelf(img: Image, owner: map<nat, Ref>, loose: nat, r: Ref, v: nat)
    requires Owned(img, owner, loose) && IsRef(r) && r.f.Entry? && (r.Slot? ==> r.k < NDIRECT) && Home(img, r.f) != 0
    requires v < WORD
    ensures Home(img, r.f) < |img| && Target(Poke(img, RefHome(img, r), RefWord(r), v), r) == v
  {
    assert Open(0);
    EntryStructs(img, owner, loose, r.f, if r.Ind? then INDIRECT else DIRECT + r.k, v);
  }

  lemma EntryFieldOther(img: Image, owner: map<nat, Ref>, loose: nat, r: Ref, v: nat, s: Ref)
    requires Owned(img, owner, loose) && IsRef(r) && IsRef(s) && s != r && v < WORD
    requires r.f.Entry? && (r.Slot? ==> r.k < NDIRECT) && 0 < Home(img, r.f) < |img|
    requires r.Ind? ==> NoIndirects(img, r.f) && (v != 0 ==> v == loose < |img| && Empty(img[v]))
    ensures Target(Poke(img, RefHome(img, r), RefWord(r), v), s) == Target(img, s)
  {
    if s.f == r.f && r.Ind? && s.Slot? && NDIRECT <= s.k {
      NewTableEmpty(img, owner, loose, r, v, s);
    } else {
      EntryFieldApart(img, owner, loose, r, v, s);
    }
  }

  lemma EntryFieldApart(img: Image, owner: map<nat, Ref>, loose: nat, r: Ref, v: nat, s: Ref)
    requires Owned(img, owner, loose) && IsRef(r) && IsRef(s) && s != r && v < WORD
    requires r.f.Entry? && (r.Slot? ==> r.k < NDIRECT) && 0 < Home(img, r.f) < |img|
    requires s.f != r.f || r.Slot? || s.k < NDIRECT
    ensures Target(Poke(img, RefHome(img, r), RefWord(r), v), s) == Target(img, s)
  {
    assert Open(0);
    var b, new' := Home(img, r.f), Poke(img, RefHome(img, r), RefWord(r), v);
    EntryStructs(img, owner, loose, r.f, if r.Ind? then INDIRECT else DIRECT + r.k, v);
    EntryHome(img, r.f);
    Distinct(img, owner, loose, Slot(Root, r.f.i), Ind(s.f));
    if s.Slot? && NDIRECT <= s.k {
      OtherBlockWord(img, new', b, Target(img, Ind(s.f)), s.k - NDIRECT);
    }
    TargetFollows(img, new', s);
  }

  lemma NewTableEmpty(img: Image, owner: map<nat, Ref>, loose: nat, r: Ref, v: nat, s: Ref)
    requires Owned(img, owner, loose) && IsRef(r) && IsRef(s) && v < WORD && r.Ind? && s.f == r.f && s.Slot?
      && NDIRECT <= s.k
    requires r.f.Entry? && 0 < Home(img, r.f) < |img| && NoIndirects(img, r.f)
    requires v != 0 ==> v == loose < |img| && Empty(img[v])
    ensures Target(Poke(img, RefHome(img, r), RefWord(r), v), s) == Target(img, s)
  {
    assert Open(0);
    var new' := Poke(img, RefHome(img, r), RefWord(r), v);
    EntryStructs(img, owner, loose, r.f, INDIRECT, v);
    EntryHome(img, r.f);
    assert v != 0 ==> v != Home(img, r.f);
  }

  lemma SetEntrySlot(img: Image, owner: map<nat, Ref>, loose: nat, r: Ref, v: nat)
    requires Owned(img, owner, loose) && IsRef(r) && r.f.Entry? && r.Slot? && NDIRECT <= r.k
    requires Target(img, Ind(r.f)) != 0 && v < WORD
    ensures RefHome(img, r) < |img|
    ensures var new' := Poke(img, RefHome(img, r), RefWord(r), v); Target(new', r) == v && SameExcept(img, new', r)
  {
    assert Open(0);
    var b := Target(img, Ind(r.f));
    Distinct(img, owner, loose, Ind(r.f), Ind(Root));
    var new' := Poke(img, b, r.k - NDIRECT, v);
    forall s: Ref | IsRef(s) ensures s != r ==> Target(new', s) == Target(img, s) {
      EntrySlotOther(img, owner, loose, r, new', s);
    }
    EntrySlotOther(img, owner, loose, r, new', Ind(r.f));
  }

  lemma EntrySlotOther(img: Image, owner: map<nat, Ref>, loose: nat, r: Ref, new': Image, s: Ref)
    requires Owned(img, owner, loose) && IsRef(r) && r.f.Entry? && r.Slot? && NDIRECT <= r.k && IsRef(s)
    requires Target(img, Ind(r.f)) != 0 && OnlyBlock(img, new', Target(img, Ind(r.f)))
    requires forall j: nat :: j != r.k - NDIRECT ==>
      W(new', Target(img, Ind(r.f)), j) == W(img, Target(img, Ind(r.f)), j)
    ensures Home(new', s.f) == Home(img, s.f) && (s != r ==> Target(new', s) == Target(img, s))
  {
    assert Open(0);
    var b := Target(img, Ind(r.f));
    Distinct(img, owner, loose, Ind(r.f), Ind(Root));
    HomesKept(img, new', b);
    if s.f.Entry? {
      EntryHome(img, s.f);
      Distinct(img, owner, loose, Ind(r.f), Slot(Root, s.f.i));
    }
    if s != r { TargetFollows(img, new', s); }
  }

  // ---- growing the directory ----

  /** Structs without pointers in a block the directory takes name nothing, as they did before they existed. */
  lemma EmptyStructs(img: Image, new': Image, i: nat, s: Ref)
    requires IsRef(s) && s.f.Entry? && s.f.i == i && DirSlot(img, i) == 0
    requires DirSlot(new', i) < |new'| && Pointerless(new'[DirSlot(new', i)])
    ensures Target(new', s) == Target(img, s) == 0
  {
    assert Open(0);
    if s.Slot? && s.k < NDIRECT { assert PointerWord(new'[DirSlot(new', i)], s.f.j, DIRECT + s.k) == 0; }
    assert PointerWord(new'[DirSlot(new', i)], s.f.j, INDIRECT) == 0;
  }

  /** A struct File that stays where it is, in a block that does not change. */
  lemma EntryUntouched(img: Image, new': Image, owner: map<nat, Ref>, loose: nat, b: nat, s: Ref)
    requires Owned(img, owner, loose) && IsRef(s) && s.f.Entry? && OnlyBlock(img, new', b)
    requires b == 1 || (b == Target(img, Ind(Root)) && b != 0)
    requires DirSlot(new', s.f.i) == DirSlot(img, s.f.i)
    ensures Target(new', s) == Target(img, s)
  {
    assert Open(0);
    EntryHome(img, s.f);
    if Home(img, s.f) != 0 {
      Distinct(img, owner, loose, Slot(Root, s.f.i), Ind(Root));
      if Target(img, Ind(s.f)) != 0 { Distinct(img, owner, loose, Ind(s.f), Ind(Root)); }
      TargetFollows(img, new', s);
    }
  }

  lemma SetRootInd(img: Image, owner: map<nat, Ref>, v: nat)
    requires Owned(img, owner, v) && Target(img, Ind(Root)) == 0 && 3 <= v < |img| && Empty(img[v])
    ensures var new' := Poke(img, 1, 2 + INDIRECT, v); Target(new', Ind(Root)) == v && SameExcept(img, new', Ind(Root))
  {
    assert Open(0);
    var new' := Poke(img, 1, 2 + INDIRECT, v);
    assert forall i: nat :: i < MAXBLOCKS ==> DirSlot(new', i) == DirSlot(img, i);
    forall s: Ref | IsRef(s) && s != Ind(Root) ensures Target(new', s) == Target(img, s) {
      if s.f.Root? {
        assert DirSlot(new', s.k) == DirSlot(img, s.k);
      } else {
        EntryUntouched(img, new', owner, v, 1, s);
      }
    }
  }

  // ---- setting a reference ----

  /** What the code writes to a reference: a fresh block, or zero when it frees one of a regular file's blocks. */
  ghost predicate Settable(img: Image, loose: nat, r: Ref, v: nat) {
    && IsRef(r) && RefHome(img, r) != 0
    && (v == 0 || (v == loose && 3 <= v < |img|))
    && (r.f.Root? ==> v != 0 && Target(img, r) == 0)
    && (r.Ind? && v != 0 ==> Empty(img[v]))
    && (r.f.Root? && r.Slot? ==> Pointerless(img[v]))
    && (r.f.Entry? && r.Ind? ==> NoIndirects(img, r.f))
  }

  ghost function SetRef(img: Image, r: Ref, v: nat): (new': Image)
    requires RefHome(img, r) < |img| && RefWord(r) < BLKWORDS && v < WORD
    ensures OnlyBlock(img, new', RefHome(img, r))
  {
    Poke(img, RefHome(img, r), RefWord(r), v)
  }

  lemma RefHomeKnown(img: Image, owner: map<nat, Ref>, loose: nat, r: Ref)
    requires Owned(img, owner, loose) && IsRef(r) && RefHome(img, r) != 0
    ensures RefHome(img, r) < |img| && RefHome(img, r) != 2 && RefHome(img, r) != loose && RefWord(r) < BLKWORDS
    ensures RefHome(img, r) == 1
      || (RefHome(img, r) in owner && (owner[RefHome(img, r)].Ind? || owner[RefHome(img, r)].f.Root?))
  {
    assert Open(0);
    if r.f.Entry? { EntryHome(img, r.f); }
  }

  lemma Unseated(img: Image, f: Node)
    requires Home(img, f) == 0
    ensures Size(img, f) == 0 && Kind(img, f) == 0 && forall x: nat :: Char(img, f, x) == 0
  {
    assert Open(0);
  }

  lemma CharIs(img: Image, f: Node, x: nat)
    requires 0 < Home(img, f) < |img| && 4 * Base(f) + x < BLKSIZE
    ensures Char(img, f, x) == img[Home(img, f)][4 * Base(f) + x]
  {
    assert Open(0);
  }

  lemma NoTable(img: Image, f: Node)
    requires Target(img, Ind(f)) == 0
    ensures NoIndirects(img, f)
  {
    assert Open(0);
  }

  /** Reading a reference where it is stored. */
  lemma RefReads(img: Image, r: Ref)
    requires RefHome(img, r) != 0
    ensures Target(img, r) == W(img, RefHome(img, r), RefWord(r))
  {
    assert Open(0);
  }

  lemma TargetNeedsHome(img: Image, r: Ref)
    requires Target(img, r) != 0
    ensures RefHome(img, r) != 0
  {
    assert Open(0);
  }

  /** Putting any block at all in a slot of the directory moves no reference outside that block. */
  lemma RootSlotOther(img: Image, owner: map<nat, Ref>, v: nat, k: nat, s: Ref)
    requires Owned(img, owner, v) && k < MAXBLOCKS && Target(img, Slot(Root, k)) == 0
      && RefHome(img, Slot(Root, k)) != 0
    requires 3 <= v < |img| && IsRef(s) && s != Slot(Root, k) && (s.f.Entry? ==> s.f.i != k)
    ensures RefHome(img, Slot(Root, k)) < |img| && Target(SetRef(img, Slot(Root, k), v), s) == Target(img, s)
  {
    RefHomeKnown(img, owner, v, Slot(Root, k));
    RootSlots(img, owner, v, k);
    var new', b := SetRef(img, Slot(Root, k), v), RefHome(img, Slot(Root, k));
    if s.f.Entry? {
      EntryUntouched(img, new', owner, v, b, s);
    } else if s.Slot? {
      assert Open(0);
      assert DirSlot(new', s.k) == DirSlot(img, s.k);
    } else {
      assert Open(0);
    }
  }

  lemma RootSlots(img: Image, owner: map<nat, Ref>, v: nat, k: nat)
    requires Owned(img, owner, v) && k < MAXBLOCKS && RefHome(img, Slot(Root, k)) != 0 && 3 <= v < |img|
    ensures var b := RefHome(img, Slot(Root, k)); 0 < b < |img| && b != v && (b == 1 || b == Target(img, Ind(Root)))
    ensures var new' := SetRef(img, Slot(Root, k), v);
            && Target(new', Slot(Root, k)) == DirSlot(new', k) == v && new'[v] == img[v] && new'[2] == img[2]
            && forall i: nat :: i != k ==> DirSlot(new', i) == DirSlot(img, i)
  {
    assert Open(0);
    RefHomeKnown(img, owner, v, Slot(Root, k));
    var t := Target(img, Ind(Root));
    assert t != 0 ==> 3 <= t;
  }

  lemma SetRootSlot(img: Image, owner: map<nat, Ref>, v: nat, k: nat)
    requires Owned(img, owner, v) && k < MAXBLOCKS && Target(img, Slot(Root, k)) == 0
      && RefHome(img, Slot(Root, k)) != 0
    requires 3 <= v < |img| && Pointerless(img[v])
    ensures RefHome(img, Slot(Root, k)) < |img|
    ensures var new' := SetRef(img, Slot(Root, k), v);
            Target(new', Slot(Root, k)) == v && SameExcept(img, new', Slot(Root, k))
  {
    RootSlots(img, owner, v, k);
    var new' := SetRef(img, Slot(Root, k), v);
    forall s: Ref | IsRef(s) && s != Slot(Root, k) ensures Target(new', s) == Target(img, s) {
      if s.f.Entry? && s.f.i == k {
        EntryHome(img, s.f);
        SlotIsDirSlot(img, k);
        EmptyStructs(img, new', k, s);
      } else {
        RootSlotOther(img, owner, v, k, s);
      }
    }
  }

  lemma SlotIsDirSlot(img: Image, k: nat)
    ensures Target(img, Slot(Root, k)) == DirSlot(img, k)
  {
    assert Open(0);
  }

  lemma SetRefTargets(img: Image, owner: map<nat, Ref>, loose: nat, r: Ref, v: nat)
    requires Owned(img, owner, loose) && Settable(img, loose, r, v)
    ensures RefHome(img, r) < |img| && RefWord(r) < BLKWORDS
    ensures Target(SetRef(img, r, v), r) == v && SameExcept(img, SetRef(img, r, v), r)
  {
    RefHomeKnown(img, owner, loose, r);
    if r.f.Root? {
      if r.Ind? {
        SetRootInd(img, owner, v);
      } else {
        SetRootSlot(img, owner, v, r.k);
      }
    } else if r.Ind? || r.k < NDIRECT {
      SetEntryField(img, owner, loose, r, v);
    } else {
      SetEntrySlot(img, owner, loose, r, v);
    }
  }

  // ---- sizes, types and names ----

  /** A struct that was there stays in its block, with its size, type and name. */
  ghost predicate SameInfo(img: Image, new': Image, f: Node) {
    Home(img, f) != 0 ==>
      && Home(new', f) == Home(img, f) && Size(new', f) == Size(img, f) && Kind(new', f) == Kind(img, f)
      && forall x: nat :: x < 128 ==> Char(new', f, x) == Char(img, f, x)
  }

  ghost predicate SameInfos(img: Image, new': Image) { forall f: Node :: IsNode(f) ==> SameInfo(img, new', f) }

  /** Data blocks of regular files keep their contents. */
  ghost predicate SameData(img: Image, new': Image) {
    && |new'| == |img|
    && forall f: Node, k: nat {:trigger Target(img, Slot(f, k))} ::
         IsRef(Slot(f, k)) && f.Entry? && 0 < Target(img, Slot(f, k)) < |img| ==>
           new'[Target(img, Slot(f, k))] == img[Target(img, Slot(f, k))]
  }

  lemma SetRefData(img: Image, owner: map<nat, Ref>, loose: nat, r: Ref, v: nat)
    requires Owned(img, owner, loose) && IsRef(r) && RefHome(img, r) != 0 && v < WORD
    ensures RefHome(img, r) < |img| && RefWord(r) < BLKWORDS && SameData(img, SetRef(img, r, v))
  {
    RefHomeKnown(img, owner, loose, r);
  }

  lemma SetRefInfo(img: Image, owner: map<nat, Ref>, loose: nat, r: Ref, v: nat)
    requires Owned(img, owner, loose) && Settable(img, loose, r, v)
    ensures RefHome(img, r) < |img| && RefWord(r) < BLKWORDS && SameInfos(img, SetRef(img, r, v))
  {
    RefHomeKnown(img, owner, loose, r);
    SetRefTargets(img, owner, loose, r, v);
    var new' := SetRef(img, r, v);
    forall f: Node | IsNode(f) ensures SameInfo(img, new', f) {
      SetRefInfoOf(img, owner, loose, r, v, f);
    }
  }

  lemma SetRefInfoOf(img: Image, owner: map<nat, Ref>, loose: nat, r: Ref, v: nat, f: Node)
    requires Owned(img, owner, loose) && Settable(img, loose, r, v) && IsNode(f)
    requires RefHome(img, r) < |img| && RefWord(r) < BLKWORDS && SameExcept(img, SetRef(img, r, v), r)
    requires Target(SetRef(img, r, v), r) == v
    ensures SameInfo(img, SetRef(img, r, v), f)
  {
    assert Open(0);
    var new', b := SetRef(img, r, v), RefHome(img, r);
    RefHomeKnown(img, owner, loose, r);
    if f.Entry? {
      EntryHome(img, f);
      EntryHome(new', f);
    }
    if Home(img, f) == Home(new', f) {
      if b == Home(img, f) { HomeOfRef(img, owner, loose, r, f); }
    }
  }

  /** If a reference is stored in the block of struct f, it is in a struct of that block, clear of sizes and names. */
  lemma HomeOfRef(img: Image, owner: map<nat, Ref>, loose: nat, r: Ref, f: Node)
    requires Owned(img, owner, loose) && IsRef(r) && IsNode(f) && RefHome(img, r) == Home(img, f) != 0
    ensures RefWord(r) >= Base(f) + DIRECT || RefWord(r) < Base(f)
  {
    assert Open(0);
    TablesApart(img, owner, loose, r.f, if f.Entry? then f.i else 0);
    if f.Entry? { EntryHome(img, f); }
    if r.f.Entry? { EntryHome(img, r.f); }
  }

  // ---- what the directory may grow into ----

  /** Some ownership fits the image. */
  ghost predicate Ownable(img: Image) { exists owner: map<nat, Ref> :: Owned(img, owner, 0) }

  /**
   * A pointer left in the block the directory takes ends up naming a block twice, or a free one, or one out of range.
   */
  lemma StalePointer(img: Image, owner: map<nat, Ref>, v: nat, k: nat, s: Ref, owner': map<nat, Ref>)
    requires Owned(img, owner, v) && k < MAXBLOCKS && Target(img, Slot(Root, k)) == 0
      && RefHome(img, Slot(Root, k)) != 0
    requires 3 <= v < |img| && IsRef(s) && s.f.Entry? && s.f.i == k
    ensures RefHome(img, Slot(Root, k)) < |img|
    ensures Target(SetRef(img, Slot(Root, k), v), s) != 0 ==> !Owned(SetRef(img, Slot(Root, k), v), owner', 0)
  {
    RootSlots(img, owner, v, k);
    var new' := SetRef(img, Slot(Root, k), v);
    var t := Target(new', s);
    if t != 0 && Owned(new', owner', 0) {
      assert t in owner' && owner'[t] == s;
      assert Free(new', t) == Free(img, t);
      assert t != v;
      var r := owner[t];
      if r.f.Entry? { EntryHome(img, r.f); }
      NothingUnseated(img, r);
      RootSlotOther(img, owner, v, k, r);
    }
  }

  /** References of structs that are not there name nothing. */
  lemma NothingUnseated(img: Image, r: Ref)
    ensures Home(img, r.f) == 0 ==> Target(img, r) == 0
  {
    assert Open(0);
  }

  lemma PointerRead(img: Image, new': Image, v: nat, k: nat, j: nat, x: nat)
    requires k < MAXBLOCKS && j < BLKFILES && DIRECT <= x <= INDIRECT && 0 < v < |new'| && DirSlot(new', k) == v
    ensures Target(new', if x == INDIRECT then Ind(Entry(k, j)) else Slot(Entry(k, j), x - DIRECT)) ==
      PointerWord(new'[v], j, x)
  {
    assert Open(0);
  }

  /**
   * The directory can take block v at slot k, direct or indirect, and keep every block owned by one reference exactly
   * when none of the sixteen structs in v names anything.
   */
  lemma StaleDirectory(img: Image, owner: map<nat, Ref>, v: nat, k: nat)
    requires Owned(img, owner, v) && k < MAXBLOCKS && Target(img, Slot(Root, k)) == 0
      && RefHome(img, Slot(Root, k)) != 0
    requires 3 <= v < |img|
    ensures RefHome(img, Slot(Root, k)) < |img|
    ensures Ownable(SetRef(img, Slot(Root, k), v)) <==> Pointerless(img[v])
  {
    RootSlots(img, owner, v, k);
    var new' := SetRef(img, Slot(Root, k), v);
    if Pointerless(img[v]) {
      SetRootSlot(img, owner, v, k);
      OwnedInstall(img, new', owner, v, Slot(Root, k));
    } else {
      var j: nat, x: nat :| j < BLKFILES && DIRECT <= x <= INDIRECT && PointerWord(img[v], j, x) != 0;
      PointerRead(img, new', v, k, j, x);
      forall owner' : map<nat, Ref> ensures !Owned(new', owner', 0) {
        var s := if x == INDIRECT then Ind(Entry(k, j)) else Slot(Entry(k, j), x - DIRECT);
        StalePointer(img, owner, v, k, s, owner');
      }
    }
  }

  /**
   * A client may open the root and write to it as to a file. A four-byte write over f_direct[k] of entry j in the
   * directory's block i keeps every block owned by one reference exactly when it writes the number already there.
   */
  lemma DirectoryWrite(img: Image, owner: map<nat, Ref>, i: nat, j: nat, k: nat, v: nat)
    requires Owned(img, owner, 0) && i < MAXBLOCKS && j < BLKFILES && k < NDIRECT && v < WORD
      && Target(img, Slot(Root, i)) != 0
    ensures var b := Target(img, Slot(Root, i));
            b < |img| && (Ownable(Poke(img, b, 64 * j + DIRECT + k, v)) <==> v == Target(img, Slot(Entry(i, j), k)))
  {
    var r := Slot(Entry(i, j), k);
    EntryHome(img, r.f);
    SetEntryField(img, owner, 0, r, v);
    var t, new' := Target(img, r), Poke(img, Home(img, r.f), RefWord(r), v);
    if v == t {
      forall c: nat | c < |img| ensures Free(new', c) == Free(img, c) {}
      forall s: Ref | IsRef(s) ensures Target(new', s) == Target(img, s) {}
      assert Owned(new', owner, 0);
    } else {
      forall owner' : map<nat, Ref> ensures !Owned(new', owner', 0) {
        WrongPointer(img, owner, r, new', owner');
      }
    }
  }

  /** Block b is named by an indirect pointer v or by the table in block v. */
  ghost predicate Listed(img: Image, v: nat, b: nat) {
    b != 0 && v != 0 && (b == v || exists x: nat :: x < BLKWORDS && W(img, v, x) == b)
  }

  /** Pointer and table name no block twice. */
  ghost predicate OneEach(img: Image, v: nat) {
    v != 0 ==> forall x: nat :: x < BLKWORDS && W(img, v, x) != 0 ==>
      W(img, v, x) != v && forall y: nat :: y < BLKWORDS && W(img, v, y) == W(img, v, x) ==> y == x
  }

  /** Pointer v and its table name, once each, the blocks that pointer t and its table name. */
  ghost predicate SameList(img: Image, t: nat, v: nat) {
    OneEach(img, v) && forall b: nat :: Listed(img, t, b) <==> Listed(img, v, b)
  }

  predicate ThroughTable(s: Ref, f: Node) { s.f == f && (s.Ind? || NDIRECT <= s.k) }

  /** What every reference names after a store over f_indirect of entry f. */
  lemma IndirectStored(img: Image, owner: map<nat, Ref>, f: Node, v: nat, s: Ref)
    requires Owned(img, owner, 0) && IsNode(f) && f.Entry? && 0 < Home(img, f) < |img| && v < WORD && IsRef(s)
    ensures var new' := Poke(img, Home(img, f), Base(f) + INDIRECT, v);
            && Target(new', s) == (if !ThroughTable(s, f) then Target(img, s) else if s.Ind? then v
                                   else if v == 0 then 0 else W(new', v, s.k - NDIRECT))
            && (v != Home(img, f) ==> forall x: nat :: W(new', v, x) == W(img, v, x))
  {
    var new' := Poke(img, Home(img, f), Base(f) + INDIRECT, v);
    EntryFieldSelf(img, owner, 0, Ind(f), v);
    if !ThroughTable(s, f) {
      EntryFieldApart(img, owner, 0, Ind(f), v, s);
    } else if s.Slot? {
      assert Open(0);
      EntryStructs(img, owner, 0, f, INDIRECT, v);
    }
  }

  /** Listed blocks are the ones f owns through its table. */
  lemma ListedIsNamed(img: Image, f: Node, b: nat)
    requires IsNode(f)
    ensures Listed(img, Target(img, Ind(f)), b) <==>
      b != 0 && exists s: Ref :: IsRef(s) && ThroughTable(s, f) && Target(img, s) == b
  {
    assert Open(0);
    var t := Target(img, Ind(f));
    if Listed(img, t, b) {
      if b == t {
        assert IsRef(Ind(f)) && ThroughTable(Ind(f), f);
      } else {
        var x: nat :| x < BLKWORDS && W(img, t, x) == b;
        var s := Slot(f, x + NDIRECT);
        assert Target(img, s) == b && IsRef(s) && ThroughTable(s, f);
      }
    }
    if s: Ref :| IsRef(s) && ThroughTable(s, f) && Target(img, s) == b && b != 0 {
      if s.Slot? { assert W(img, t, s.k - NDIRECT) == b; }
    }
  }

  /** The same bitmap, and the same targets for all references but those through the table of f. */
  ghost predicate SameButTable(img: Image, new': Image, f: Node) {
    && 2 < |img| == |new'| && new'[2] == img[2]
    && forall s: Ref :: IsRef(s) && !ThroughTable(s, f) ==> Target(new', s) == Target(img, s)
  }

  /** Then f owns the same blocks through its table, if there is ownership on both sides. */
  lemma ListsMatch(img: Image, owner: map<nat, Ref>, new': Image, owner': map<nat, Ref>, f: Node, b: nat)
    requires Owned(img, owner, 0) && Owned(new', owner', 0) && SameButTable(img, new', f) && IsNode(f)
    requires Listed(img, Target(img, Ind(f)), b)
    ensures Listed(new', Target(new', Ind(f)), b)
  {
    ListedIsNamed(img, f, b);
    ListedIsNamed(new', f, b);
    assert owner[b].f == f && ThroughTable(owner[b], f);
    assert Free(new', b) == Free(img, b);
    var s := owner'[b];
    assert ThroughTable(s, f) && Target(new', s) == b;
  }

  lemma OwnedOneEach(img: Image, owner: map<nat, Ref>, f: Node)
    requires Owned(img, owner, 0) && IsNode(f)
    ensures OneEach(img, Target(img, Ind(f)))
  {
    assert Open(0);
    var t := Target(img, Ind(f));
    if t != 0 {
      forall x: nat | x < BLKWORDS && W(img, t, x) != 0
        ensures W(img, t, x) != t && forall y: nat :: y < BLKWORDS && W(img, t, y) == W(img, t, x) ==> y == x
      {
        assert Target(img, Slot(f, x + NDIRECT)) == W(img, t, x);
        forall y: nat | y < BLKWORDS && W(img, t, y) == W(img, t, x) ensures y == x {
          assert Target(img, Slot(f, y + NDIRECT)) == W(img, t, y);
        }
      }
    }
  }

  /** The reference of f that names b through pointer v. */
  ghost function NamerOf(img: Image, f: Node, v: nat, b: nat): (s: Ref)
    requires Listed(img, v, b)
    ensures ThroughTable(s, f) && (IsNode(f) ==> IsRef(s)) && (if s.Ind? then b == v else W(img, v, s.k - NDIRECT) == b)
  {
    if b == v then Ind(f) else var x: nat :| x < BLKWORDS && W(img, v, x) == b; Slot(f, x + NDIRECT)
  }

  lemma OwnerAfter(img: Image, owner: map<nat, Ref>, new': Image, f: Node, b: nat)
    requires Owned(img, owner, 0) && SameButTable(img, new', f) && IsNode(f) && b in owner
    requires Listed(img, Target(img, Ind(f)), b) <==> Listed(new', Target(new', Ind(f)), b)
    ensures var v := Target(new', Ind(f));
            var s := if Listed(new', v, b) then NamerOf(new', f, v, b) else owner[b];
            IsRef(s) && Target(new', s) == b
  {
    ListedIsNamed(img, f, b);
    var v := Target(new', Ind(f));
    if Listed(new', v, b) {
      TableReads(new', f, NamerOf(new', f, v, b));
    }
  }

  lemma TableReads(img: Image, f: Node, s: Ref)
    requires ThroughTable(s, f)
    ensures Target(img, s) == (if s.Ind? then Target(img, Ind(f)) else if Target(img, Ind(f)) == 0 then 0
                               else W(img, Target(img, Ind(f)), s.k - NDIRECT))
  {
    assert Open(0);
  }

  /** With the same blocks listed once each, ownership moves over. */
  lemma OwnershipMoves(img: Image, owner: map<nat, Ref>, new': Image, f: Node)
    requires Owned(img, owner, 0) && SameButTable(img, new', f) && IsNode(f)
    requires OneEach(new', Target(new', Ind(f)))
    requires forall b: nat :: Listed(img, Target(img, Ind(f)), b) <==> Listed(new', Target(new', Ind(f)), b)
    ensures Ownable(new')
  {
    var v := Target(new', Ind(f));
    var owner' := map b: nat | b in owner :: if Listed(new', v, b) then NamerOf(new', f, v, b) else owner[b];
    forall b: nat | b < |img| ensures Free(new', b) == Free(img, b) {}
    forall r: Ref | IsRef(r) && Target(new', r) != 0 ensures Target(new', r) in owner' && owner'[Target(new', r)] == r {
      NamedAfter(img, owner, new', f, r);
    }
    forall b: nat | b in owner' ensures IsRef(owner'[b]) && Target(new', owner'[b]) == b && 3 <= b < |new'| {
      OwnerAfter(img, owner, new', f, b);
    }
    assert Owned(new', owner', 0);
  }

  lemma NamedAfter(img: Image, owner: map<nat, Ref>, new': Image, f: Node, r: Ref)
    requires Owned(img, owner, 0) && SameButTable(img, new', f) && IsNode(f) && IsRef(r) && Target(new', r) != 0
    requires OneEach(new', Target(new', Ind(f)))
    requires forall b: nat :: Listed(img, Target(img, Ind(f)), b) <==> Listed(new', Target(new', Ind(f)), b)
    ensures var b, v := Target(new', r), Target(new', Ind(f));
            b in owner && if Listed(new', v, b) then NamerOf(new', f, v, b) == r else owner[b] == r
  {
    var b, v := Target(new', r), Target(new', Ind(f));
    ListedIsNamed(img, f, b);
    ListedIsNamed(new', f, b);
    assert Open(0);
    if Listed(new', v, b) {
      var s: Ref :| IsRef(s) && ThroughTable(s, f) && Target(img, s) == b;
      assert owner[b] == s;
      assert ThroughTable(r, f);
    }
  }

  /** A pointer v to a table that the store left alone: ownership survives exactly when the lists agree. */
  lemma TableDecides(img: Image, owner: map<nat, Ref>, new': Image, f: Node, v: nat)
    requires Owned(img, owner, 0) && SameButTable(img, new', f) && IsNode(f) && Target(new', Ind(f)) == v
    requires forall x: nat :: W(new', v, x) == W(img, v, x)
    ensures Ownable(new') <==> SameList(img, Target(img, Ind(f)), v)
  {
    var t := Target(img, Ind(f));
    forall c: nat ensures Listed(new', v, c) == Listed(img, v, c) {}
    if SameList(img, t, v) { OwnershipMoves(img, owner, new', f); }
    if Ownable(new') {
      var owner' :| Owned(new', owner', 0);
      OwnedOneEach(new', owner', f);
      forall c: nat ensures Listed(img, t, c) <==> Listed(img, v, c) {
        if Listed(img, t, c) { ListsMatch(img, owner, new', owner', f, c); }
        if Listed(new', v, c) { ListsMatch(new', owner', img, owner, f, c); }
      }
    }
  }

  /**
   * A write over f_indirect of entry j in the directory's block i: ownership survives exactly when the new pointer and
   * the table it leads to name, once each, the blocks that the old ones did; with no indirect block before, only zero.
   */
  lemma DirectoryWriteIndirect(img: Image, owner: map<nat, Ref>, i: nat, j: nat, v: nat)
    requires Owned(img, owner, 0) && i < MAXBLOCKS && j < BLKFILES && v < WORD && Target(img, Slot(Root, i)) != 0
    ensures var b := Target(img, Slot(Root, i));
            && b < |img|
            && (Ownable(Poke(img, b, 64 * j + INDIRECT, v)) <==> SameList(img, Target(img, Ind(Entry(i, j))), v))
  {
    var f := Entry(i, j);
    EntryHome(img, f);
    var b := Home(img, f);
    var new' := Poke(img, b, Base(f) + INDIRECT, v);
    forall s: Ref | IsRef(s) && !ThroughTable(s, f) ensures Target(new', s) == Target(img, s) {
      IndirectStored(img, owner, f, v, s);
    }
    IndirectStored(img, owner, f, v, Ind(f));
    if v == b {
      OverHome(img, owner, f, new');
    } else {
      TableDecides(img, owner, new', f, v);
    }
  }

  /** A pointer to the entry's own block names a block of the directory. */
  lemma OverHome(img: Image, owner: map<nat, Ref>, f: Node, new': Image)
    requires Owned(img, owner, 0) && IsNode(f) && f.Entry? && Home(img, f) != 0 && SameButTable(img, new', f)
    requires Target(new', Ind(f)) == Home(img, f)
    ensures !Ownable(new') && !SameList(img, Target(img, Ind(f)), Home(img, f))
  {
    EntryHome(img, f);
    var b := Home(img, f);
    ListedIsNamed(img, f, b);
    assert Target(new', Slot(Root, f.i)) == b;
    assert Listed(img, b, b);
    forall owner' : map<nat, Ref> ensures !Owned(new', owner', 0) {
      assert IsRef(Ind(f)) && IsRef(Slot(Root, f.i));
    }
  }

  /** A changed reference leaves its old block without an owner, or names a block that is free or has one already. */
  lemma WrongPointer(img: Image, owner: map<nat, Ref>, r: Ref, new': Image, owner': map<nat, Ref>)
    requires Owned(img, owner, 0) && IsRef(r) && SameExcept(img, new', r) && Target(new', r) != Target(img, r)
    requires |new'| == |img| && new'[2] == img[2]
    ensures !Owned(new', owner', 0)
  {
    var t, v := Target(img, r), Target(new', r);
    assert Free(new', t) == Free(img, t) && Free(new', v) == Free(img, v);
  }

  lemma OwnedInstall(img: Image, new': Image, owner: map<nat, Ref>, b: nat, r: Ref)
    requires Owned(img, owner, b) && b != 0 && IsRef(r) && Target(img, r) == 0
    requires |new'| == |img| && new'[2] == img[2] && SameExcept(img, new', r) && Target(new', r) == b
    ensures Owned(new', owner[b := r], 0)
  {
    forall c: nat | c < |img| ensures Free(new', c) == Free(img, c) {}
  }
}
