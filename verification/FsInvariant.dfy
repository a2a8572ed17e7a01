/** What every file-system operation keeps true of the block image. */
module FsInvariant {
  import opened Blocks
  import opened FsLayout

  /**
   * Nothing past the end: no slot at or past the size, and no indirect block for a file of fewer than NDIRECT blocks.
   */
  ghost predicate Trimmed(img: Image, f: Node) {
    && Size(img, f) < OFF_MAX
    && (forall k: nat :: k < MAXBLOCKS && Size(img, f) <= BLKSIZE * k ==> Target(img, Slot(f, k)) == 0)
    && (Size(img, f) <= BLKSIZE * (NDIRECT - 1) ==> Target(img, Ind(f)) == 0)
  }

  /** The root is the only directory; it is made of whole blocks, all present except perhaps the last. */
  ghost predicate Directory(img: Image) {
    && Kind(img, Root) == 1
    && Size(img, Root) % BLKSIZE == 0 && Size(img, Root) <= BLKSIZE * (MAXBLOCKS + 1)
    && forall i: nat :: i < MAXBLOCKS && BLKSIZE * (i + 1) < Size(img, Root) ==> Target(img, Slot(Root, i)) != 0
  }

  /** Entries are regular files with terminated names; an unnamed entry is an unused one. */
  ghost predicate Regular(img: Image, f: Node) {
    Kind(img, f) == 0 && Char(img, f, 127) == 0 && (Char(img, f, 0) == 0 ==> Size(img, f) == 0)
  }

  ghost predicate Shaped(img: Image) {
    && (forall f: Node :: IsNode(f) ==> Trimmed(img, f))
    && Directory(img)
    && (forall f: Node :: IsNode(f) && f.Entry? ==> Regular(img, f))
  }

  ghost predicate Sound(img: Image, owner: map<nat, Ref>, loose: nat) { Owned(img, owner, loose) && Shaped(img) }

  ghost predicate SameTargets(img: Image, new': Image) {
    forall r: Ref {:trigger Target(new', r)} :: IsRef(r) ==> Target(new', r) == Target(img, r)
  }

  /** A struct that stays in place, or stays absent, reads the same. */
  lemma ReadsSame(img: Image, new': Image, f: Node)
    requires SameInfo(img, new', f) && (Home(img, f) == 0 ==> Home(new', f) == 0)
    ensures Size(new', f) == Size(img, f) && Kind(new', f) == Kind(img, f)
    ensures forall x: nat :: x < 128 ==> Char(new', f, x) == Char(img, f, x)
  {
    if Home(img, f) == 0 {
      Unseated(img, f);
      Unseated(new', f);
    }
  }

  /** A struct that stays in place, or stays absent, keeps its shape if its references do. */
  lemma ShapeFollows(img: Image, new': Image, f: Node)
    requires IsNode(f) && Trimmed(img, f) && (f.Entry? ==> Regular(img, f))
    requires SameInfo(img, new', f) && (Home(img, f) == 0 ==> Home(new', f) == 0)
    requires forall r: Ref {:trigger Target(new', r)} :: IsRef(r) && r.f == f ==> Target(new', r) == Target(img, r)
    ensures Trimmed(new', f) && (f.Entry? ==> Regular(new', f)) && Size(new', f) == Size(img, f)
      && Kind(new', f) == Kind(img, f)
  {
    ReadsSame(img, new', f);
  }

  lemma SameShape(img: Image, new': Image)
    requires Shaped(img) && SameTargets(img, new') && SameInfos(img, new')
    ensures Shaped(new')
  {
    assert SameInfo(img, new', Root);
    forall f: Node | IsNode(f) ensures Trimmed(new', f) && (f.Entry? ==> Regular(new', f)) {
      assert SameInfo(img, new', f);
      HomeFollows(img, new', f);
      ShapeFollows(img, new', f);
    }
  }

  lemma HomeFollows(img: Image, new': Image, f: Node)
    requires f.Entry? ==> Target(new', Slot(Root, f.i)) == Target(img, Slot(Root, f.i))
    ensures Home(new', f) == Home(img, f)
  {
    if f.Entry? {
      EntryHome(img, f);
      EntryHome(new', f);
    }
  }

  /** Changing a block that holds no struct File and no indirect table changes no metadata. */
  lemma ElsewhereKept(img: Image, new': Image, owner: map<nat, Ref>, loose: nat, b: nat)
    requires Owned(img, owner, loose) && OnlyBlock(img, new', b)
    requires b == 2 || (b == loose != 0) || (b in owner && owner[b].Slot? && owner[b].f.Entry?)
    ensures SameTargets(img, new') && SameInfos(img, new')
  {
    assert Open(0);
    HomesKept(img, new', b);
    forall f: Node | IsNode(f) ensures Home(img, f) != b && Target(img, Ind(f)) != b && SameInfo(img, new', f) {
      if f.Entry? { EntryHome(img, f); }
    }
  }

  // ---- the bitmap ----

  function MarkBit(img: Image, b: nat, on: bool): (new': Image)
    requires 3 <= |img| <= BLKBITS && b < |img|
    ensures OnlyBlock(img, new', 2)
    ensures forall c: nat :: c < |img| ==> Free(new', c) == if c == b then on else Free(img, c)
  {
    img[2 := SetBitAt(img[2], b, on)]
  }

  /** Taking a block away from the directory takes its entries with it, and moves no other reference. */
  lemma RootSlotCut(img: Image, owner: map<nat, Ref>, k: nat, s: Ref)
    requires Owned(img, owner, 0) && k < MAXBLOCKS && Target(img, Slot(Root, k)) != 0 && IsRef(s)
    ensures var b := RefHome(img, Slot(Root, k)); 0 < b < |img| && b != 2
    ensures Target(SetRef(img, Slot(Root, k), 0), s) ==
            if s == Slot(Root, k) || (s.f.Entry? && s.f.i == k) then 0 else Target(img, s)
  {
    TargetNeedsHome(img, Slot(Root, k));
    RefHomeKnown(img, owner, 0, Slot(Root, k));
    var cut, b := SetRef(img, Slot(Root, k), 0), RefHome(img, Slot(Root, k));
    assert DirSlot(cut, k) == 0 && (forall i: nat :: i != k ==> DirSlot(cut, i) == DirSlot(img, i)) by {
      assert Open(0);
    }
    if s.f.Entry? && s.f.i == k {
      EntryHome(cut, s.f);
      SlotIsDirSlot(cut, k);
      NothingUnseated(cut, s);
    } else if s.f.Entry? {
      assert b == 1 || b == Target(img, Ind(Root)) by { assert Open(0); }
      EntryUntouched(img, cut, owner, 0, b, s);
    } else {
      assert Open(0);
    }
  }

  /** Marking a bit moves no reference, as none is kept in the bitmap. */
  lemma BitMovesNothing(img: Image, owner: map<nat, Ref>, k: nat, b: nat, s: Ref)
    requires Owned(img, owner, 0) && k < MAXBLOCKS && Target(img, Slot(Root, k)) != 0 && IsRef(s) && b < |img|
    ensures 0 < RefHome(img, Slot(Root, k)) < |img|
    ensures var cut := SetRef(img, Slot(Root, k), 0); Target(MarkBit(cut, b, true), s) == Target(cut, s)
  {
    RootSlotCut(img, owner, k, s);
    RootSlotCut(img, owner, k, Ind(s.f));
    RootSlotCut(img, owner, k, Ind(Root));
    var cut := SetRef(img, Slot(Root, k), 0);
    if s.f.Entry? {
      EntryHome(cut, s.f);
      RootSlotCut(img, owner, k, Slot(Root, s.f.i));
    }
    HomesKept(cut, MarkBit(cut, b, true), 2);
  }

  /**
   * Truncating the root as a file frees a block of the directory and zeroes its slot. That keeps every block owned by
   * one reference exactly when none of the sixteen structs in the block names anything: otherwise their blocks are
   * lost, in use and named by nobody.
   */
  lemma DirectoryCut(img: Image, owner: map<nat, Ref>, k: nat)
    requires Owned(img, owner, 0) && k < MAXBLOCKS && Target(img, Slot(Root, k)) != 0
    ensures var b := Target(img, Slot(Root, k)); 3 <= b < |img| && 0 < RefHome(img, Slot(Root, k)) < |img|
    ensures var b := Target(img, Slot(Root, k));
            Ownable(MarkBit(SetRef(img, Slot(Root, k), 0), b, true)) <==> Pointerless(img[b])
  {
    var b := Target(img, Slot(Root, k));
    RootSlotCut(img, owner, k, Slot(Root, k));
    SlotIsDirSlot(img, k);
    var cut := SetRef(img, Slot(Root, k), 0);
    var new' := MarkBit(cut, b, true);
    forall s: Ref | IsRef(s)
      ensures Target(new', s) == if s == Slot(Root, k) || (s.f.Entry? && s.f.i == k) then 0 else Target(img, s)
    {
      RootSlotCut(img, owner, k, s);
      BitMovesNothing(img, owner, k, b, s);
    }
    forall c: nat | c < |img| ensures Free(new', c) == (c == b || Free(img, c)) {}
    if Pointerless(img[b]) {
      forall s: Ref | IsRef(s) && s.f.Entry? && s.f.i == k ensures Target(img, s) == 0 {
        NamesNothing(img, k, s);
      }
      assert Owned(new', owner - {b}, 0);
    } else {
      var j: nat, x: nat :| j < BLKFILES && DIRECT <= x <= INDIRECT && PointerWord(img[b], j, x) != 0;
      PointerRead(img, img, b, k, j, x);
      var s := if x == INDIRECT then Ind(Entry(k, j)) else Slot(Entry(k, j), x - DIRECT);
      assert owner[Target(img, s)] == s && !Free(new', Target(img, s));
      forall owner' : map<nat, Ref> ensures !Owned(new', owner', 0) {}
    }
  }

  lemma NamesNothing(img: Image, k: nat, s: Ref)
    requires IsRef(s) && s.f.Entry? && s.f.i == k && 0 < DirSlot(img, k) < |img| && Pointerless(img[DirSlot(img, k)])
    ensures Target(img, s) == 0
  {
    assert Open(0);
    if s.Slot? && s.k < NDIRECT { assert PointerWord(img[DirSlot(img, k)], s.f.j, DIRECT + s.k) == 0; }
    assert PointerWord(img[DirSlot(img, k)], s.f.j, INDIRECT) == 0;
  }

  lemma SoundAlloc(img: Image, owner: map<nat, Ref>, b: nat)
    requires Sound(img, owner, 0) && b < |img| && Free(img, b)
    ensures var new' := MarkBit(img, b, false);
            Sound(new', owner, b) && SameTargets(img, new') && SameInfos(img, new') && SameData(img, new')
  {
    var new' := MarkBit(img, b, false);
    ElsewhereKept(img, new', owner, 0, 2);
    SameShape(img, new');
  }

  /** Everything already mapped stays: references that name a block, data, sizes, types and names. */
  ghost predicate Kept(img: Image, new': Image) {
    && SameInfos(img, new') && SameData(img, new')
    && forall r: Ref {:trigger Target(new', r)} :: IsRef(r) && Target(img, r) != 0 ==> Target(new', r) == Target(img, r)
  }

  lemma KeptTwice(a: Image, b: Image, c: Image)
    requires Kept(a, b) && Kept(b, c)
    ensures Kept(a, c)
  {
    forall f: Node | IsNode(f) ensures SameInfo(a, c, f) {
      assert SameInfo(a, b, f) && SameInfo(b, c, f);
    }
    forall f: Node, k: nat {:trigger Target(a, Slot(f, k))} | IsRef(Slot(f, k)) && f.Entry?
      && 0 < Target(a, Slot(f, k)) < |a|
      ensures c[Target(a, Slot(f, k))] == a[Target(a, Slot(f, k))]
    {
      assert Target(b, Slot(f, k)) == Target(a, Slot(f, k));
    }
  }

  // ---- giving a block to a file, and taking it back ----

  lemma OwnedDetach(img: Image, new': Image, owner: map<nat, Ref>, r: Ref)
    requires Owned(img, owner, 0) && IsRef(r) && Target(img, r) != 0
    requires |new'| == |img| && new'[2] == img[2] && SameExcept(img, new', r) && Target(new', r) == 0
    ensures Owned(new', owner - {Target(img, r)}, Target(img, r))
  {
    forall c: nat | c < |img| ensures Free(new', c) == Free(img, c) {}
  }

  /** Struct j is a regular file or an unused entry. */
  ghost predicate DecentStruct(b: Block, j: nat)
    requires j < BLKFILES
  {
    && PointerWord(b, j, SIZE) < OFF_MAX && PointerWord(b, j, TYPE) == 0
    && b[256 * j + 127] == 0 && (b[256 * j] == 0 ==> PointerWord(b, j, SIZE) == 0)
  }

  /** Sixteen structs fit for the directory: they name nothing, and each is a regular file or an unused entry. */
  ghost predicate Decent(b: Block) { Pointerless(b) && forall j: nat :: j < BLKFILES ==> DecentStruct(b, j) }

  /** Sixteen unused entries. */
  ghost predicate Vacant(b: Block) {
    Decent(b) && forall j: nat {:trigger DecentStruct(b, j)} :: j < BLKFILES ==> b[256 * j] == 0
  }

  lemma EmptyVacant(b: Block)
    requires Empty(b)
    ensures Vacant(b)
  {
  }

  /** The structs of a directory block, read where they stand. */
  lemma StructReads(img: Image, f: Node, b: nat)
    requires IsNode(f) && f.Entry? && Target(img, Slot(Root, f.i)) == b && 0 < b < |img|
    ensures Home(img, f) == b && Size(img, f) == PointerWord(img[b], f.j, SIZE)
      && Kind(img, f) == PointerWord(img[b], f.j, TYPE)
    ensures Char(img, f, 0) == img[b][256 * f.j] && Char(img, f, 127) == img[b][256 * f.j + 127]
  {
    assert Open(0);
    EntryHome(img, f);
  }

  lemma DecentShaped(img: Image, f: Node, b: nat)
    requires IsNode(f) && f.Entry? && Target(img, Slot(Root, f.i)) == b && 0 < b < |img| && Decent(img[b])
    requires forall r: Ref :: IsRef(r) && r.f == f ==> Target(img, r) == 0
    ensures Trimmed(img, f) && Regular(img, f)
  {
    StructReads(img, f, b);
    assert DecentStruct(img[b], f.j);
  }

  lemma SoundInstall(img: Image, owner: map<nat, Ref>, b: nat, r: Ref)
    requires Sound(img, owner, b) && b != 0 && Settable(img, b, r, b) && Target(img, r) == 0
    requires r.Slot? ==> BLKSIZE * r.k < Size(img, r.f)
    requires r.Ind? ==> BLKSIZE * NDIRECT < Size(img, r.f)
    requires r.f.Root? && r.Slot? ==> Decent(img[b])
    ensures RefHome(img, r) < |img| && RefWord(r) < BLKWORDS
    ensures var new' := SetRef(img, r, b);
            Sound(new', owner[b := r], 0) && Kept(img, new') && SameExcept(img, new', r) && Target(new', r) == b
  {
    RefHomeKnown(img, owner, b, r);
    SetRefTargets(img, owner, b, r, b);
    SetRefInfo(img, owner, b, r, b);
    SetRefData(img, owner, b, r, b);
    var new' := SetRef(img, r, b);
    OwnedInstall(img, new', owner, b, r);
    ShapeExcept(img, new', r);
  }

  lemma ShapeExcept(img: Image, new': Image, r: Ref)
    requires Shaped(img) && SameExcept(img, new', r) && SameInfos(img, new') && IsRef(r) && 0 < Target(new', r) < |new'|
    requires r.Slot? ==> BLKSIZE * r.k < Size(img, r.f)
    requires r.Ind? ==> BLKSIZE * NDIRECT < Size(img, r.f)
    requires Target(img, r) == 0 && (r.f.Root? && r.Slot? ==> Decent(new'[Target(new', r)]))
    ensures Shaped(new')
  {
    assert SameInfo(img, new', Root);
    forall f: Node | IsNode(f) ensures Trimmed(new', f) && (f.Entry? ==> Regular(new', f)) {
      assert SameInfo(img, new', f);
      ShapeGrows(img, new', r, f);
    }
  }

  lemma ShapeGrows(img: Image, new': Image, r: Ref, f: Node)
    requires IsNode(f) && Trimmed(img, f) && (f.Entry? ==> Regular(img, f)) && SameInfo(img, new', f)
    requires SameExcept(img, new', r) && IsRef(r) && 0 < Target(new', r) < |new'| && Target(img, r) == 0
    requires r.f == f && r.Slot? ==> BLKSIZE * r.k < Size(img, f)
    requires r.f == f && r.Ind? ==> BLKSIZE * NDIRECT < Size(img, f)
    requires r.f.Root? && r.Slot? ==> Decent(new'[Target(new', r)])
    ensures Trimmed(new', f) && (f.Entry? ==> Regular(new', f))
  {
    if f.Entry? && r == Slot(Root, f.i) {
      EntryHome(img, f);
      forall s: Ref | IsRef(s) && s.f == f ensures Target(new', s) == 0 { NothingUnseated(img, s); }
      DecentShaped(new', f, Target(new', r));
    } else {
      HomeFollows(img, new', f);
      ReadsSame(img, new', f);
    }
  }

  /**
   * The directory's slot k, within its size, can take block v and keep the whole invariant exactly when v holds sixteen
   * decent structs.
   */
  lemma GrowsExactly(img: Image, owner: map<nat, Ref>, v: nat, k: nat)
    requires Sound(img, owner, v) && 3 <= v < |img| && k < MAXBLOCKS && BLKSIZE * k < Size(img, Root)
    requires Target(img, Slot(Root, k)) == 0 && RefHome(img, Slot(Root, k)) != 0
    ensures RefHome(img, Slot(Root, k)) < |img|
    ensures (exists owner' : map<nat, Ref> :: Sound(SetRef(img, Slot(Root, k), v), owner', 0)) <==> Decent(img[v])
  {
    StaleDirectory(img, owner, v, k);
    RootSlots(img, owner, v, k);
    var new' := SetRef(img, Slot(Root, k), v);
    if Decent(img[v]) {
      SoundInstall(img, owner, v, Slot(Root, k));
    } else if Pointerless(img[v]) {
      var j: nat :| j < BLKFILES && !DecentStruct(img[v], j);
      StructReads(new', Entry(k, j), v);
      assert !Shaped(new') by {
        assert IsNode(Entry(k, j)) && !(Trimmed(new', Entry(k, j)) && Regular(new', Entry(k, j)));
      }
    }
  }

  /** Clearing a reference leaves its block marked in use and unnamed. */
  lemma SoundDetach(img: Image, owner: map<nat, Ref>, r: Ref)
    requires Sound(img, owner, 0) && IsRef(r) && r.f.Entry? && Target(img, r) != 0
    requires r.Ind? ==> NoIndirects(img, r.f)
    ensures 3 <= Target(img, r) < |img|
    ensures 0 < RefHome(img, r) < |img| && RefWord(r) < BLKWORDS
    ensures var new' := SetRef(img, r, 0);
            && Sound(new', owner - {Target(img, r)}, Target(img, r)) && Target(new', r) == 0
            && SameExcept(img, new', r) && SameInfos(img, new') && SameData(img, new')
  {
    TargetNeedsHome(img, r);
    RefHomeKnown(img, owner, 0, r);
    SetRefTargets(img, owner, 0, r, 0);
    SetRefInfo(img, owner, 0, r, 0);
    SetRefData(img, owner, 0, r, 0);
    var new' := SetRef(img, r, 0);
    OwnedDetach(img, new', owner, r);
    ShapeWithout(img, new', r);
  }

  lemma ShapeWithout(img: Image, new': Image, r: Ref)
    requires Shaped(img) && SameExcept(img, new', r) && SameInfos(img, new') && IsRef(r) && Target(new', r) == 0
      && r.f.Entry?
    ensures Shaped(new')
  {
    assert SameInfo(img, new', Root);
    forall f: Node | IsNode(f) ensures Trimmed(new', f) && (f.Entry? ==> Regular(new', f)) {
      assert SameInfo(img, new', f);
      HomeFollows(img, new', f);
      ReadsSame(img, new', f);
    }
  }

  lemma SoundFree(img: Image, owner: map<nat, Ref>, b: nat)
    requires Sound(img, owner, b) && b != 0
    ensures var new' := MarkBit(img, b, true);
            Sound(new', owner, 0) && SameTargets(img, new') && SameInfos(img, new') && SameData(img, new')
  {
    var new' := MarkBit(img, b, true);
    ElsewhereKept(img, new', owner, b, 2);
    SameShape(img, new');
  }

  /** free_block and clearing the slot that named the block, in the code's order. */
  lemma SoundRelease(img: Image, owner: map<nat, Ref>, r: Ref)
    requires Sound(img, owner, 0) && IsRef(r) && r.f.Entry? && Target(img, r) != 0
    requires r.Ind? ==> NoIndirects(img, r.f)
    ensures 3 <= Target(img, r) < |img| && 0 < RefHome(img, r) < |img| && RefWord(r) < BLKWORDS
    ensures var mid := MarkBit(img, Target(img, r), true);
            && RefHome(mid, r) == RefHome(img, r) && RefHome(img, r) != 2 && !Free(mid, RefHome(img, r))
            && var new' := Poke(mid, RefHome(img, r), RefWord(r), 0);
               && Sound(new', owner - {Target(img, r)}, 0) && Target(new', r) == 0 && SameExcept(img, new', r)
               && SameInfos(img, new') && SameData(img, new')
  {
    var b := Target(img, r);
    SoundDetach(img, owner, r);
    RefHomeKnown(img, owner, 0, r);
    var mid, cut := MarkBit(img, b, true), SetRef(img, r, 0);
    ElsewhereKept(img, mid, owner, 0, 2);
    SoundFree(cut, owner - {b}, b);
    assert MarkBit(cut, b, true) == Poke(mid, RefHome(img, r), RefWord(r), 0);
    RefHomeSame(img, mid, r);
    NotAtHome(img, owner, r);
    InfosTwice(img, cut, MarkBit(cut, b, true));
    DataAfter(img, owner, r);
  }

  /** A reference does not name the block it is stored in. */
  lemma NotAtHome(img: Image, owner: map<nat, Ref>, r: Ref)
    requires Owned(img, owner, 0) && IsRef(r) && Target(img, r) != 0 && RefHome(img, r) != 0
    ensures RefHome(img, r) != Target(img, r) && !Free(img, RefHome(img, r))
  {
    RefHomeKnown(img, owner, 0, r);
    if r.f.Entry? { EntryHome(img, r.f); }
  }

  lemma RefHomeSame(img: Image, new': Image, r: Ref)
    requires IsRef(r) && SameTargets(img, new')
    ensures RefHome(new', r) == RefHome(img, r)
  {
    if r.f.Entry? {
      EntryHome(img, r.f);
      EntryHome(new', r.f);
    }
  }

  lemma InfosTwice(a: Image, b: Image, c: Image)
    requires SameInfos(a, b) && SameInfos(b, c)
    ensures SameInfos(a, c)
  {
    forall f: Node | IsNode(f) ensures SameInfo(a, c, f) {
      assert SameInfo(a, b, f) && SameInfo(b, c, f);
    }
  }

  lemma DataAfter(img: Image, owner: map<nat, Ref>, r: Ref)
    requires Owned(img, owner, 0) && IsRef(r) && Target(img, r) != 0 && 0 < RefHome(img, r) < |img|
      && RefWord(r) < BLKWORDS
    ensures Target(img, r) < |img| && SameData(img, MarkBit(SetRef(img, r, 0), Target(img, r), true))
  {
    SetRefData(img, owner, 0, r, 0);
  }

  // ---- data, sizes and names ----

  /** Rewriting a data block, or the block just taken from the bitmap. */
  lemma SoundContents(img: Image, owner: map<nat, Ref>, loose: nat, b: nat, c: Block)
    requires Sound(img, owner, loose)
    requires (b == loose != 0) || (b in owner && owner[b].Slot? && owner[b].f.Entry?)
    ensures b < |img| && Sound(img[b := c], owner, loose)
    ensures SameTargets(img, img[b := c]) && SameInfos(img, img[b := c])
  {
    var new' := img[b := c];
    ElsewhereKept(img, new', owner, loose, b);
    SameShape(img, new');
    assert new'[2] == img[2];
    OwnedSame(img, new', owner, loose);
  }

  lemma OwnedSame(img: Image, new': Image, owner: map<nat, Ref>, loose: nat)
    requires Owned(img, owner, loose) && SameTargets(img, new') && |new'| == |img| && new'[2] == img[2]
    ensures Owned(new', owner, loose)
  {
    forall c: nat | c < |img| ensures Free(new', c) == Free(img, c) {}
  }

  /** Only the name, size and type of f change: its first 34 words. */
  ghost predicate OnlyInfo(img: Image, new': Image, f: Node) {
    && 0 < Home(img, f) < |img| && OnlyBlock(img, new', Home(img, f))
    && (forall i: nat {:trigger W(new', Home(img, f), i)} ::
          i < Base(f) || Base(f) + DIRECT <= i ==> W(new', Home(img, f), i) == W(img, Home(img, f), i))
    && (forall x {:trigger new'[Home(img, f)][x]} ::
          0 <= x < BLKSIZE && (x < 4 * Base(f) || 4 * (Base(f) + DIRECT) <= x) ==>
            new'[Home(img, f)][x] == img[Home(img, f)][x])
  }

  ghost predicate SameOtherInfos(img: Image, new': Image, f: Node) {
    forall g: Node :: IsNode(g) && g != f ==> SameInfo(img, new', g)
  }

  lemma EntryInfo(img: Image, new': Image, owner: map<nat, Ref>, loose: nat, f: Node)
    requires Owned(img, owner, loose) && IsNode(f) && f.Entry? && OnlyInfo(img, new', f)
    ensures SameTargets(img, new') && SameData(img, new') && SameOtherInfos(img, new', f)
    ensures Home(new', f) == Home(img, f) && new'[2] == img[2]
  {
    EntryHome(img, f);
    Distinct(img, owner, loose, Slot(Root, f.i), Ind(Root));
    forall g: Node | IsNode(g) && g != f ensures SameInfo(img, new', g) {
      EntryInfoOf(img, new', owner, loose, f, g);
    }
    forall r: Ref | IsRef(r) ensures Target(new', r) == Target(img, r) {
      EntryInfoRef(img, new', owner, loose, f, r);
    }
    EntryInfoOf(img, new', owner, loose, f, f);
  }

  lemma EntryInfoOf(img: Image, new': Image, owner: map<nat, Ref>, loose: nat, f: Node, g: Node)
    requires Owned(img, owner, loose) && IsNode(f) && f.Entry? && OnlyInfo(img, new', f) && IsNode(g)
    ensures Home(new', g) == Home(img, g) && (g != f ==> SameInfo(img, new', g))
    ensures forall x: nat :: DIRECT <= x < 64 ==> Field(new', g, x) == Field(img, g, x)
  {
    assert Open(0);
    EntryHome(img, f);
    Distinct(img, owner, loose, Slot(Root, f.i), Ind(Root));
    HomesKept(img, new', Home(img, f));
    if g.Entry? { EntryHome(img, g); }
  }

  lemma EntryInfoRef(img: Image, new': Image, owner: map<nat, Ref>, loose: nat, f: Node, r: Ref)
    requires Owned(img, owner, loose) && IsNode(f) && f.Entry? && OnlyInfo(img, new', f) && IsRef(r)
    ensures Target(new', r) == Target(img, r)
  {
    assert Open(0);
    EntryHome(img, f);
    EntryInfoOf(img, new', owner, loose, f, r.f);
    Distinct(img, owner, loose, Slot(Root, f.i), Ind(r.f));
    TargetFollows(img, new', r);
  }

  lemma RootInfo(img: Image, new': Image, owner: map<nat, Ref>, loose: nat)
    requires Owned(img, owner, loose) && OnlyInfo(img, new', Root)
    ensures SameTargets(img, new') && SameData(img, new') && SameOtherInfos(img, new', Root) && new'[2] == img[2]
  {
    assert Open(0);
    var b := Target(img, Ind(Root));
    assert b == 0 || 3 <= b;
    assert forall i: nat :: DirSlot(new', i) == DirSlot(img, i);
    forall r: Ref | IsRef(r) ensures Target(new', r) == Target(img, r) {
      if r.f.Root? {
        if r.Slot? { assert DirSlot(new', r.k) == DirSlot(img, r.k); }
      } else {
        EntryUntouched(img, new', owner, loose, 1, r);
      }
    }
    forall g: Node | IsNode(g) && g.Entry? ensures SameInfo(img, new', g) {
      EntryHome(img, g);
    }
  }

  lemma InfoKept(img: Image, new': Image, owner: map<nat, Ref>, loose: nat, f: Node)
    requires Owned(img, owner, loose) && IsNode(f) && OnlyInfo(img, new', f)
    ensures SameTargets(img, new') && SameData(img, new') && SameOtherInfos(img, new', f) && Owned(new', owner, loose)
    ensures Home(new', f) == Home(img, f)
  {
    if f.Root? { RootInfo(img, new', owner, loose); } else { EntryInfo(img, new', owner, loose, f); }
    OwnedSame(img, new', owner, loose);
  }

  ghost function SetSize(img: Image, f: Node, w: nat): Image
    requires 0 < Home(img, f) < |img| && IsNode(f) && w < WORD
  {
    Poke(img, Home(img, f), Base(f) + SIZE, w)
  }

  lemma SetSizeEffect(img: Image, owner: map<nat, Ref>, loose: nat, f: Node, w: nat)
    requires Owned(img, owner, loose) && IsNode(f) && 0 < Home(img, f) < |img| && w < WORD
    ensures var new' := SetSize(img, f, w);
            && SameTargets(img, new') && SameData(img, new') && SameOtherInfos(img, new', f)
            && Owned(new', owner, loose)
            && Size(new', f) == w && Kind(new', f) == Kind(img, f)
            && (forall x: nat :: x < 128 ==> Char(new', f, x) == Char(img, f, x))
  {
    assert Open(0);
    InfoKept(img, SetSize(img, f, w), owner, loose, f);
  }

  /** A size the file's present slots allow. */
  ghost predicate Fits(img: Image, f: Node, w: nat) {
    && w < OFF_MAX
    && (forall k: nat :: k < MAXBLOCKS && w <= BLKSIZE * k ==> Target(img, Slot(f, k)) == 0)
    && (w <= BLKSIZE * (NDIRECT - 1) ==> Target(img, Ind(f)) == 0)
  }

  lemma SoundSize(img: Image, owner: map<nat, Ref>, f: Node, w: nat)
    requires Sound(img, owner, 0) && IsNode(f) && f.Entry? && Char(img, f, 0) != 0 && Fits(img, f, w)
    ensures 0 < Home(img, f) < |img| && Sound(SetSize(img, f, w), owner, 0)
  {
    if Home(img, f) == 0 { Unseated(img, f); }
    EntryHome(img, f);
    SetSizeEffect(img, owner, 0, f, w);
    var new' := SetSize(img, f, w);
    assert SameInfo(img, new', Root);
    forall g: Node | IsNode(g) ensures Trimmed(new', g) && (g.Entry? ==> Regular(new', g)) {
      if g != f {
        assert SameInfo(img, new', g);
        HomeFollows(img, new', g);
        ShapeFollows(img, new', g);
      }
    }
  }

  /** The directory can grow by a block when all its present blocks are there. */
  ghost predicate DirComplete(img: Image) {
    && Size(img, Root) <= BLKSIZE * MAXBLOCKS
    && forall i: nat :: i < MAXBLOCKS && BLKSIZE * i < Size(img, Root) ==> Target(img, Slot(Root, i)) != 0
  }

  lemma GrownDirectory(img: Image, new': Image)
    requires Directory(img) && Trimmed(img, Root) && DirComplete(img) && SameTargets(img, new')
    requires Kind(new', Root) == Kind(img, Root) && Size(new', Root) == Size(img, Root) + BLKSIZE
    ensures Directory(new') && Trimmed(new', Root)
  {
    var s := Size(img, Root);
    assert (s + BLKSIZE) % BLKSIZE == s % BLKSIZE;
  }

  lemma SoundGrowth(img: Image, owner: map<nat, Ref>)
    requires Sound(img, owner, 0) && DirComplete(img)
    ensures Sound(SetSize(img, Root, Size(img, Root) + BLKSIZE), owner, 0)
  {
    var w := Size(img, Root) + BLKSIZE;
    var new' := SetSize(img, Root, w);
    SetSizeEffect(img, owner, 0, Root, w);
    GrownDirectory(img, new');
    forall g: Node | IsNode(g) && g.Entry? ensures Trimmed(new', g) && Regular(new', g) {
      assert SameInfo(img, new', g);
      HomeFollows(img, new', g);
      ShapeFollows(img, new', g);
    }
  }

  // ---- names ----

  predicate Text(s: seq<byte>) { forall i :: 0 <= i < |s| ==> s[i] != 0 }

  /** The C string starting at offset o of a block. */
  function CString(b: Block, o: nat): seq<byte>
    decreases BLKSIZE - o
  {
    if o >= BLKSIZE || b[o] == 0 then [] else [b[o]] + CString(b, o + 1)
  }

  lemma {:induction false} CStringIs(b: Block, o: nat, s: seq<byte>)
    requires Text(s) && o + |s| < BLKSIZE && b[o + |s|] == 0 && forall i :: 0 <= i < |s| ==> b[o + i] == s[i]
    ensures CString(b, o) == s
    decreases |s|
  {
    if s != [] {
      assert b[o] == s[0];
      CStringIs(b, o + 1, s[1..]);
    }
  }

  /** Strings that end within their field do not depend on what follows it. */
  lemma {:induction false} CStringSame(b: Block, c: Block, o: nat, hi: nat)
    requires o <= hi < BLKSIZE && b[hi] == 0 && forall i :: o <= i <= hi ==> c[i] == b[i]
    ensures CString(c, o) == CString(b, o)
    decreases hi - o
  {
    if b[o] != 0 { CStringSame(b, c, o + 1, hi); }
  }

  /** The name in struct f: what strcmp reads. */
  ghost function Name(img: Image, f: Node): seq<byte> {
    if Home(img, f) == 0 || Home(img, f) >= |img| then [] else CString(img[Home(img, f)], 4 * Base(f))
  }

  lemma SameName(img: Image, new': Image, f: Node)
    requires IsNode(f) && f.Entry? && SameInfo(img, new', f) && Char(img, f, 127) == 0
    requires Home(new', f) == Home(img, f) && |new'| == |img|
    ensures Name(new', f) == Name(img, f)
  {
    var h := Home(img, f);
    if 0 < h < |img| {
      forall i | 4 * Base(f) <= i <= 4 * Base(f) + 127 ensures new'[h][i] == img[h][i] {
        CharIs(img, f, i - 4 * Base(f));
        CharIs(new', f, i - 4 * Base(f));
        assert Char(new', f, i - 4 * Base(f)) == Char(img, f, i - 4 * Base(f));
      }
      CharIs(img, f, 127);
      CStringSame(img[h], new'[h], 4 * Base(f), 4 * Base(f) + 127);
    }
  }

  /** strcpy into f_name. */
  ghost function SetName(img: Image, f: Node, name: seq<byte>): Image
    requires 0 < Home(img, f) < |img| && IsNode(f) && |name| < 128
  {
    img[Home(img, f) := Splice(img[Home(img, f)], 4 * Base(f), name + [0])]
  }

  lemma SetNameEffect(img: Image, owner: map<nat, Ref>, loose: nat, f: Node, name: seq<byte>)
    requires Owned(img, owner, loose) && IsNode(f) && f.Entry? && 0 < Home(img, f) < |img| && Text(name) && |name| < 128
    ensures var new' := SetName(img, f, name);
            && SameTargets(img, new') && SameData(img, new') && SameOtherInfos(img, new', f)
            && Owned(new', owner, loose)
            && Size(new', f) == Size(img, f) && Kind(new', f) == Kind(img, f) && Home(new', f) == Home(img, f)
  {
    assert Open(0);
    InfoKept(img, SetName(img, f, name), owner, loose, f);
  }

  lemma SetNameReads(img: Image, f: Node, name: seq<byte>)
    requires IsNode(f) && f.Entry? && 0 < Home(img, f) < |img| && Char(img, f, 127) == 0 && Text(name)
      && 0 < |name| < 128
    requires Home(SetName(img, f, name), f) == Home(img, f)
    ensures var new' := SetName(img, f, name); Name(new', f) == name && Char(new', f, 0) != 0 && Char(new', f, 127) == 0
  {
    var new' := SetName(img, f, name);
    CStringIs(new'[Home(img, f)], 4 * Base(f), name);
    CharIs(img, f, 127);
    CharIs(new', f, 127);
    CharIs(new', f, 0);
  }

  lemma SoundName(img: Image, owner: map<nat, Ref>, f: Node, name: seq<byte>)
    requires Sound(img, owner, 0) && IsNode(f) && f.Entry? && 0 < Home(img, f) < |img| && Text(name) && 0 < |name| < 128
    ensures var new' := SetName(img, f, name); Sound(new', owner, 0) && Name(new', f) == name
  {
    var new' := SetName(img, f, name);
    SetNameEffect(img, owner, 0, f, name);
    SetNameReads(img, f, name);
    assert SameInfo(img, new', Root);
    forall g: Node | IsNode(g) ensures Trimmed(new', g) && (g.Entry? ==> Regular(new', g)) {
      if g != f {
        assert SameInfo(img, new', g);
        HomeFollows(img, new', g);
        ShapeFollows(img, new', g);
      }
    }
  }

  // ---- pointers to struct File ----

  /** The address of a struct File: its block and first word. */
  datatype Ptr = Ptr(blk: nat, base: nat)

  ghost predicate At(img: Image, p: Ptr, f: Node) {
    IsNode(f) && Home(img, f) != 0 && p == Ptr(Home(img, f), Base(f))
  }

  lemma AtKept(img: Image, new': Image, p: Ptr, f: Node)
    requires At(img, p, f) && Kept(img, new')
    ensures At(new', p, f)
  {
    if f.Entry? {
      EntryHome(img, f);
      EntryHome(new', f);
    }
  }

  /** The blocks that hold structs and references are real and in use. */
  lemma HomeInUse(img: Image, owner: map<nat, Ref>, loose: nat, r: Ref)
    requires Owned(img, owner, loose) && IsRef(r) && RefHome(img, r) != 0
    ensures 0 < RefHome(img, r) < |img| && RefHome(img, r) != 2 && RefHome(img, r) != loose && RefWord(r) < BLKWORDS
    ensures !Free(img, RefHome(img, r))
  {
    RefHomeKnown(img, owner, loose, r);
  }

  /** The blocks of f itself keep their contents. */
  ghost predicate SameOwn(img: Image, new': Image, f: Node) {
    && |new'| == |img|
    && forall k: nat {:trigger Target(img, Slot(f, k))} :: k < MAXBLOCKS && 0 < Target(img, Slot(f, k)) < |img| ==>
         new'[Target(img, Slot(f, k))] == img[Target(img, Slot(f, k))]
  }

  /** A file's struct is in none of the blocks the file names. */
  lemma HomeNotOwn(img: Image, owner: map<nat, Ref>, loose: nat, f: Node, k: nat)
    requires Owned(img, owner, loose) && IsNode(f) && k < MAXBLOCKS && Target(img, Slot(f, k)) != 0
    ensures Target(img, Slot(f, k)) != Home(img, f) && Target(img, Slot(f, k)) != loose
  {
    if f.Entry? { EntryHome(img, f); }
  }

  /** Writing one of f's references touches none of the blocks f names. */
  lemma OwnKept(img: Image, owner: map<nat, Ref>, loose: nat, r: Ref, v: nat)
    requires Owned(img, owner, loose) && IsRef(r) && RefHome(img, r) != 0 && v < WORD
    ensures RefHome(img, r) < |img| && RefWord(r) < BLKWORDS && SameOwn(img, SetRef(img, r, v), r.f)
  {
    RefHomeKnown(img, owner, loose, r);
    forall k: nat | k < MAXBLOCKS && Target(img, Slot(r.f, k)) != 0
      ensures Target(img, Slot(r.f, k)) != RefHome(img, r)
    {
      HomeNotOwn(img, owner, loose, r.f, k);
    }
  }

  /** file_block_walk's new indirect block: pointer stored first, block cleared after. */
  lemma IndirectGrown(img: Image, owner: map<nat, Ref>, b: nat, f: Node)
    requires Sound(img, owner, b) && b != 0 && IsNode(f) && Home(img, f) != 0
    requires Target(img, Ind(f)) == 0 && BLKSIZE * NDIRECT < Size(img, f)
    ensures 0 < Home(img, f) < |img| && Home(img, f) != b
    ensures var new' := SetRef(img, Ind(f), b)[b := Zeros()];
            && Sound(new', owner[b := Ind(f)], 0) && Kept(img, new') && SameExcept(img, new', Ind(f))
            && Target(new', Ind(f)) == b && new'[2] == img[2] && SameOwn(img, new', f)
  {
    forall k: nat | k < MAXBLOCKS && Target(img, Slot(f, k)) != 0
      ensures Target(img, Slot(f, k)) != Home(img, f) && Target(img, Slot(f, k)) != b
    {
      HomeNotOwn(img, owner, b, f, k);
    }
    RefHomeKnown(img, owner, b, Ind(f));
    var mid := img[b := Zeros()];
    SoundContents(img, owner, b, b, Zeros());
    ZerosEmpty();
    RefHomeSame(img, mid, Ind(f));
    NoTable(mid, f);
    assert SameInfo(img, mid, f);
    SoundInstall(mid, owner, b, Ind(f));
    assert SetRef(img, Ind(f), b)[b := Zeros()] == SetRef(mid, Ind(f), b);
    KeptTwice(img, mid, SetRef(mid, Ind(f), b));
  }
}
