/**
 Physical frames, the two-level tables stored in them, and the references those
 tables hold.  A `Space` is all of physical memory seen as words, together with
 the page directory of every environment slot and the kernel's own directory.
 Tables live in the same memory that user pages live in.
 */
module Paging {
  import opened Base

  const NENV := 1024
  const NPT := 1024      // NPDENTRIES and NPTENTRIES
  const UTOPX := 955     // PDX(UTOP)
  const UVPTX := 957     // PDX(UVPT)
  const MAXREF := 65535  // pp_ref is a uint16_t

  type Frame = nat

  /** A 32-bit table word: the address field PTE_ADDR (as a frame number) and the low 12 bits. */
  datatype Entry = Entry(frame: Frame, flags: nat)

  const ZERO := Entry(0, 0)

  predicate Present(w: Entry) { w.flags % 2 == 1 }

  predicate Writable(w: Entry) { (w.flags / 2) % 2 == 1 }

  /** `perm | PTE_P` */
  function OrP(perm: nat): (r: nat)
    ensures r % 2 == 1 && perm <= r <= perm + 1 && r / 2 == perm / 2
  {
    perm + 1 - perm % 2
  }

  datatype Space = Space(mem: seq<seq<Entry>>, pgdir: seq<Option<Frame>>, kdir: Frame)

  /** Owner numbers: environment slots are 0..NENV, and NENV itself is the kernel (kern_pgdir). */
  const KERN := NENV

  /** The things that can hold a counted reference to a frame. */
  datatype Ref = Dir(e: nat) | Tab(o: nat, d: nat) | Page(o: nat, d: nat, t: nat)

  ghost predicate Shape(s: Space) {
    && |s.pgdir| == NENV
    && s.kdir < |s.mem|
    && forall f :: 0 <= f < |s.mem| ==> |s.mem[f]| == NPT
  }

  function DirOf(s: Space, o: nat): Option<Frame> {
    if o < |s.pgdir| then s.pgdir[o] else if o == KERN then Some(s.kdir) else None
  }

  /** The directory entries an owner uses for its own tables: below UTOP for an
      environment, above UTOP except the self map for the kernel. */
  predicate OwnPdx(o: nat, d: nat) {
    if o < NENV then d < UTOPX else o == KERN && UTOPX <= d < NPT && d != UVPTX
  }

  function TabAt(s: Space, o: nat, d: nat): Option<Frame> {
    match DirOf(s, o)
    case None => None
    case Some(f) =>
      if OwnPdx(o, d) && f < |s.mem| && d < |s.mem[f]| && Present(s.mem[f][d])
      then Some(s.mem[f][d].frame) else None
  }

  /** The flat map: what virtual page (d, t) of owner o translates to. */
  function PteAt(s: Space, o: nat, d: nat, t: nat): Option<Entry> {
    match TabAt(s, o, d)
    case None => None
    case Some(f) =>
      if f < |s.mem| && t < |s.mem[f]| && Present(s.mem[f][t]) then Some(s.mem[f][t]) else None
  }

  function Target(s: Space, r: Ref): Option<Frame> {
    match r
    case Dir(e) => if e < NENV then DirOf(s, e) else None
    case Tab(o, d) => TabAt(s, o, d)
    case Page(o, d, t) =>
      if o < NENV && PteAt(s, o, d, t).Some? then Some(PteAt(s, o, d, t).value.frame) else None
  }

  predicate Structural(r: Ref) { !r.Page? }

  ghost function AllRefs(): set<Ref> {
    (set e: nat | 0 <= e < NENV :: Dir(e))
    + (set o: nat, d: nat | 0 <= o <= NENV && 0 <= d < NPT :: Tab(o, d))
    + (set o: nat, d: nat, t: nat | 0 <= o < NENV && 0 <= d < NPT && 0 <= t < NPT :: Page(o, d, t))
  }

  lemma TargetInAllRefs(s: Space, r: Ref)
    requires Shape(s) && Target(s, r).Some?
    ensures r in AllRefs()
  {
    match r
    case Dir(e) =>
    case Tab(o, d) =>
    case Page(o, d, t) =>
  }

  ghost predicate AreRefs(s: Space, f: Frame, S: set<Ref>) {
    forall r :: r in S <==> Target(s, r) == Some(f)
  }

  lemma RefsExist(s: Space, f: Frame)
    requires Shape(s)
    ensures exists S :: AreRefs(s, f, S)
  {
    var S := set r | r in AllRefs() && Target(s, r) == Some(f);
    forall r | Target(s, r) == Some(f) ensures r in S { TargetInAllRefs(s, r); }
    assert AreRefs(s, f, S);
  }

  /** Every counted reference to frame f. */
  ghost function Refs(s: Space, f: Frame): (S: set<Ref>)
    requires Shape(s)
    ensures AreRefs(s, f, S)
  {
    RefsExist(s, f);
    var S :| AreRefs(s, f, S);
    S
  }

  /** No table or directory frame has a second reference of any kind. */
  ghost predicate Separated(s: Space) {
    forall r, q :: Structural(r) && r != q && Target(s, r).Some? ==> Target(s, q) != Target(s, r)
  }

  /** Above UTOP every directory repeats the kernel's, except for the self map. */
  ghost predicate KernelHalf(s: Space)
    requires Shape(s)
  {
    forall e :: 0 <= e < NENV && s.pgdir[e].Some? ==>
      && s.pgdir[e].value < |s.mem|
      && (forall d :: UTOPX <= d < NPT && d != UVPTX ==> s.mem[s.pgdir[e].value][d] == s.mem[s.kdir][d])
      && s.mem[s.pgdir[e].value][UVPTX] == Entry(s.pgdir[e].value, 5)
  }

  ghost predicate Confined(s: Space, managed: set<Frame>) {
    forall r :: Target(s, r).Some? ==> Target(s, r).value in managed
  }

  ghost predicate Well(s: Space, managed: set<Frame>) {
    && Shape(s)
    && s.kdir !in managed
    && (forall f :: f in managed ==> f < |s.mem|)
    && Confined(s, managed)
    && Separated(s)
    && KernelHalf(s)
  }

  /** f may hold user data: nothing walks through it. */
  ghost predicate DataFrame(s: Space, managed: set<Frame>, f: Frame) {
    f in managed && forall r :: Structural(r) ==> Target(s, r) != Some(f)
  }

  ghost predicate Unreferenced(s: Space, f: Frame) {
    forall r :: Target(s, r) != Some(f)
  }

  ghost predicate SameTargets(s: Space, s': Space) {
    forall r :: Target(s', r) == Target(s, r)
  }

  ghost predicate SameTargetsExcept(s: Space, s': Space, x: Ref) {
    forall r :: r != x ==> Target(s', r) == Target(s, r)
  }

  ghost predicate SamePtes(s: Space, s': Space) {
    forall o: nat, d: nat, t: nat :: PteAt(s', o, d, t) == PteAt(s, o, d, t)
  }

  ghost predicate SamePtesExcept(s: Space, s': Space, o: nat, d: nat, t: nat) {
    forall o': nat, d': nat, t': nat :: (o', d', t') != (o, d, t) ==> PteAt(s', o', d', t') == PteAt(s, o', d', t')
  }

  // ---- what each kind of store does to the references ----

  /** A store into a data frame, by the kernel or by user code, moves no translation. */
  lemma WriteData(s: Space, managed: set<Frame>, f: Frame, page: seq<Entry>)
    requires Well(s, managed) && DataFrame(s, managed, f) && |page| == NPT
    ensures var s' := s.(mem := s.mem[f := page]);
      Well(s', managed) && SameTargets(s, s') && SamePtes(s, s')
  {
    var s' := s.(mem := s.mem[f := page]);
    assert Shape(s');
    forall o: nat, d: nat ensures TabAt(s', o, d) == TabAt(s, o, d) {
      if o < NENV { assert Target(s, Dir(o)) != Some(f); }
    }
    forall o: nat, d: nat, t: nat ensures PteAt(s', o, d, t) == PteAt(s, o, d, t) {
      assert Target(s, Tab(o, d)) != Some(f);
    }
    forall r ensures Target(s', r) == Target(s, r) {
      match r
      case Dir(e) =>
      case Tab(o, d) =>
      case Page(o, d, t) =>
    }
    forall e | 0 <= e < NENV && s.pgdir[e].Some? ensures s.pgdir[e].value != f { assert Target(s, Dir(e)) != Some(f); }
  }

  /** A store into slot t of the table of (o, d) changes the translation of (o, d, t) and nothing else. */
  lemma WriteTable(s: Space, managed: set<Frame>, o: nat, d: nat, t: nat, w: Entry)
    requires Well(s, managed) && TabAt(s, o, d).Some? && t < NPT
    requires Present(w) && o < NENV ==> DataFrame(s, managed, w.frame)
    ensures var tf := TabAt(s, o, d).value;
      tf < |s.mem| && |s.mem[tf]| == NPT &&
      var s' := s.(mem := s.mem[tf := s.mem[tf][t := w]]);
      && Well(s', managed) && SameTargetsExcept(s, s', Page(o, d, t)) && SamePtesExcept(s, s', o, d, t)
      && PteAt(s', o, d, t) == (if Present(w) then Some(w) else None)
  {
    var tf := TabAt(s, o, d).value;
    assert Target(s, Tab(o, d)) == Some(tf);
    var s' := s.(mem := s.mem[tf := s.mem[tf][t := w]]);
    assert Shape(s');
    forall e | 0 <= e < NENV && s.pgdir[e].Some? ensures s.pgdir[e].value != tf {
      assert Target(s, Dir(e)) == s.pgdir[e];
    }
    forall o': nat, d': nat ensures TabAt(s', o', d') == TabAt(s, o', d') {}
    forall o': nat, d': nat, t': nat | (o', d', t') != (o, d, t) ensures PteAt(s', o', d', t') == PteAt(s, o', d', t') {
      if (o', d') != (o, d) && TabAt(s, o', d').Some? {
        assert Target(s, Tab(o', d')) == TabAt(s, o', d');
      }
    }
    forall r | r != Page(o, d, t) ensures Target(s', r) == Target(s, r) {
      match r
      case Dir(e) =>
      case Tab(_, _) =>
      case Page(_, _, _) =>
    }
    assert Separated(s') by {
      forall r, q | Structural(r) && r != q && Target(s', r).Some? ensures Target(s', q) != Target(s', r) {
        assert Target(s', r) == Target(s, r);
      }
    }
    assert Confined(s', managed) by {
      forall r | Target(s', r).Some? ensures Target(s', r).value in managed {
        if r != Page(o, d, t) { assert Target(s', r) == Target(s, r); }
      }
    }
  }

  /** Installing a blank, unreferenced frame as the table of (o, d) translates nothing new. */
  lemma InstallTable(s: Space, managed: set<Frame>, o: nat, d: nat, w: Entry)
    requires Well(s, managed) && DirOf(s, o).Some? && OwnPdx(o, d) && TabAt(s, o, d).None?
    requires o == KERN ==> forall e :: 0 <= e < NENV ==> s.pgdir[e].None?
    requires Present(w) && w.frame in managed && Unreferenced(s, w.frame)
    requires forall t :: 0 <= t < NPT ==> !Present(s.mem[w.frame][t])
    ensures var df := DirOf(s, o).value;
      df < |s.mem| && |s.mem[df]| == NPT &&
      var s' := s.(mem := s.mem[df := s.mem[df][d := w]]);
      && Well(s', managed) && SameTargetsExcept(s, s', Tab(o, d)) && SamePtes(s, s')
      && TabAt(s', o, d) == Some(w.frame)
  {
    var df := DirOf(s, o).value;
    assert o < NENV ==> Target(s, Dir(o)) == Some(df);
    var s' := s.(mem := s.mem[df := s.mem[df][d := w]]);
    assert Shape(s');
    forall e | 0 <= e < NENV && e != o && s.pgdir[e].Some? ensures s.pgdir[e].value != df {
      assert Target(s, Dir(e)) == s.pgdir[e];
    }
    forall o': nat, d': nat | (o', d') != (o, d) ensures TabAt(s', o', d') == TabAt(s, o', d') {}
    assert TabAt(s', o, d) == Some(w.frame);
    assert w.frame != df by { if o < NENV { assert Target(s, Dir(o)) == Some(df); } }
    forall o': nat, d': nat, t: nat ensures PteAt(s', o', d', t) == PteAt(s, o', d', t) {
      if (o', d') != (o, d) && TabAt(s, o', d').Some? {
        assert Target(s, Tab(o', d')) == TabAt(s, o', d');
      }
    }
    forall r | r != Tab(o, d) ensures Target(s', r) == Target(s, r) {
      match r
      case Dir(e) =>
      case Tab(_, _) =>
      case Page(_, _, _) =>
    }
    assert Target(s', Tab(o, d)) == Some(w.frame);
    assert Separated(s') by {
      forall r, q | Structural(r) && r != q && Target(s', r).Some? ensures Target(s', q) != Target(s', r) {
        assert r != Tab(o, d) ==> Target(s', r) == Target(s, r);
        assert q != Tab(o, d) ==> Target(s', q) == Target(s, q);
      }
    }
    assert Confined(s', managed) by {
      forall r | Target(s', r).Some? ensures Target(s', r).value in managed {
        if r != Tab(o, d) { assert Target(s', r) == Target(s, r); }
      }
    }
  }

  /** Clearing the directory entry of a table that maps nothing unmaps nothing. */
  lemma ClearTable(s: Space, managed: set<Frame>, e: nat, d: nat)
    requires Well(s, managed) && e < NENV && TabAt(s, e, d).Some?
    requires forall t: nat :: PteAt(s, e, d, t).None?
    ensures var df := DirOf(s, e).value;
      df < |s.mem| && |s.mem[df]| == NPT &&
      var s' := s.(mem := s.mem[df := s.mem[df][d := ZERO]]);
      && Well(s', managed) && SameTargetsExcept(s, s', Tab(e, d)) && SamePtes(s, s')
      && Target(s', Tab(e, d)) == None
  {
    var df := DirOf(s, e).value;
    assert Target(s, Dir(e)) == Some(df);
    var s' := s.(mem := s.mem[df := s.mem[df][d := ZERO]]);
    assert Shape(s');
    forall e' | 0 <= e' < NENV && e' != e && s.pgdir[e'].Some? ensures s.pgdir[e'].value != df {
      assert Target(s, Dir(e')) == s.pgdir[e'];
    }
    forall o': nat, d': nat | (o', d') != (e, d) ensures TabAt(s', o', d') == TabAt(s, o', d') {}
    assert TabAt(s', e, d) == None;
    forall o': nat, d': nat, t: nat ensures PteAt(s', o', d', t) == PteAt(s, o', d', t) {
      if (o', d') != (e, d) && TabAt(s, o', d').Some? {
        assert Target(s, Tab(o', d')) == TabAt(s, o', d');
      }
    }
    forall r | r != Tab(e, d) ensures Target(s', r) == Target(s, r) {
      match r
      case Dir(_) =>
      case Tab(_, _) =>
      case Page(_, _, _) =>
    }
    FewerTargets(s, s', managed, Tab(e, d));
  }

  /** Losing one reference keeps the separation of tables from everything else. */
  lemma FewerTargets(s: Space, s': Space, managed: set<Frame>, x: Ref)
    requires Well(s, managed) && SameTargetsExcept(s, s', x) && Target(s', x).None?
    ensures Separated(s') && Confined(s', managed)
  {
    forall r, q | Structural(r) && r != q && Target(s', r).Some? ensures Target(s', q) != Target(s', r) {
      assert r != x && Target(s', r) == Target(s, r);
      assert q != x ==> Target(s', q) == Target(s, q);
    }
    forall r | Target(s', r).Some? ensures Target(s', r).value in managed {
      assert r != x && Target(s', r) == Target(s, r);
    }
  }

  /** Giving slot e a fresh directory whose user half is blank. */
  lemma InstallDir(s: Space, managed: set<Frame>, e: nat, f: Frame)
    requires Well(s, managed) && e < NENV && s.pgdir[e].None?
    requires f in managed && Unreferenced(s, f)
    requires forall d :: 0 <= d < UTOPX ==> !Present(s.mem[f][d])
    requires forall d :: UTOPX <= d < NPT && d != UVPTX ==> s.mem[f][d] == s.mem[s.kdir][d]
    requires s.mem[f][UVPTX] == Entry(f, 5)
    ensures var s' := s.(pgdir := s.pgdir[e := Some(f)]);
      && Well(s', managed) && SameTargetsExcept(s, s', Dir(e)) && SamePtes(s, s')
      && Target(s', Dir(e)) == Some(f)
  {
    var s' := s.(pgdir := s.pgdir[e := Some(f)]);
    assert Shape(s');
    forall o: nat, d: nat ensures TabAt(s', o, d) == TabAt(s, o, d) {}
    forall o: nat, d: nat, t: nat ensures PteAt(s', o, d, t) == PteAt(s, o, d, t) {}
    forall r | r != Dir(e) ensures Target(s', r) == Target(s, r) {
      match r
      case Dir(_) =>
      case Tab(_, _) =>
      case Page(_, _, _) =>
    }
    assert Separated(s') by {
      forall r, q | Structural(r) && r != q && Target(s', r).Some? ensures Target(s', q) != Target(s', r) {
        assert r != Dir(e) ==> Target(s', r) == Target(s, r);
        assert q != Dir(e) ==> Target(s', q) == Target(s, q);
      }
    }
    assert Confined(s', managed) by {
      forall r | Target(s', r).Some? ensures Target(s', r).value in managed {
        if r != Dir(e) { assert Target(s', r) == Target(s, r); }
      }
    }
  }

  /** Taking away a directory that has no tables left. */
  lemma RemoveDir(s: Space, managed: set<Frame>, e: nat)
    requires Well(s, managed) && e < NENV && s.pgdir[e].Some?
    requires forall d: nat :: TabAt(s, e, d).None?
    ensures var s' := s.(pgdir := s.pgdir[e := None]);
      && Well(s', managed) && SameTargetsExcept(s, s', Dir(e)) && SamePtes(s, s')
      && Target(s', Dir(e)) == None
  {
    var s' := s.(pgdir := s.pgdir[e := None]);
    assert Shape(s');
    forall o: nat, d: nat ensures TabAt(s', o, d) == TabAt(s, o, d) {}
    forall o: nat, d: nat, t: nat ensures PteAt(s', o, d, t) == PteAt(s, o, d, t) {}
    forall r | r != Dir(e) ensures Target(s', r) == Target(s, r) {
      match r
      case Dir(_) =>
      case Tab(_, _) =>
      case Page(_, _, _) =>
    }
    FewerTargets(s, s', managed, Dir(e));
  }

  // ---- counting ----

  ghost function Hits(s: Space, r: Ref, f: Frame): nat {
    if Target(s, r) == Some(f) then 1 else 0
  }

  ghost function RefCount(s: Space, f: Frame): nat
    requires Shape(s)
  {
    |Refs(s, f)|
  }

  lemma SameCounts(s: Space, s': Space)
    requires Shape(s) && Shape(s') && SameTargets(s, s')
    ensures forall f: nat :: RefCount(s', f) == RefCount(s, f)
  {
    forall f: nat ensures RefCount(s', f) == RefCount(s, f) {
      assert Refs(s', f) == Refs(s, f);
    }
  }

  /** Moving a single reference moves the counts of its old and new target by one. */
  lemma CountMoves(s: Space, s': Space, x: Ref, f: Frame)
    requires Shape(s) && Shape(s') && SameTargetsExcept(s, s', x)
    ensures RefCount(s', f) == RefCount(s, f) - Hits(s, x, f) + Hits(s', x, f)
  {
    var A, B := Refs(s, f), Refs(s', f);
    assert A - {x} == B - {x};
    Remove1(A, x);
    Remove1(B, x);
  }

  lemma Remove1<T>(A: set<T>, x: T)
    ensures |A| == |A - {x}| + if x in A then 1 else 0
  {
    if x in A {
      assert A == (A - {x}) + {x};
    } else {
      assert A == A - {x};
    }
  }

  lemma CountsMove(s: Space, s': Space, x: Ref)
    requires Shape(s) && Shape(s') && SameTargetsExcept(s, s', x)
    ensures forall f: nat :: RefCount(s', f) == RefCount(s, f) - Hits(s, x, f) + Hits(s', x, f)
  {
    forall f: nat ensures RefCount(s', f) == RefCount(s, f) - Hits(s, x, f) + Hits(s', x, f) {
      CountMoves(s, s', x, f);
    }
  }

  lemma CountZero(s: Space, f: Frame)
    requires Shape(s)
    ensures RefCount(s, f) == 0 <==> Unreferenced(s, f)
  {
    if RefCount(s, f) == 0 {
      assert Refs(s, f) == {};
      assert forall r :: r !in Refs(s, f);
    } else {
      var r :| r in Refs(s, f);
    }
  }

  /** A table or directory frame is counted exactly once. */
  lemma StructuralCount(s: Space, managed: set<Frame>, r: Ref)
    requires Well(s, managed) && Structural(r) && Target(s, r).Some?
    ensures RefCount(s, Target(s, r).value) == 1
  {
    var f := Target(s, r).value;
    assert Refs(s, f) == {r} by {
      forall q | q in Refs(s, f) ensures q == r {}
    }
  }
}
