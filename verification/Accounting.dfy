/** The page allocator's bookkeeping: the intrusive free list and the reference counts. */
module Accounting {
  import opened Base
  import opened Paging

  /** pages[].pp_ref, pages[].pp_link, page_free_list, and the frames that list threads. */
  datatype Alloc = Alloc(ref: seq<nat>, link: seq<Option<Frame>>, head: Option<Frame>, ghost free: seq<Frame>)

  ghost function After(free: seq<nat>, i: nat): Option<nat> {
    if i + 1 < |free| then Some(free[i + 1]) else None
  }

  /** head and link thread exactly the elements of `free`, in that order, and end. */
  ghost predicate Chain(head: Option<nat>, link: seq<Option<nat>>, free: seq<nat>) {
    && head == (if free == [] then None else Some(free[0]))
    && (forall i :: 0 <= i < |free| ==> free[i] < |link|)
    && (forall i {:trigger After(free, i)} :: 0 <= i < |free| ==> link[free[i]] == After(free, i))
    && (forall i, j :: 0 <= i < j < |free| ==> free[i] != free[j])
  }

  lemma ChainPop(head: Option<nat>, link: seq<Option<nat>>, free: seq<nat>)
    requires Chain(head, link, free) && free != []
    ensures head == Some(free[0])
    ensures Chain(link[free[0]], link[free[0] := None], free[1..])
    ensures free[0] !in free[1..]
  {
    var link', rest := link[free[0] := None], free[1..];
    assert link[free[0]] == After(free, 0);
    forall i | 0 <= i < |rest| ensures link'[rest[i]] == After(rest, i) {
      assert rest[i] == free[i + 1] && After(rest, i) == After(free, i + 1);
      assert link[free[i + 1]] == After(free, i + 1);
    }
  }

  lemma ChainPush(head: Option<nat>, link: seq<Option<nat>>, free: seq<nat>, p: nat)
    requires Chain(head, link, free) && p < |link| && p !in free
    ensures Chain(Some(p), link[p := head], [p] + free)
  {
    var link', longer := link[p := head], [p] + free;
    forall i | 0 <= i < |longer| ensures link'[longer[i]] == After(longer, i) {
      if i > 0 {
        assert longer[i] == free[i - 1] && After(longer, i) == After(free, i - 1);
        assert link[free[i - 1]] == After(free, i - 1);
      }
    }
  }

  /**
   Counts agree with references.  `owed` are references already dropped from a
   table but not yet from pp_ref; `limbo` are frames off the free list that
   nothing points at (allocated and not yet installed).
   */
  ghost predicate Exact(s: Space, managed: set<Frame>, ref: seq<nat>, free: seq<Frame>,
                        owed: multiset<Frame>, limbo: set<Frame>)
    requires Shape(s)
  {
    && |ref| == |s.mem|
    && (forall f :: f in managed ==> f < |ref|)
    && (forall f :: f in managed ==> ref[f] == RefCount(s, f) + owed[f])
    && (forall f :: f in managed ==> ref[f] <= MAXREF)
    && (forall f :: f in free <==> f in managed && f !in limbo && ref[f] == 0)
    && (forall f :: f in limbo ==> f in managed && ref[f] == 0)
  }

  /** The free list is well threaded, and a frame off it has a null link. */
  ghost predicate Threaded(managed: set<Frame>, a: Alloc) {
    && Chain(a.head, a.link, a.free)
    && forall f :: f in managed && f !in a.free ==> f < |a.link| && a.link[f] == None
  }

  ghost predicate Sound(s: Space, managed: set<Frame>, a: Alloc, owed: multiset<Frame>, limbo: set<Frame>) {
    && |s.mem| == |a.link|
    && Well(s, managed)
    && Exact(s, managed, a.ref, a.free, owed, limbo)
    && Threaded(managed, a)
  }

  /** s' translates (e, d, t) by w and everything else as s does. */
  ghost predicate Mapped(s: Space, s': Space, managed: set<Frame>, e: nat, d: nat, t: nat, w: Entry) {
    && Well(s', managed)
    && PteAt(s', e, d, t) == Some(w)
    && SamePtesExcept(s, s', e, d, t)
    && SameTargetsExcept(s, s', Page(e, d, t))
  }

  /** As Mapped, where the table of (e, d) may be new. */
  ghost predicate Inserted(s: Space, s': Space, e: nat, d: nat, t: nat, w: Entry) {
    && s'.pgdir == s.pgdir
    && PteAt(s', e, d, t) == Some(w)
    && SamePtesExcept(s, s', e, d, t)
    && forall r :: r != Page(e, d, t) && r != Tab(e, d) ==> Target(s', r) == Target(s, r)
  }

  /** How many references mapping frame p at (e, d, t) adds: none if it is mapped there already. */
  ghost function Grows(s: Space, e: nat, d: nat, t: nat, p: Frame): nat {
    if PteAt(s, e, d, t).Some? && PteAt(s, e, d, t).value.frame == p then 0 else 1
  }

  /** Finding or making the table, then mapping the page in it. */
  lemma InsertedThrough(s: Space, s1: Space, s2: Space, managed: set<Frame>, e: nat, d: nat, t: nat, w: Entry)
    requires SamePtes(s, s1) && SameTargetsExcept(s, s1, Tab(e, d)) && s2.pgdir == s1.pgdir == s.pgdir
    requires Mapped(s1, s2, managed, e, d, t, w)
    ensures Inserted(s, s2, e, d, t, w) && Grows(s, e, d, t, w.frame) == Grows(s1, e, d, t, w.frame)
  {
    forall r | r != Page(e, d, t) && r != Tab(e, d) ensures Target(s2, r) == Target(s, r) {
      assert Target(s1, r) == Target(s, r);
    }
  }

  ghost predicate Bounded(s: Space)
    requires Shape(s)
  {
    forall f: nat :: RefCount(s, f) <= MAXREF
  }

  lemma SoundIsBounded(s: Space, managed: set<Frame>, a: Alloc, limbo: set<Frame>)
    requires Sound(s, managed, a, multiset{}, limbo)
    ensures Bounded(s)
  {
    forall f: nat ensures RefCount(s, f) <= MAXREF {
      if f !in managed {
        CountZero(s, f);
        assert Unreferenced(s, f) by { forall r ensures Target(s, r) != Some(f) {} }
      }
    }
  }

  /** No frame that may hold user data has changed, except perhaps ones that were free. */
  ghost predicate Untouched(s: Space, s': Space, managed: set<Frame>, free: seq<Frame>) {
    forall f: nat :: DataFrame(s, managed, f) && f !in free ==> f < |s.mem| && f < |s'.mem| && s'.mem[f] == s.mem[f]
  }

  lemma UntouchedTwice(s: Space, s1: Space, s2: Space, managed: set<Frame>, free: seq<Frame>, free1: seq<Frame>, x: Ref)
    requires Untouched(s, s1, managed, free) && Untouched(s1, s2, managed, free1)
    requires SameTargetsExcept(s, s1, x)
    requires !Structural(x) || Target(s1, x) == Target(s, x) || (Target(s1, x).Some? && Target(s1, x).value in free)
    requires forall f :: f in free1 ==> f in free
    ensures Untouched(s, s2, managed, free)
  {
    forall f: nat | DataFrame(s, managed, f) && f !in free ensures DataFrame(s1, managed, f) {
      forall r | Structural(r) ensures Target(s1, r) != Some(f) {
        assert r != x ==> Target(s1, r) == Target(s, r);
      }
    }
  }

  // ---- counting across one store ----

  /** Storing a new reference and bumping the count: exact again exactly when 16 bits suffice. */
  lemma ExactGain(s: Space, s': Space, managed: set<Frame>, ref: seq<nat>, free: seq<Frame>,
                  limbo: set<Frame>, x: Ref, p: Frame)
    requires Shape(s) && Shape(s') && |s'.mem| == |s.mem|
    requires Exact(s, managed, ref, free, multiset{}, limbo) && p in managed && p !in free
    requires SameTargetsExcept(s, s', x) && Target(s, x).None? && Target(s', x) == Some(p)
    ensures RefCount(s', p) == RefCount(s, p) + 1
    ensures var ref' := ref[p := (ref[p] + 1) % (MAXREF + 1)];
      Exact(s', managed, ref', free, multiset{}, limbo - {p}) <==> RefCount(s', p) <= MAXREF
  {
    CountsMove(s, s', x);
    assert RefCount(s', p) == RefCount(s, p) - Hits(s, x, p) + Hits(s', x, p);
  }

  /** Clearing a reference without touching the count leaves it owed. */
  lemma ExactLoss(s: Space, s': Space, managed: set<Frame>, ref: seq<nat>, free: seq<Frame>,
                  limbo: set<Frame>, x: Ref, p: Frame)
    requires Shape(s) && Shape(s') && |s'.mem| == |s.mem|
    requires Exact(s, managed, ref, free, multiset{}, limbo)
    requires SameTargetsExcept(s, s', x) && Target(s, x) == Some(p) && Target(s', x).None?
    ensures Exact(s', managed, ref, free, multiset{p}, limbo)
  {
    CountsMove(s, s', x);
  }

  lemma ExactSame(s: Space, s': Space, managed: set<Frame>, ref: seq<nat>, free: seq<Frame>,
                  owed: multiset<Frame>, limbo: set<Frame>)
    requires Shape(s) && Shape(s') && |s'.mem| == |s.mem|
    requires Exact(s, managed, ref, free, owed, limbo) && SameTargets(s, s')
    ensures Exact(s', managed, ref, free, owed, limbo)
    ensures forall f: nat :: RefCount(s', f) == RefCount(s, f)
  {
    SameCounts(s, s');
  }

  // ---- soundness across each primitive step ----

  lemma SoundPop(s: Space, managed: set<Frame>, a: Alloc, owed: multiset<Frame>, limbo: set<Frame>)
    requires Sound(s, managed, a, owed, limbo) && a.free != []
    ensures a.head == Some(a.free[0])
    ensures var p := a.free[0];
      && p in managed && p !in limbo && Unreferenced(s, p) && p < |a.link|
      && a.free == [p] + a.free[1..]
      && Sound(s, managed, Alloc(a.ref, a.link[p := None], a.link[p], a.free[1..]), owed, limbo + {p})
  {
    ChainPop(a.head, a.link, a.free);
    assert a.free[0] in a.free;
    CountZero(s, a.free[0]);
  }

  lemma SoundPush(s: Space, managed: set<Frame>, a: Alloc, owed: multiset<Frame>, limbo: set<Frame>, p: Frame)
    requires Sound(s, managed, a, owed, limbo) && p in limbo
    ensures p < |a.link|
    ensures Sound(s, managed, Alloc(a.ref, a.link[p := a.head], Some(p), [p] + a.free), owed, limbo - {p})
  {
    ChainPush(a.head, a.link, a.free, p);
  }

  /** Paying one owed reference; a frame whose count drops to zero is then in limbo. */
  lemma SoundSettle(s: Space, managed: set<Frame>, a: Alloc, owed: multiset<Frame>, limbo: set<Frame>, p: Frame)
    requires Sound(s, managed, a, owed, limbo) && p in owed && p in managed
    ensures p < |a.ref| && a.ref[p] > 0
    ensures Sound(s, managed, a.(ref := a.ref[p := a.ref[p] - 1]), owed - multiset{p},
                  if a.ref[p] == 1 then limbo + {p} else limbo)
  {}

  lemma SoundData(s: Space, s': Space, managed: set<Frame>, a: Alloc, owed: multiset<Frame>, limbo: set<Frame>,
                  f: Frame, page: seq<Entry>)
    requires Sound(s, managed, a, owed, limbo) && DataFrame(s, managed, f) && |page| == NPT
    requires s' == s.(mem := s.mem[f := page])
    ensures Sound(s', managed, a, owed, limbo) && SameTargets(s, s') && SamePtes(s, s')
  {
    WriteData(s, managed, f, page);
    ExactSame(s, s', managed, a.ref, a.free, owed, limbo);
  }

  lemma SoundInstallTable(s: Space, s': Space, managed: set<Frame>, a: Alloc, a': Alloc, limbo: set<Frame>,
                          o: nat, d: nat, p: Frame)
    requires p !in limbo && Sound(s, managed, a, multiset{}, limbo + {p})
    requires DirOf(s, o).Some? && OwnPdx(o, d) && TabAt(s, o, d).None?
    requires o == KERN ==> forall e :: 0 <= e < NENV ==> s.pgdir[e].None?
    requires p in managed && forall t :: 0 <= t < NPT ==> s.mem[p][t] == ZERO
    requires var df := DirOf(s, o).value; df < |s.mem| && s' == s.(mem := s.mem[df := s.mem[df][d := Entry(p, 7)]])
    requires a' == a.(ref := a.ref[p := (a.ref[p] + 1) % (MAXREF + 1)])
    ensures Sound(s', managed, a', multiset{}, limbo)
    ensures SameTargetsExcept(s, s', Tab(o, d)) && SamePtes(s, s') && TabAt(s', o, d) == Some(p)
  {
    CountZero(s, p);
    InstallTable(s, managed, o, d, Entry(p, 7));
    assert Target(s', Tab(o, d)) == Some(p) && Target(s, Tab(o, d)) == None;
    ExactGain(s, s', managed, a.ref, a.free, limbo + {p}, Tab(o, d), p);
    assert limbo + {p} - {p} == limbo;
  }

  lemma SoundClearPte(s: Space, s': Space, managed: set<Frame>, a: Alloc, limbo: set<Frame>, e: nat, d: nat, t: nat)
    requires Sound(s, managed, a, multiset{}, limbo) && e < NENV && PteAt(s, e, d, t).Some?
    requires var tf := TabAt(s, e, d).value; s' == s.(mem := s.mem[tf := s.mem[tf][t := ZERO]])
    ensures Sound(s', managed, a, multiset{PteAt(s, e, d, t).value.frame}, limbo)
    ensures SameTargetsExcept(s, s', Page(e, d, t)) && SamePtesExcept(s, s', e, d, t)
    ensures PteAt(s', e, d, t).None? && PteAt(s, e, d, t).value.frame in managed
  {
    WriteTable(s, managed, e, d, t, ZERO);
    assert Target(s, Page(e, d, t)) == Some(PteAt(s, e, d, t).value.frame);
    ExactLoss(s, s', managed, a.ref, a.free, limbo, Page(e, d, t), PteAt(s, e, d, t).value.frame);
  }

  lemma SoundSetPte(s: Space, s': Space, managed: set<Frame>, a: Alloc, a': Alloc, limbo: set<Frame>,
                    e: nat, d: nat, t: nat, w: Entry)
    requires Sound(s, managed, a, multiset{}, limbo) && e < NENV
    requires TabAt(s, e, d).Some? && t < NPT && PteAt(s, e, d, t).None?
    requires Present(w) && DataFrame(s, managed, w.frame) && (w.frame in limbo || !Unreferenced(s, w.frame))
    requires var tf := TabAt(s, e, d).value; tf < |s.mem| && s' == s.(mem := s.mem[tf := s.mem[tf][t := w]])
    requires a' == a.(ref := a.ref[w.frame := (a.ref[w.frame] + 1) % (MAXREF + 1)])
    ensures Mapped(s, s', managed, e, d, t, w) && RefCount(s', w.frame) == RefCount(s, w.frame) + 1
    ensures RefCount(s', w.frame) <= MAXREF ==> Sound(s', managed, a', multiset{}, limbo - {w.frame})
  {
    WriteTable(s, managed, e, d, t, w);
    CountZero(s, w.frame);
    ExactGain(s, s', managed, a.ref, a.free, limbo, Page(e, d, t), w.frame);
  }

  lemma SoundRepermit(s: Space, s': Space, managed: set<Frame>, a: Alloc, limbo: set<Frame>,
                      e: nat, d: nat, t: nat, w: Entry)
    requires Sound(s, managed, a, multiset{}, limbo) && e < NENV && PteAt(s, e, d, t).Some? && Present(w)
    requires w.frame == PteAt(s, e, d, t).value.frame && DataFrame(s, managed, w.frame)
    requires var tf := TabAt(s, e, d).value; s' == s.(mem := s.mem[tf := s.mem[tf][t := w]])
    ensures Sound(s', managed, a, multiset{}, limbo - {w.frame})
    ensures RefCount(s', w.frame) == RefCount(s, w.frame) <= MAXREF
    ensures SameTargets(s, s') && Mapped(s, s', managed, e, d, t, w)
  {
    WriteTable(s, managed, e, d, t, w);
    assert Target(s', Page(e, d, t)) == Target(s, Page(e, d, t)) == Some(w.frame);
    CountZero(s, w.frame);
    assert limbo - {w.frame} == limbo;
    ExactSame(s, s', managed, a.ref, a.free, multiset{}, limbo);
  }

  /** A static mapping of the kernel's own half is not counted. */
  lemma SoundKernelPte(s: Space, s': Space, managed: set<Frame>, a: Alloc, limbo: set<Frame>, d: nat, t: nat, w: Entry)
    requires Sound(s, managed, a, multiset{}, limbo) && TabAt(s, KERN, d).Some? && t < NPT && Present(w)
    requires var tf := TabAt(s, KERN, d).value; tf < |s.mem| && s' == s.(mem := s.mem[tf := s.mem[tf][t := w]])
    ensures Sound(s', managed, a, multiset{}, limbo)
    ensures SameTargets(s, s') && SamePtesExcept(s, s', KERN, d, t) && PteAt(s', KERN, d, t) == Some(w)
  {
    WriteTable(s, managed, KERN, d, t, w);
    assert Target(s', Page(KERN, d, t)) == Target(s, Page(KERN, d, t)) == None;
    ExactSame(s, s', managed, a.ref, a.free, multiset{}, limbo);
  }

  lemma SoundClearTable(s: Space, s': Space, managed: set<Frame>, a: Alloc, limbo: set<Frame>, e: nat, d: nat)
    requires Sound(s, managed, a, multiset{}, limbo) && e < NENV && TabAt(s, e, d).Some?
    requires forall t: nat :: PteAt(s, e, d, t).None?
    requires var df := DirOf(s, e).value; s' == s.(mem := s.mem[df := s.mem[df][d := ZERO]])
    ensures Sound(s', managed, a, multiset{TabAt(s, e, d).value}, limbo) && TabAt(s, e, d).value in managed
    ensures SameTargetsExcept(s, s', Tab(e, d)) && SamePtes(s, s') && Target(s', Tab(e, d)) == None
  {
    ClearTable(s, managed, e, d);
    assert Target(s, Tab(e, d)) == TabAt(s, e, d);
    ExactLoss(s, s', managed, a.ref, a.free, limbo, Tab(e, d), TabAt(s, e, d).value);
  }

  lemma SoundRemoveDir(s: Space, s': Space, managed: set<Frame>, a: Alloc, limbo: set<Frame>, e: nat)
    requires Sound(s, managed, a, multiset{}, limbo) && e < NENV && s.pgdir[e].Some?
    requires forall d: nat :: TabAt(s, e, d).None?
    requires s' == s.(pgdir := s.pgdir[e := None])
    ensures Sound(s', managed, a, multiset{s.pgdir[e].value}, limbo) && s.pgdir[e].value in managed
    ensures SameTargetsExcept(s, s', Dir(e)) && SamePtes(s, s') && Target(s', Dir(e)) == None
  {
    RemoveDir(s, managed, e);
    assert Target(s, Dir(e)) == s.pgdir[e];
    ExactLoss(s, s', managed, a.ref, a.free, limbo, Dir(e), s.pgdir[e].value);
  }

  lemma SoundInstallDir(s: Space, s': Space, managed: set<Frame>, a: Alloc, a': Alloc, limbo: set<Frame>, e: nat,
    p: Frame)
    requires p !in limbo && Sound(s, managed, a, multiset{}, limbo + {p}) && e < NENV && s.pgdir[e].None?
    requires forall d :: 0 <= d < UTOPX ==> !Present(s.mem[p][d])
    requires forall d :: UTOPX <= d < NPT && d != UVPTX ==> s.mem[p][d] == s.mem[s.kdir][d]
    requires s.mem[p][UVPTX] == Entry(p, 5)
    requires s' == s.(pgdir := s.pgdir[e := Some(p)])
    requires a' == a.(ref := a.ref[p := (a.ref[p] + 1) % (MAXREF + 1)])
    ensures Sound(s', managed, a', multiset{}, limbo)
    ensures SameTargetsExcept(s, s', Dir(e)) && SamePtes(s, s')
  {
    CountZero(s, p);
    InstallDir(s, managed, e, p);
    assert Target(s, Dir(e)) == None;
    ExactGain(s, s', managed, a.ref, a.free, limbo + {p}, Dir(e), p);
    assert limbo + {p} - {p} == limbo;
  }

  /** Moving references to tables or to other frames does not change what p is used for. */
  lemma DataKept(s: Space, s': Space, managed: set<Frame>, x: Ref, p: Frame)
    requires Shape(s) && Shape(s') && SameTargetsExcept(s, s', x) && DataFrame(s, managed, p)
    requires Target(s, x) != Some(p) && Target(s', x) != Some(p)
    ensures DataFrame(s', managed, p) && (Unreferenced(s', p) <==> Unreferenced(s, p))
    ensures RefCount(s', p) == RefCount(s, p)
  {
    assert Refs(s', p) == Refs(s, p);
    forall r ensures Target(s', r) == Some(p) <==> Target(s, r) == Some(p) {
      assert r != x ==> Target(s', r) == Target(s, r);
    }
  }

  // ---- tearing down an address space ----

  /** r belongs to environment e and lies before position (d, t) of its directory. */
  ghost predicate Before(r: Ref, e: nat, d: nat, t: nat) {
    match r
    case Dir(_) => false
    case Tab(o, d') => o == e && d' < d
    case Page(o, d', t') => o == e && (d' < d || (d' == d && t' < t))
  }

  /** s is s0 with everything e refers to before (d, t) dropped. */
  ghost predicate Torn(s0: Space, s: Space, e: nat, d: nat, t: nat) {
    && (forall r :: Target(s, r) == if Before(r, e, d, t) then None else Target(s0, r))
    && forall o: nat, d': nat, t': nat :: o != e ==> PteAt(s, o, d', t') == PteAt(s0, o, d', t')
  }

  lemma TornPage(s0: Space, s: Space, s': Space, e: nat, d: nat, t: nat)
    requires Torn(s0, s, e, d, t) && e < NENV
    requires SameTargetsExcept(s, s', Page(e, d, t)) && SamePtesExcept(s, s', e, d, t) && PteAt(s', e, d, t).None?
    ensures Torn(s0, s', e, d, t + 1)
  {
    forall r ensures Target(s', r) == if Before(r, e, d, t + 1) then None else Target(s0, r) {
      assert r != Page(e, d, t) ==> Target(s', r) == Target(s, r);
    }
  }

  lemma TornEmpty(s0: Space, s: Space, e: nat, d: nat)
    requires Torn(s0, s, e, d, NPT) && Shape(s) && e < NENV && TabAt(s, e, d).Some?
    ensures forall t: nat :: PteAt(s, e, d, t).None?
  {
    forall t: nat ensures PteAt(s, e, d, t).None? {
      if t < NPT {
        assert Before(Page(e, d, t), e, d, NPT);
        assert Target(s, Page(e, d, t)) == None;
      }
    }
  }

  lemma TornTable(s0: Space, s: Space, s': Space, e: nat, d: nat)
    requires Torn(s0, s, e, d, NPT) && e < NENV && Shape(s0)
    requires SameTargetsExcept(s, s', Tab(e, d)) && SamePtes(s, s') && Target(s', Tab(e, d)) == None
    ensures Torn(s0, s', e, d + 1, 0)
  {
    forall r ensures Target(s', r) == if Before(r, e, d + 1, 0) then None else Target(s0, r) {
      assert r != Tab(e, d) ==> Target(s', r) == Target(s, r);
    }
  }

  lemma TornAbsent(s0: Space, s: Space, e: nat, d: nat)
    requires Torn(s0, s, e, d, 0) && e < NENV && TabAt(s, e, d).None?
    ensures Torn(s0, s, e, d + 1, 0)
  {
    assert Target(s, Tab(e, d)) == None;
    forall t: nat ensures Target(s0, Page(e, d, t)) == None {
      assert Target(s, Page(e, d, t)) == None;
    }
  }

  predicate Owns(r: Ref, e: nat) {
    match r
    case Dir(x) => x == e
    case Tab(o, _) => o == e
    case Page(o, _, _) => o == e
  }

  /** The references to f that environment e holds. */
  ghost function RefsOf(s: Space, f: Frame, e: nat): set<Ref>
    requires Shape(s)
  {
    set r | r in Refs(s, f) && Owns(r, e)
  }

  /** Tearing down makes no data frame structural, so what the steps leave alone stays as it was. */
  lemma UntouchedTorn(s0: Space, s: Space, s': Space, managed: set<Frame>, e: nat, d: nat, t: nat)
    requires Torn(s0, s, e, d, t) && Untouched(s0, s, managed, []) && Untouched(s, s', managed, [])
    ensures Untouched(s0, s', managed, [])
  {
    forall f: nat | DataFrame(s0, managed, f) ensures DataFrame(s, managed, f) {
      forall r | Structural(r) ensures Target(s, r) != Some(f) {}
    }
  }

  /** Every reference of e is gone and every other reference stays. */
  ghost predicate Released(s: Space, s': Space, e: nat) {
    && (forall r :: Target(s', r) == if Owns(r, e) then None else Target(s, r))
    && forall o: nat, d: nat, t: nat :: o != e ==> PteAt(s', o, d, t) == PteAt(s, o, d, t)
  }

  lemma TornIsReleased(s0: Space, s: Space, s': Space, e: nat)
    requires Torn(s0, s, e, UTOPX, 0) && e < NENV && Shape(s0)
    requires SameTargetsExcept(s, s', Dir(e)) && SamePtes(s, s') && Target(s', Dir(e)) == None
    ensures Released(s0, s', e)
  {
    forall r ensures Target(s', r) == if Owns(r, e) then None else Target(s0, r) {
      assert r != Dir(e) ==> Target(s', r) == Target(s, r);
    }
  }

  /**
   What releasing an address space does to every managed frame: its count falls by
   exactly e's own references to it, and it is on the free list afterwards exactly
   when it was before or when all its references were e's.
   */
  lemma TeardownConserves(s: Space, s': Space, managed: set<Frame>, a: Alloc, a': Alloc, limbo: set<Frame>, e: nat,
    f: Frame)
    requires Sound(s, managed, a, multiset{}, limbo) && Sound(s', managed, a', multiset{}, limbo)
    requires Released(s, s', e) && f in managed
    ensures a'.ref[f] == a.ref[f] - |RefsOf(s, f, e)|
    ensures f in a'.free <==> f in a.free || (Refs(s, f) != {} && RefsOf(s, f, e) == Refs(s, f))
  {
    assert Refs(s', f) == Refs(s, f) - RefsOf(s, f, e);
    assert RefsOf(s, f, e) <= Refs(s, f);
    assert |Refs(s', f)| == |Refs(s, f)| - |RefsOf(s, f, e)|;
    assert a.ref[f] == RefCount(s, f) && a'.ref[f] == RefCount(s', f);
    if |Refs(s', f)| == 0 {
      assert Refs(s', f) == {};
    }
    if f in limbo {
      assert RefCount(s, f) == 0;
    }
    assert RefCount(s, f) == 0 <==> Refs(s, f) == {};
  }
}
