/**
 The kernel's mutable state and the operations of kern/pmap.c, kern/env.c,
 kern/sched.c and kern/syscall.c over it.
 */
module KernelModel {
  import opened Base
  import opened Paging
  import opened Accounting
  import opened EnvTable
  import opened KernelCalls
  import opened KernelRuns

  /** The frames page_init puts on the free list: not page 0, not the I/O hole, not the kernel. */
  predicate InitiallyFree(npages: nat, bootEnd: nat, f: nat) {
    f < npages && f != 0 && !(0xA0 <= f < 0x100) && !(0x100 <= f < bootEnd)
  }

  /** page_init's loop over pages[], which mem_init has zeroed. */
  method PageInit(npages: nat, bootEnd: nat) returns (a: Alloc)
    ensures |a.ref| == |a.link| == npages && Chain(a.head, a.link, a.free)
    ensures forall f :: f in a.free <==> 0 <= f < npages && InitiallyFree(npages, bootEnd, f)
    ensures forall f :: 0 <= f < npages ==> a.ref[f] == 0 && (f !in a.free ==> a.link[f] == None)
  {
    a := Alloc(seq(npages, _ => 0), seq(npages, _ => None), None, []);
    for i := 0 to npages
      invariant |a.ref| == |a.link| == npages && Chain(a.head, a.link, a.free)
      invariant forall f :: f in a.free <==> 0 <= f < i && InitiallyFree(npages, bootEnd, f)
      invariant forall f :: 0 <= f < npages ==> a.ref[f] == 0 && (f !in a.free ==> a.link[f] == None)
    {
      if InitiallyFree(npages, bootEnd, i) {
        ChainPush(a.head, a.link, a.free, i);
        a := Alloc(a.ref[i := 0], a.link[i := a.head], Some(i), [i] + a.free);
      }
    }
  }

  /** env_init: every slot free, listed in order, ids 0; `envs` starts zeroed. */
  method EnvInit() returns (t: Table)
    ensures Orderly(t, seq(NENV, _ => None)) && t.cur == None && t.free == seq(NENV, i => i)
    ensures forall i :: 0 <= i < NENV ==> t.envs[i] == Env(FREE, 0, 0, false, 0, 0, 0, 0)
  {
    var zero := Env(FREE, 0, 0, false, 0, 0, 0, 0);
    t := Table(seq(NENV, _ => zero), seq(NENV, _ => None), None, None, [], seq(NENV, _ => 0), seq(NENV, _ => 0),
      seq(NENV, _ => 0));
    var i := NENV;
    while i > 0
      invariant 0 <= i <= NENV
      invariant |t.link| == NENV && Chain(t.head, t.link, t.free)
      invariant t.free == seq(NENV - i, k requires k >= 0 => i + k)
      invariant t == Table(seq(NENV, _ => zero), t.link, t.head, None, t.free, seq(NENV, _ => 0), seq(NENV, _ => 0),
        seq(NENV, _ => 0))
    {
      i := i - 1;
      ChainPush(t.head, t.link, t.free, i);
      t := t.(link := t.link[i := t.head], head := Some(i), free := [i] + t.free);
    }
    assert t.free == seq(NENV, k => k);
    forall k ensures k in t.free <==> 0 <= k < NENV {
      if 0 <= k < NENV { assert t.free[k] == k; }
    }
  }

  /** A page of the kernel's half, other than the self map. */
  predicate KernelVpn(v: nat) { OwnPdx(KERN, v / NPT) }

  function KernelPte(s: Space, v: nat): Option<Entry> { PteAt(s, KERN, v / NPT, v % NPT) }

  /** s' maps the n pages at vpn linearly to ppn and every other kernel page as s does. */
  ghost predicate RegionMapped(s: Space, s': Space, vpn: nat, n: nat, ppn: nat, flags: nat) {
    && (forall v: nat :: vpn <= v < vpn + n ==> KernelPte(s', v) == Some(Entry(ppn + (v - vpn), flags)))
    && (forall v: nat :: !(vpn <= v < vpn + n) ==> KernelPte(s', v) == KernelPte(s, v))
  }

  /** A range of the kernel's half to be mapped linearly to physical memory. */
  datatype Region = Region(vpn: nat, n: nat, ppn: nat, perm: nat)

  predicate Covers(g: Region, v: nat) { g.vpn <= v < g.vpn + g.n }

  ghost predicate InKernel(g: Region) { forall v: nat :: Covers(g, v) ==> KernelVpn(v) }

  /** Page v is mapped by the last of the first n regions that covers it. */
  ghost predicate LastMaps(s: Space, regions: seq<Region>, n: nat, i: nat, v: nat)
    requires i < n <= |regions|
  {
    Covers(regions[i], v) && (forall j :: i < j < n ==> !Covers(regions[j], v)) ==>
      KernelPte(s, v) == Some(Entry(regions[i].ppn + (v - regions[i].vpn), OrP(regions[i].perm)))
  }

  ghost predicate AllMapped(s: Space, regions: seq<Region>, n: nat)
    requires n <= |regions|
  {
    forall i: nat, v: nat {:trigger LastMaps(s, regions, n, i, v)} :: i < n ==> LastMaps(s, regions, n, i, v)
  }

  lemma AllMappedNext(s: Space, s': Space, regions: seq<Region>, n: nat)
    requires n < |regions| && AllMapped(s, regions, n)
    requires RegionMapped(s, s', regions[n].vpn, regions[n].n, regions[n].ppn, OrP(regions[n].perm))
    ensures AllMapped(s', regions, n + 1)
  {
    var m := n + 1;
    forall i: nat, v: nat {:trigger LastMaps(s', regions, m, i, v)} | i < m ensures LastMaps(s', regions, m, i, v) {
      if i < n { assert LastMaps(s, regions, n, i, v); }
    }
  }

  /** Memory with no directory but the kernel's empty one refers to nothing. */
  lemma BareSpace(s: Space, managed: set<Frame>, a: Alloc)
    requires Shape(s) && |a.ref| == |a.link| == |s.mem| && Threaded(managed, a)
    requires (forall e :: 0 <= e < NENV ==> s.pgdir[e].None?) && s.kdir !in managed
    requires forall d :: 0 <= d < NPT && d != UVPTX ==> s.mem[s.kdir][d] == ZERO
    requires (forall f :: f in managed ==> f < |s.mem|) && (forall f :: f in a.free <==> f in managed)
    requires forall f :: 0 <= f < |a.ref| ==> a.ref[f] == 0
    ensures Sound(s, managed, a, multiset{}, {})
    ensures forall o: nat, d: nat, t: nat :: PteAt(s, o, d, t).None?
  {
    forall r ensures Target(s, r).None? {}
    forall f: nat ensures RefCount(s, f) == 0 { CountZero(s, f); }
  }

  lemma SplitVpn(u: nat, v: nat)
    requires u != v
    ensures (u / NPT, u % NPT) != (v / NPT, v % NPT)
  {}

  class Kernel {
    const npages: nat
    const bootEnd: nat               // PADDR(boot_alloc(0)) as a frame number
    var sp: Space                    // physical memory, every env_pgdir, and kern_pgdir
    var al: Alloc                    // pages[] and page_free_list
    var tb: Table                    // envs[], env_free_list and curenv
    ghost var reserved: set<Frame>   // frames drivers took at boot and keep off the list
    var wrapped: bool                // whether some pp_ref increment went past 65535

    /** Frames page_init hands to the allocator. */
    ghost function Managed(): set<Frame> {
      set f: nat | 0 <= f < npages && InitiallyFree(npages, bootEnd, f)
    }

    ghost predicate MemInv(owed: multiset<Frame>, limbo: set<Frame>)
      reads `sp, `al
    {
      Sound(sp, Managed(), al, owed, limbo)
    }

    // ---- boot: page_init, env_init and boot_map_region ----

    /** The kernel after page_init and env_init, over whatever the RAM held. */
    constructor (npages: nat, bootEnd: nat, kdir: Frame, ram: seq<seq<Entry>>)
      requires 0x100 < bootEnd <= npages == |ram| && 0x100 <= kdir < bootEnd
      requires forall f :: 0 <= f < npages ==> |ram[f]| == NPT
      ensures Valid() && !wrapped && tb.cur.None? && reserved == {} && this.npages == npages && this.bootEnd == bootEnd
      ensures (forall f :: f in al.free <==> f in Managed()) && tb.free == seq(NENV, i => i)
      ensures forall o: nat, d: nat, t: nat :: PteAt(sp, o, d, t).None?
      ensures forall e :: 0 <= e < NENV ==> sp.pgdir[e].None?
    {
      this.npages, this.bootEnd := npages, bootEnd;
      var blank := seq(NPT, _ => ZERO)[UVPTX := Entry(kdir, 5)];
      sp := Space(ram[kdir := blank], seq(NENV, _ => None), kdir);
      var al := PageInit(npages, bootEnd);
      this.al := al;
      var tb := EnvInit();
      this.tb := tb;
      reserved, wrapped := {}, false;
      new;
      BareSpace(sp, Managed(), al);
    }

    /** One round of boot_map_region. */
    method BootMapPage(v: nat, ppn: nat, perm: nat) returns (ok: bool)
      requires MemInv(multiset{}, reserved) && KernelVpn(v) && forall e :: 0 <= e < NENV ==> sp.pgdir[e].None?
      modifies `sp, `al
      ensures MemInv(multiset{}, reserved) && sp.pgdir == old(sp).pgdir
      ensures !ok ==> al.free == []
      ensures ok ==> KernelPte(sp, v) == Some(Entry(ppn, OrP(perm)))
      ensures ok ==> forall u: nat :: u != v ==> KernelPte(sp, u) == KernelPte(old(sp), u)
    {
      var d, t := v / NPT, v % NPT;
      var pt := PgdirWalk(KERN, d, true, reserved);
      if pt.None? {
        return false;
      }
      ghost var s := sp;
      assert Target(sp, Tab(KERN, d)) == pt;
      sp := sp.(mem := sp.mem[pt.value := sp.mem[pt.value][t := Entry(ppn, OrP(perm))]]);
      SoundKernelPte(s, sp, Managed(), al, reserved, d, t, Entry(ppn, OrP(perm)));
      forall u: nat | u != v ensures KernelPte(sp, u) == KernelPte(s, u) { SplitVpn(u, v); }
      return true;
    }

    /** boot_map_region, in pages: [vpn, vpn + n) of the kernel's half maps to [ppn, ppn + n). */
    method BootMapRegion(vpn: nat, n: nat, ppn: nat, perm: nat) returns (ok: bool)
      requires MemInv(multiset{}, reserved) && forall e :: 0 <= e < NENV ==> sp.pgdir[e].None?
      requires forall v: nat :: vpn <= v < vpn + n ==> KernelVpn(v)
      modifies `sp, `al
      ensures MemInv(multiset{}, reserved) && sp.pgdir == old(sp).pgdir
      ensures !ok ==> al.free == []
      ensures ok ==> RegionMapped(old(sp), sp, vpn, n, ppn, OrP(perm))
    {
      for i := 0 to n
        invariant MemInv(multiset{}, reserved) && sp.pgdir == old(sp).pgdir
        invariant RegionMapped(old(sp), sp, vpn, i, ppn, OrP(perm))
      {
        ok := BootMapPage(vpn + i, ppn + i, perm);
        if !ok {
          return;
        }
      }
      return true;
    }

    // ---- kern/pmap.c ----

    method PageAlloc(zero: bool, ghost owed: multiset<Frame>, ghost limbo: set<Frame>) returns (r: Option<Frame>)
      requires MemInv(owed, limbo)
      modifies `sp, `al
      ensures r.None? <==> old(al.free) == []
      ensures r.None? ==> unchanged(this) && MemInv(owed, limbo)
      ensures r.Some? ==>
        && old(al.free) == [r.value] + al.free
        && r.value in Managed() && r.value !in limbo && Unreferenced(sp, r.value)
        && MemInv(owed, limbo + {r.value})
        && sp == old(sp).(mem := old(sp).mem[r.value := sp.mem[r.value]])
        && (zero ==> forall i :: 0 <= i < NPT ==> sp.mem[r.value][i] == ZERO)
        && SameTargets(old(sp), sp) && SamePtes(old(sp), sp)
    {
      if al.head.None? {
        return None;
      }
      var p := al.head.value;
      SoundPop(sp, Managed(), al, owed, limbo);
      al := Alloc(al.ref, al.link[p := None], al.link[p], al.free[1..]);
      if zero {
        sp := sp.(mem := sp.mem[p := seq(NPT, _ => ZERO)]);
        SoundData(old(sp), sp, Managed(), al, owed, limbo + {p}, p, sp.mem[p]);
      }
      return Some(p);
    }

    /** Neither panic of page_free can fire on a frame in limbo. */
    method PageFree(p: Frame, ghost owed: multiset<Frame>, ghost limbo: set<Frame>)
      requires MemInv(owed, limbo) && p in limbo
      modifies `al
      ensures MemInv(owed, limbo - {p}) && al.free == [p] + old(al.free) && al.ref == old(al.ref)
    {
      assert al.ref[p] == 0 && al.link[p] == None;
      SoundPush(sp, Managed(), al, owed, limbo, p);
      al := Alloc(al.ref, al.link[p := al.head], Some(p), [p] + al.free);
    }

    method PageDecref(p: Frame, ghost owed: multiset<Frame>, ghost limbo: set<Frame>)
      requires MemInv(owed, limbo) && p in owed && p in Managed()
      modifies `al
      ensures MemInv(owed - multiset{p}, limbo)
      ensures p < |old(al).ref| && old(al).ref[p] > 0 && al.ref == old(al).ref[p := old(al).ref[p] - 1]
      ensures al.free == if al.ref[p] == 0 then [p] + old(al.free) else old(al.free)
    {
      SoundSettle(sp, Managed(), al, owed, limbo, p);
      al := al.(ref := al.ref[p := al.ref[p] - 1]);
      if al.ref[p] == 0 {
        PageFree(p, owed - multiset{p}, limbo + {p});
        assert limbo + {p} - {p} == limbo;
      }
    }

    /** The branch of pgdir_walk that makes a table: clear it, count it, hook it into the directory. */
    method NewTable(o: nat, d: nat, ghost limbo: set<Frame>) returns (p: Option<Frame>)
      requires MemInv(multiset{}, limbo) && DirOf(sp, o).Some? && OwnPdx(o, d) && TabAt(sp, o, d).None?
      requires o == KERN ==> forall e :: 0 <= e < NENV ==> sp.pgdir[e].None?
      modifies `sp, `al
      ensures p.None? ==> unchanged(this) && al.free == []
      ensures p.Some? ==> old(al.free) == [p.value] + al.free
      ensures MemInv(multiset{}, limbo) && p == TabAt(sp, o, d) && sp.pgdir == old(sp).pgdir && sp.kdir == old(sp).kdir
      ensures SamePtes(old(sp), sp) && SameTargetsExcept(old(sp), sp, Tab(o, d))
      ensures Untouched(old(sp), sp, Managed(), old(al).free)
    {
      var dir := DirOf(sp, o).value;
      assert o < NENV ==> Target(sp, Dir(o)) == Some(dir);
      p := PageAlloc(true, multiset{}, limbo);
      if p.None? {
        return;
      }
      assert Target(sp, Tab(o, d)) == Target(old(sp), Tab(o, d));
      ghost var s, a := sp, al;
      al := al.(ref := al.ref[p.value := (al.ref[p.value] + 1) % (MAXREF + 1)]);
      sp := sp.(mem := sp.mem[dir := sp.mem[dir][d := Entry(p.value, 7)]]);
      SoundInstallTable(s, sp, Managed(), a, al, limbo, o, d, p.value);
    }

    /** pgdir_walk: the table that holds the entry of (o, d, _), created blank on demand. */
    method PgdirWalk(o: nat, d: nat, create: bool, ghost limbo: set<Frame>) returns (pt: Option<Frame>)
      requires MemInv(multiset{}, limbo) && DirOf(sp, o).Some? && OwnPdx(o, d)
      requires o == KERN ==> forall e :: 0 <= e < NENV ==> sp.pgdir[e].None?
      modifies `sp, `al
      ensures MemInv(multiset{}, limbo) && pt == TabAt(sp, o, d) && sp.pgdir == old(sp).pgdir && sp.kdir == old(sp).kdir
      ensures pt.None? ==> unchanged(this) && (create ==> al.free == [])
      ensures SamePtes(old(sp), sp) && SameTargetsExcept(old(sp), sp, Tab(o, d))
      ensures Untouched(old(sp), sp, Managed(), old(al).free)
      ensures TabAt(old(sp), o, d).Some? ==> unchanged(this)
      ensures TabAt(old(sp), o, d).None? && pt.Some? ==> create && old(al.free) == [pt.value] + al.free
    {
      var dir := DirOf(sp, o).value;
      assert o < NENV ==> Target(sp, Dir(o)) == Some(dir);
      var pde := sp.mem[dir][d];
      if Present(pde) {
        return Some(pde.frame);
      }
      if !create {
        return None;
      }
      pt := NewTable(o, d, limbo);
    }

    /** page_lookup, together with the pte it finds. */
    method PageLookup(e: nat, d: nat, t: nat, ghost limbo: set<Frame>) returns (pte: Option<Entry>)
      requires MemInv(multiset{}, limbo) && e < NENV && sp.pgdir[e].Some? && d < UTOPX && t < NPT
      ensures pte == PteAt(sp, e, d, t)
      ensures pte.Some? ==> DataFrame(sp, Managed(), pte.value.frame) && !Unreferenced(sp, pte.value.frame)
    {
      assert Target(sp, Dir(e)) == sp.pgdir[e];
      var pde := sp.mem[sp.pgdir[e].value][d];
      if !Present(pde) {
        return None;
      }
      assert Target(sp, Tab(e, d)) == Some(pde.frame);
      var w := sp.mem[pde.frame][t];
      if !Present(w) {
        return None;
      }
      assert Target(sp, Page(e, d, t)) == Some(w.frame);
      return Some(w);
    }

    method PageRemove(e: nat, d: nat, t: nat, ghost limbo: set<Frame>)
      requires MemInv(multiset{}, limbo) && e < NENV && sp.pgdir[e].Some? && d < UTOPX && t < NPT
      modifies `sp, `al
      ensures MemInv(multiset{}, limbo) && sp.pgdir == old(sp).pgdir && sp.kdir == old(sp).kdir
      ensures PteAt(sp, e, d, t).None?
      ensures SamePtesExcept(old(sp), sp, e, d, t)
      ensures SameTargetsExcept(old(sp), sp, Page(e, d, t))
      ensures Untouched(old(sp), sp, Managed(), [])
      ensures PteAt(old(sp), e, d, t).None? ==> unchanged(this)
    {
      var pte := PageLookup(e, d, t, limbo);
      if pte.None? {
        return;
      }
      assert Target(sp, Tab(e, d)) == TabAt(sp, e, d);
      var page := pte.value.frame;
      var tf := sp.mem[sp.pgdir[e].value][d].frame;
      sp := sp.(mem := sp.mem[tf := sp.mem[tf][t := ZERO]]);
      SoundClearPte(old(sp), sp, Managed(), al, limbo, e, d, t);
      PageDecref(page, multiset{page}, limbo);
      assert multiset{page} - multiset{page} == multiset{};
    }

    /** `*pte = page2pa(pp)|perm|PTE_P; pp->pp_ref++` on an entry that maps nothing. */
    method FillPte(e: nat, pp: Frame, d: nat, t: nat, perm: nat, ghost limbo: set<Frame>)
      requires MemInv(multiset{}, limbo) && e < NENV && TabAt(sp, e, d).Some? && t < NPT
      requires PteAt(sp, e, d, t).None?
      requires DataFrame(sp, Managed(), pp) && (pp in limbo || !Unreferenced(sp, pp))
      modifies `sp, `al, `wrapped
      ensures Mapped(old(sp), sp, Managed(), e, d, t, Entry(pp, OrP(perm))) && sp.pgdir == old(sp).pgdir
      ensures RefCount(sp, pp) == RefCount(old(sp), pp) + 1
      ensures Untouched(old(sp), sp, Managed(), [])
      ensures wrapped <==> old(wrapped) || RefCount(sp, pp) > MAXREF
      ensures RefCount(sp, pp) <= MAXREF ==> MemInv(multiset{}, limbo - {pp})
    {
      var tf := sp.mem[sp.pgdir[e].value][d].frame;
      assert Target(sp, Tab(e, d)) == Some(tf);
      sp := sp.(mem := sp.mem[tf := sp.mem[tf][t := Entry(pp, OrP(perm))]]);
      wrapped := wrapped || al.ref[pp] == MAXREF;
      al := al.(ref := al.ref[pp := (al.ref[pp] + 1) % (MAXREF + 1)]);
      SoundSetPte(old(sp), sp, Managed(), old(al), al, limbo, e, d, t, Entry(pp, OrP(perm)));
    }

    /** page_insert of the page that is there already: only the permissions change. */
    method Repermit(e: nat, pp: Frame, d: nat, t: nat, perm: nat, ghost limbo: set<Frame>)
      requires MemInv(multiset{}, limbo) && e < NENV && PteAt(sp, e, d, t).Some? && PteAt(sp, e, d, t).value.frame == pp
      requires DataFrame(sp, Managed(), pp)
      modifies `sp
      ensures Mapped(old(sp), sp, Managed(), e, d, t, Entry(pp, OrP(perm))) && sp.pgdir == old(sp).pgdir
      ensures RefCount(sp, pp) == RefCount(old(sp), pp) && SameTargets(old(sp), sp)
      ensures Untouched(old(sp), sp, Managed(), [])
      ensures MemInv(multiset{}, limbo - {pp})
    {
      var tf := sp.mem[sp.pgdir[e].value][d].frame;
      assert Target(sp, Tab(e, d)) == Some(tf);
      sp := sp.(mem := sp.mem[tf := sp.mem[tf][t := Entry(pp, OrP(perm))]]);
      SoundRepermit(old(sp), sp, Managed(), al, limbo, e, d, t, Entry(pp, OrP(perm)));
    }

    /** The branch of page_insert that drops whatever other page is mapped there; pp keeps its references. */
    method MakeRoom(e: nat, pp: Frame, d: nat, t: nat, ghost limbo: set<Frame>)
      requires MemInv(multiset{}, limbo) && e < NENV && TabAt(sp, e, d).Some? && t < NPT
      requires PteAt(sp, e, d, t).Some? && PteAt(sp, e, d, t).value.frame != pp
      requires DataFrame(sp, Managed(), pp) && (pp in limbo || !Unreferenced(sp, pp))
      modifies `sp, `al
      ensures MemInv(multiset{}, limbo) && sp.pgdir == old(sp).pgdir && PteAt(sp, e, d, t).None?
        && TabAt(sp, e, d).Some?
      ensures DataFrame(sp, Managed(), pp) && (pp in limbo || !Unreferenced(sp, pp))
      ensures SamePtesExcept(old(sp), sp, e, d, t) && SameTargetsExcept(old(sp), sp, Page(e, d, t))
      ensures Untouched(old(sp), sp, Managed(), []) && RefCount(sp, pp) == RefCount(old(sp), pp)
    {
      assert Target(sp, Tab(e, d)) == TabAt(sp, e, d);
      PageRemove(e, d, t, limbo);
      assert Target(sp, Tab(e, d)) == TabAt(sp, e, d);
      DataKept(old(sp), sp, Managed(), Page(e, d, t), pp);
    }

    /** The second half of page_insert, once pgdir_walk has found the table. */
    method StorePte(e: nat, pp: Frame, d: nat, t: nat, perm: nat, ghost limbo: set<Frame>)
      requires MemInv(multiset{}, limbo) && e < NENV && TabAt(sp, e, d).Some? && t < NPT
      requires DataFrame(sp, Managed(), pp) && (pp in limbo || !Unreferenced(sp, pp))
      modifies `sp, `al, `wrapped
      ensures Mapped(old(sp), sp, Managed(), e, d, t, Entry(pp, OrP(perm))) && sp.pgdir == old(sp).pgdir
      ensures RefCount(sp, pp) == RefCount(old(sp), pp) + Grows(old(sp), e, d, t, pp)
      ensures Untouched(old(sp), sp, Managed(), [])
      ensures wrapped <==> old(wrapped) || RefCount(sp, pp) > MAXREF
      ensures RefCount(sp, pp) <= MAXREF ==> MemInv(multiset{}, limbo - {pp})
    {
      var tf := sp.mem[sp.pgdir[e].value][d].frame;
      assert Target(sp, Tab(e, d)) == Some(tf);
      var pte := sp.mem[tf][t];
      if Present(pte) {
        if pte.frame == pp {
          Repermit(e, pp, d, t, perm, limbo);
          return;
        }
        MakeRoom(e, pp, d, t, limbo);
      }
      ghost var s := sp;
      FillPte(e, pp, d, t, perm, limbo);
      UntouchedTwice(old(sp), s, sp, Managed(), [], [], Page(e, d, t));
    }

    /** page_insert's walk: a new table is a frame off the list, so it is not the page to be mapped. */
    method TableFor(e: nat, pp: Frame, d: nat, ghost limbo: set<Frame>) returns (ok: bool)
      requires MemInv(multiset{}, limbo) && e < NENV && sp.pgdir[e].Some? && d < UTOPX
      requires DataFrame(sp, Managed(), pp) && (pp in limbo || !Unreferenced(sp, pp))
      modifies `sp, `al
      ensures !ok ==> unchanged(this) && al.free == [] && TabAt(sp, e, d).None?
      ensures ok ==> MemInv(multiset{}, limbo) && TabAt(sp, e, d).Some?
      ensures DataFrame(sp, Managed(), pp) && (pp in limbo || !Unreferenced(sp, pp))
      ensures RefCount(sp, pp) == RefCount(old(sp), pp) && sp.pgdir == old(sp).pgdir
      ensures SamePtes(old(sp), sp) && SameTargetsExcept(old(sp), sp, Tab(e, d))
      ensures Untouched(old(sp), sp, Managed(), old(al).free)
      ensures Target(sp, Tab(e, d)) == Target(old(sp), Tab(e, d))
           || (Target(sp, Tab(e, d)).Some? && Target(sp, Tab(e, d)).value in old(al).free)
    {
      var pt := PgdirWalk(e, d, true, limbo);
      ok := pt.Some?;
      if ok {
        assert Target(sp, Tab(e, d)) == pt;
        DataKept(old(sp), sp, Managed(), Tab(e, d), pp);
      }
    }

    /**
     page_insert.  pp_ref has 16 bits: the counts stay exact when the page ends up
     with at most MAXREF references (and SoundIsBounded says they cannot otherwise).
     */
    method PageInsert(e: nat, pp: Frame, d: nat, t: nat, perm: nat, ghost limbo: set<Frame>) returns (r: int)
      requires MemInv(multiset{}, limbo) && e < NENV && sp.pgdir[e].Some? && d < UTOPX && t < NPT
      requires DataFrame(sp, Managed(), pp) && (pp in limbo || !Unreferenced(sp, pp))
      modifies `sp, `al, `wrapped
      ensures r == 0 || r == E_NO_MEM
      ensures r == E_NO_MEM ==> unchanged(this) && al.free == [] && TabAt(old(sp), e, d).None?
      ensures r == 0 ==> Shape(sp) && Inserted(old(sp), sp, e, d, t, Entry(pp, OrP(perm)))
      ensures r == 0 ==> (wrapped <==> old(wrapped) || RefCount(sp, pp) > MAXREF)
      ensures r == 0 && RefCount(sp, pp) <= MAXREF ==> MemInv(multiset{}, limbo - {pp})
      ensures r == 0 ==> RefCount(sp, pp) == RefCount(old(sp), pp) + Grows(old(sp), e, d, t, pp)
      ensures r == 0 ==> Untouched(old(sp), sp, Managed(), old(al).free)
    {
      var ok := TableFor(e, pp, d, limbo);
      if !ok {
        return E_NO_MEM;
      }
      ghost var s := sp;
      StorePte(e, pp, d, t, perm, limbo);
      InsertedThrough(old(sp), s, sp, Managed(), e, d, t, Entry(pp, OrP(perm)));
      UntouchedTwice(old(sp), s, sp, Managed(), old(al).free, [], Tab(e, d));
      return 0;
    }

    // ---- kern/env.c ----

    ghost predicate EnvInv()
      reads `sp, `tb
    {
      Orderly(tb, sp.pgdir)
    }

    /** What holds between system calls. */
    ghost predicate Valid()
      reads this
    {
      MemInv(multiset{}, reserved) && EnvInv()
    }

    /** envid2env, as a search by id: it answers exactly when a live, permitted environment has that id. */
    method EnvidToEnv(envid: int, checkperm: bool) returns (r: Option<nat>)
      requires EnvInv() && tb.cur.Some?
      ensures r.Some? ==> Names(tb, envid, r.value) && (checkperm ==> MayChange(tb, r.value))
      ensures r.None? ==> forall i: nat :: Names(tb, envid, i) ==> checkperm && !MayChange(tb, i)
    {
      if envid == 0 {
        return tb.cur;
      }
      var e := Slot(envid);
      forall i: nat | Names(tb, envid, i) ensures i == e {
        IdsRecur(tb.allocs[i], i, tb.allocs[i], i);
      }
      if tb.envs[e].status == FREE || tb.envs[e].id != envid {
        return None;
      }
      if checkperm && Some(e) != tb.cur && tb.envs[e].parent != tb.envs[tb.cur.value].id {
        return None;
      }
      return Some(e);
    }

    /** The loop of env_setup_vm: repeat the kernel's directory above UTOP. */
    method CopyKernelHalf(f: Frame)
      requires Shape(sp) && f < |sp.mem| && f != sp.kdir
      requires forall d :: 0 <= d < UTOPX ==> sp.mem[f][d] == ZERO
      modifies `sp
      ensures |sp.mem| == |old(sp).mem| && sp == old(sp).(mem := old(sp).mem[f := sp.mem[f]]) && |sp.mem[f]| == NPT
      ensures forall d :: 0 <= d < UTOPX ==> sp.mem[f][d] == ZERO
      ensures forall d :: UTOPX <= d < NPT && d != UVPTX ==> sp.mem[f][d] == sp.mem[sp.kdir][d]
      ensures sp.mem[f][UVPTX] == Entry(f, 5)
    {
      for i := UTOPX to NPT
        invariant |sp.mem| == |old(sp).mem| && sp == old(sp).(mem := old(sp).mem[f := sp.mem[f]]) && |sp.mem[f]| == NPT
        invariant forall d :: 0 <= d < UTOPX ==> sp.mem[f][d] == ZERO
        invariant forall d :: UTOPX <= d < i ==> sp.mem[f][d] == sp.mem[sp.kdir][d]
      {
        sp := sp.(mem := sp.mem[f := sp.mem[f][i := sp.mem[sp.kdir][i]]]);
      }
      sp := sp.(mem := sp.mem[f := sp.mem[f][UVPTX := Entry(f, 5)]]);
    }

    /** env_setup_vm: a directory with an empty user half and the kernel's upper half. */
    method EnvSetupVm(e: nat) returns (r: int)
      requires MemInv(multiset{}, reserved) && e < NENV && sp.pgdir[e].None?
      modifies `sp, `al
      ensures r == 0 || r == E_NO_MEM
      ensures MemInv(multiset{}, reserved)
      ensures r == E_NO_MEM ==> unchanged(this)
      ensures r == E_NO_MEM <==> old(al).free == []
      ensures r == 0 ==> sp.pgdir[e].Some? && sp.pgdir == old(sp).pgdir[e := sp.pgdir[e]]
      ensures SamePtes(old(sp), sp) && SameTargetsExcept(old(sp), sp, Dir(e)) && (r == 0 ==> PagesKept(old(sp), sp))
    {
      var p := PageAlloc(true, multiset{}, reserved);
      if p.None? {
        return E_NO_MEM;
      }
      var f := p.value;
      ghost var s := sp;
      CopyKernelHalf(f);
      SoundData(s, sp, Managed(), al, multiset{}, reserved + {f}, f, sp.mem[f]);
      ghost var s1, a1 := sp, al;
      sp := sp.(pgdir := sp.pgdir[e := Some(f)]);
      al := al.(ref := al.ref[f := (al.ref[f] + 1) % (MAXREF + 1)]);
      SoundInstallDir(s1, sp, Managed(), a1, al, reserved, e, f);
      FreshKeeps(old(sp), s1, sp, Managed(), old(al), a1, reserved, f);
      return 0;
    }

    /** env_alloc.  The IPC fields of the slot are left as its last user had them. */
    method EnvAlloc(parent: int) returns (r: int, e: nat)
      requires Valid()
      modifies `sp, `al, `tb
      ensures Valid()
      ensures r == 0 || r == E_NO_FREE_ENV || r == E_NO_MEM
      ensures r == E_NO_FREE_ENV <==> old(tb.free) == []
      ensures old(tb.free) != [] ==> (r == E_NO_MEM <==> old(al.free) == [])
      ensures r != 0 ==> unchanged(this)
      ensures r == 0 ==> SlotGiven(old(tb), tb, e, parent) && PagesKept(old(sp), sp)
      ensures SamePtes(old(sp), sp) && SameTargetsExcept(old(sp), sp, Dir(e))
    {
      if tb.head.None? {
        return E_NO_FREE_ENV, 0;
      }
      e := tb.head.value;
      assert e in tb.free;
      r := EnvSetupVm(e);
      if r == 0 {
        tb := tb.(envs := tb.envs[e := tb.envs[e].(id := NextId(tb.envs[e].id, e), parent := parent,
                                                   status := RUNNABLE)],
                  allocs := tb.allocs[e := tb.allocs[e] + 1], head := tb.link[e], free := tb.free[1..]);
        SlotTaken(old(tb), tb, old(sp).pgdir, sp.pgdir, e, parent);
      }
    }

    /** One round of env_free's outer loop: empty the page table of pdeno, then free it. */
    method FreeTable(e: nat, pdeno: nat, ghost s0: Space)
      requires MemInv(multiset{}, reserved) && e < NENV && sp.pgdir[e].Some? && pdeno < UTOPX
      requires Shape(s0) && Torn(s0, sp, e, pdeno, 0) && Untouched(s0, sp, Managed(), [])
      modifies `sp, `al
      ensures MemInv(multiset{}, reserved) && sp.pgdir == old(sp).pgdir
      ensures Torn(s0, sp, e, pdeno + 1, 0) && Untouched(s0, sp, Managed(), [])
    {
      var pde := sp.mem[sp.pgdir[e].value][pdeno];
      assert Target(sp, Dir(e)) == sp.pgdir[e];
      if !Present(pde) {
        TornAbsent(s0, sp, e, pdeno);
        return;
      }
      var pt := pde.frame;
      for pteno := 0 to NPT
        invariant MemInv(multiset{}, reserved) && sp.pgdir == old(sp).pgdir
        invariant Torn(s0, sp, e, pdeno, pteno) && Untouched(s0, sp, Managed(), [])
        invariant TabAt(sp, e, pdeno) == Some(pt)
      {
        assert Target(sp, Tab(e, pdeno)) == Some(pt);
        ghost var s := sp;
        if Present(sp.mem[pt][pteno]) {
          PageRemove(e, pdeno, pteno, reserved);
          UntouchedTorn(s0, s, sp, Managed(), e, pdeno, pteno);
          assert Target(sp, Tab(e, pdeno)) == Some(pt);
        }
        TornPage(s0, s, sp, e, pdeno, pteno);
      }
      ghost var s := sp;
      TornEmpty(s0, s, e, pdeno);
      var dir := sp.pgdir[e].value;
      sp := sp.(mem := sp.mem[dir := sp.mem[dir][pdeno := ZERO]]);
      SoundClearTable(s, sp, Managed(), al, reserved, e, pdeno);
      UntouchedTorn(s0, s, sp, Managed(), e, pdeno, NPT);
      TornTable(s0, s, sp, e, pdeno);
      PageDecref(pt, multiset{pt}, reserved);
      assert multiset{pt} - multiset{pt} == multiset{};
    }

    /** The memory half of env_free: user pages, page tables, then the directory. */
    method ReleaseSpace(e: nat)
      requires MemInv(multiset{}, reserved) && e < NENV && sp.pgdir[e].Some?
      modifies `sp, `al
      ensures MemInv(multiset{}, reserved) && Released(old(sp), sp, e)
      ensures sp.pgdir == old(sp).pgdir[e := None] && PagesKept(old(sp), sp)
    {
      for pdeno := 0 to UTOPX
        invariant MemInv(multiset{}, reserved) && sp.pgdir == old(sp).pgdir
        invariant Torn(old(sp), sp, e, pdeno, 0) && Untouched(old(sp), sp, Managed(), [])
      {
        FreeTable(e, pdeno, old(sp));
      }
      ghost var s := sp;
      forall d: nat ensures TabAt(s, e, d).None? {
        assert Target(s, Tab(e, d)) == TabAt(s, e, d);
      }
      var dir := sp.pgdir[e].value;
      sp := sp.(pgdir := sp.pgdir[e := None]);
      SoundRemoveDir(s, sp, Managed(), al, reserved, e);
      TornIsReleased(old(sp), s, sp, e);
      UntouchedKeeps(old(sp), sp, Managed(), old(al), reserved);
      PageDecref(dir, multiset{dir}, reserved);
      assert multiset{dir} - multiset{dir} == multiset{};
    }

    /**
     env_free: every reference of e is dropped, no other reference moves, and the
     slot is free again.  curenv is left for env_destroy to clear.
     */
    method EnvFree(e: nat)
      requires Valid() && e < NENV && tb.envs[e].status != FREE
      modifies `sp, `al, `tb
      ensures MemInv(multiset{}, reserved) && Released(old(sp), sp, e) && PagesKept(old(sp), sp)
      ensures Orderly(tb.(cur := if tb.cur == Some(e) then None else tb.cur), sp.pgdir)
      ensures tb == old(tb).(envs := tb.envs, link := tb.link, head := Some(e), free := [e] + old(tb).free)
      ensures tb.envs == old(tb).envs[e := old(tb).envs[e].(status := FREE)]
    {
      ReleaseSpace(e);
      tb := tb.(envs := tb.envs[e := tb.envs[e].(status := FREE)], link := tb.link[e := tb.head],
                head := Some(e), free := [e] + tb.free);
      SlotReturned(old(tb), tb.(cur := if tb.cur == Some(e) then None else tb.cur), old(sp).pgdir, e);
    }

    /** env_run, up to the return to user mode. */
    method EnvRun(e: nat)
      requires EnvInv() && e < NENV && (tb.envs[e].status == RUNNABLE || tb.envs[e].status == RUNNING)
      modifies `tb
      ensures EnvInv() && tb.envs[e].status == RUNNING && OnlyStatus(old(tb).envs, tb.envs)
      ensures tb == old(tb).(envs := Handed(old(tb).envs, old(tb).cur, e), cur := Some(e))
    {
      var envs := tb.envs;
      if tb.cur.Some? && envs[tb.cur.value].status == RUNNING {
        envs := envs[tb.cur.value := envs[tb.cur.value].(status := RUNNABLE)];
      }
      tb := tb.(cur := Some(e), envs := envs[e := envs[e].(status := RUNNING)]);
      StatusMoved(old(tb), tb, sp.pgdir);
    }

    /**
     sched_yield picks the nearest runnable slot after the current one; `ran` is false when it drops into the monitor.
     */
    method SchedYield() returns (ran: bool)
      requires EnvInv()
      modifies `tb
      ensures EnvInv() && OnlyStatus(old(tb).envs, tb.envs) && tb == old(tb).(envs := tb.envs, cur := tb.cur)
      ensures Scheduled(old(tb), tb, !ran) && (ran ==> RunsOn(tb))
    {
      if tb.cur.Some? { IdsRecur(tb.allocs[tb.cur.value], tb.cur.value, tb.allocs[tb.cur.value], tb.cur.value); }
      var from := if tb.cur.None? then NENV - 1 else Slot(tb.envs[tb.cur.value].id);
      var k := FindRunnable(tb.envs, from);
      if k.Some? {
        EnvRun(k.value);
      }
      return k.Some?;
    }

    /** env_destroy; `ended` says it gave the CPU away, and `halted` that there was nothing to run. */
    method EnvDestroy(e: nat) returns (ended: bool, halted: bool)
      requires Valid() && e < NENV && tb.envs[e].status != FREE
      modifies `sp, `al, `tb
      ensures Valid()
      ensures Released(old(sp), sp, e) && PagesKept(old(sp), sp)
      ensures ended <==> old(tb).cur == Some(e)
      ensures OnlyStatus(old(tb).envs[e := old(tb).envs[e].(status := FREE)], tb.envs)
      ensures Posted(old(tb), tb, Quiet)
      ensures !ended ==> !halted && tb.cur == old(tb).cur
      ensures !ended ==> tb.envs == old(tb).envs[e := old(tb).envs[e].(status := FREE)]
      ensures ended ==>
        Scheduled(old(tb).(envs := old(tb).envs[e := old(tb).envs[e].(status := FREE)], cur := None), tb, halted)
    {
      EnvFree(e);
      Enter(old(tb), tb, Quiet);
      if tb.cur == Some(e) {
        tb := tb.(cur := None);
        ghost var look := tb;
        Enter(old(tb), tb, Quiet);
        var ran := SchedYield();
        PostedThen(old(tb), look, tb, Quiet);
        return true, !ran;
      }
      return false, false;
    }

    // ---- kern/syscall.c ----

    /** The counts are exact. */
    ghost predicate Counted()
      reads `sp, `al, `reserved
    {
      MemInv(multiset{}, reserved)
    }

    /** sys_page_alloc once its arguments are checked. */
    method AllocAt(e: nat, d: nat, t: nat, perm: nat) returns (r: int)
      requires Counted() && e < NENV && sp.pgdir[e].Some? && d < UTOPX && t < NPT && OrP(perm) == perm
      modifies `sp, `al, `wrapped
      ensures Counted() && wrapped == old(wrapped) && sp.pgdir == old(sp).pgdir
      ensures r == 0 || r == E_NO_MEM
      ensures r == 0 ==> old(al).free != [] && FreshPage(old(sp), sp, e, d, t, perm, old(al).free[0])
      ensures r != 0 ==> SamePtes(old(sp), sp) && al.free == old(al).free && |al.free| <= 1
      ensures PagesKept(old(sp), sp)
    {
      var page := PageAlloc(true, multiset{}, reserved);
      if page.None? {
        UntouchedKeeps(sp, sp, Managed(), al, reserved);
        return E_NO_MEM;
      }
      var p := page.value;
      ghost var s, a := sp, al;
      assert reserved + {p} - {p} == reserved;
      CountZero(sp, p);
      r := PageInsert(e, p, d, t, perm, reserved + {p});
      FreshKeeps(old(sp), s, sp, Managed(), old(al), a, reserved, p);
      if r != 0 {
        PageFree(p, multiset{}, reserved + {p});
      }
    }

    method SysPageAlloc(envid: int, va: nat, perm: nat) returns (r: int)
      requires Valid() && tb.cur.Some?
      modifies `sp, `al, `wrapped
      ensures Valid() && wrapped == old(wrapped) && (r != 0 ==> al.free == old(al).free)
      ensures PageAllocDone(old(sp), old(al), tb, sp, envid, va, perm, r)
    {
      UntouchedKeeps(sp, sp, Managed(), al, reserved);
      if !UserPage(va) {
        return E_INVAL;
      }
      if !AsksUser(perm) {
        return E_INVAL;
      }
      if !OnlySyscallBits(perm) {
        return E_INVAL;
      }
      var env := EnvidToEnv(envid, false);
      if env.None? {
        return E_BAD_ENV;
      }
      UserPagesDistinct(va, va);
      r := AllocAt(env.value, Pdx(va), Ptx(va), perm);
    }

    /** The common tail of sys_page_map and sys_ipc_try_send. */
    method MapAt(src: nat, sd: nat, st: nat, dst: nat, dd: nat, dt: nat, perm: nat) returns (r: int)
      requires Counted() && src < NENV && dst < NENV && sp.pgdir[src].Some? && sp.pgdir[dst].Some?
      requires sd < UTOPX && st < NPT && dd < UTOPX && dt < NPT && OrP(perm) == perm
      modifies `sp, `al, `wrapped
      ensures r == 0 || r == E_INVAL || r == E_NO_MEM
      ensures r != 0 ==> unchanged(this)
      ensures r == E_INVAL <==> Denied(old(sp), src, sd, st, perm)
      ensures r == E_NO_MEM ==> al.free == []
      ensures r == 0 ==> Shape(sp) && Shared(old(sp), sp, src, sd, st, dst, dd, dt, perm) && PagesKept(old(sp), sp)
      ensures r == 0 ==>
        RefCount(sp, PteAt(old(sp), src, sd, st).value.frame) == CountAfter(old(sp), src, sd, st, dst, dd, dt)
      ensures r == 0 && CountAfter(old(sp), src, sd, st, dst, dd, dt) <= MAXREF ==> Counted()
      ensures r == 0 ==> (wrapped <==> old(wrapped) || CountAfter(old(sp), src, sd, st, dst, dd, dt) > MAXREF)
    {
      var pte := PageLookup(src, sd, st, reserved);
      if pte.None? {
        return E_INVAL;
      }
      if !Writable(pte.value) && perm / 2 % 2 == 1 {
        return E_INVAL;
      }
      CountZero(sp, pte.value.frame);
      assert reserved - {pte.value.frame} == reserved;
      r := PageInsert(dst, pte.value.frame, dd, dt, perm, reserved);
      if r == 0 { UntouchedKeeps(old(sp), sp, Managed(), old(al), reserved); }
    }

    /** The counts are exact when no page has more references than 16 bits hold, and then only. */
    ghost predicate ExactIfBounded()
      reads `sp, `al, `reserved
    {
      Shape(sp) && (Counted() <==> Bounded(sp))
    }

    /** MapAt in terms of addresses. */
    method MapVa(src: nat, srcva: nat, dst: nat, dva: nat, perm: nat) returns (r: int)
      requires Counted() && src < NENV && dst < NENV && sp.pgdir[src].Some? && sp.pgdir[dst].Some?
      requires srcva < UTOP && dva < UTOP && OrP(perm) == perm
      modifies `sp, `al, `wrapped
      ensures r == 0 || r == E_INVAL || r == E_NO_MEM
      ensures r != 0 ==> unchanged(this)
      ensures r == E_INVAL <==> Denied(old(sp), src, Pdx(srcva), Ptx(srcva), perm)
      ensures r == E_NO_MEM ==> al.free == []
      ensures r == 0 ==> MappedPage(old(sp), sp, src, srcva, dst, dva, perm)
      ensures sp.pgdir == old(sp).pgdir && ExactIfBounded() && (!old(wrapped) ==> (wrapped <==> !Bounded(sp)))
    {
      SoundIsBounded(sp, Managed(), al, reserved);
      r := MapAt(src, Pdx(srcva), Ptx(srcva), dst, Pdx(dva), Ptx(dva), perm);
      if r == 0 && Counted() { SoundIsBounded(sp, Managed(), al, reserved); }
    }

    /** sys_page_map.  The counts stay exact exactly when the page ends up with at most MAXREF references. */
    method SysPageMap(srcid: int, srcva: nat, dstid: int, dstva: nat, perm: nat) returns (r: int)
      requires Valid() && tb.cur.Some?
      modifies `sp, `al, `wrapped
      ensures EnvInv() && (r != 0 ==> unchanged(this))
      ensures PageMapDone(old(sp), old(al), tb, sp, srcid, srcva, dstid, dstva, perm, r)
      ensures ExactIfBounded() && (!old(wrapped) ==> (wrapped <==> !Bounded(sp)))
    {
      SoundIsBounded(sp, Managed(), al, reserved);
      if !UserPage(srcva) || !UserPage(dstva) {
        return E_INVAL;
      }
      if !AsksUser(perm) {
        return E_INVAL;
      }
      if !OnlySyscallBits(perm) {
        return PANIC;
      }
      var srce := EnvidToEnv(srcid, false);
      if srce.None? {
        return E_BAD_ENV;
      }
      var dste := EnvidToEnv(dstid, false);
      if dste.None? {
        return E_BAD_ENV;
      }
      r := MapVa(srce.value, srcva, dste.value, dstva, perm);
    }

    method SysPageUnmap(envid: int, va: nat) returns (r: int)
      requires Valid() && tb.cur.Some?
      modifies `sp, `al
      ensures Valid() && (r != 0 ==> unchanged(this))
      ensures PageUnmapDone(old(sp), tb, sp, envid, va, r)
    {
      UntouchedKeeps(sp, sp, Managed(), al, reserved);
      if !UserPage(va) {
        return E_INVAL;
      }
      var env := EnvidToEnv(envid, false);
      if env.None? {
        return E_BAD_ENV;
      }
      UserPagesDistinct(va, va);
      PageRemove(env.value, Pdx(va), Ptx(va), reserved);
      UntouchedKeeps(old(sp), sp, Managed(), old(al), reserved);
      r := 0;
    }

    /** The store after env_alloc in sys_exofork; `t` is the table before env_alloc. */
    method MarkChild(slot: nat, ghost t: Table)
      requires EnvInv() && t.cur.Some? && t.cur.value < |t.envs| && SlotGiven(t, tb, slot, t.envs[t.cur.value].id)
      modifies `tb
      ensures EnvInv() && tb.cur == t.cur && Posted(t, tb, Forked(slot))
      ensures slot < NENV && tb.envs[slot].id > 0 && Child(t, tb, slot, tb.envs[slot].id)
    {
      tb := tb.(envs := tb.envs[slot := tb.envs[slot].(status := NOT_RUNNABLE)]);
      ChildMade(t, old(tb), tb, sp.pgdir, slot);
    }

    /** env_alloc for the caller, and the store after it. */
    method AllocChild() returns (r: int, slot: nat)
      requires Valid() && tb.cur.Some?
      modifies `sp, `al, `tb
      ensures Valid() && tb.cur == old(tb).cur && SamePtes(old(sp), sp)
      ensures r == E_NO_FREE_ENV <==> old(tb).free == []
      ensures r != 0 ==> unchanged(this) && (r == E_NO_FREE_ENV || (r == E_NO_MEM && al.free == []))
      ensures r == 0 ==> slot < NENV && Child(old(tb), tb, slot, tb.envs[slot].id) && tb.envs[slot].id > 0
      ensures r == 0 ==> PagesKept(old(sp), sp)
      ensures r == 0 ==> Posted(old(tb), tb, Forked(slot))
    {
      r, slot := EnvAlloc(tb.envs[tb.cur.value].id);
      if r == 0 {
        MarkChild(slot, old(tb));
      }
    }

    /** sys_exofork: a new environment with an empty address space, not yet runnable. */
    method SysExofork() returns (r: int, ghost post: Post)
      requires Valid() && tb.cur.Some?
      modifies `sp, `al, `tb
      ensures Valid() && tb.cur == old(tb).cur && (r <= 0 ==> unchanged(this))
      ensures Posted(old(tb), tb, post) && PostOf(old(tb), Exofork, r, post)
      ensures ExoforkDone(old(sp), old(al), old(tb), sp, tb, r)
    {
      var slot;
      r, slot := AllocChild();
      if r == 0 {
        post := Forked(slot);
        r := tb.envs[slot].id;
        ExoforkMade(old(sp), old(al), old(tb), sp, tb, slot, r);
      } else {
        post := Quiet;
        PostedSelf(tb, sp.pgdir);
        UntouchedKeeps(sp, sp, Managed(), al, reserved);
      }
    }

    /** sys_env_set_status */
    method SysEnvSetStatus(envid: int, status: Status) returns (r: int)
      requires Valid() && tb.cur.Some?
      modifies `tb
      ensures Valid() && tb.cur == old(tb).cur && Posted(old(tb), tb, Quiet)
      ensures SetStatusDone(old(tb), tb, envid, status, r)
    {
      PostedSelf(tb, sp.pgdir);
      if status != RUNNABLE && status != NOT_RUNNABLE {
        return E_INVAL;
      }
      var env := EnvidToEnv(envid, true);
      if env.None? {
        return E_BAD_ENV;
      }
      tb := tb.(envs := tb.envs[env.value := tb.envs[env.value].(status := status)]);
      StatusMoved(old(tb), tb, sp.pgdir);
      Enter(old(tb), tb, Quiet);
      r := 0;
    }

    /** sys_env_destroy */
    method SysEnvDestroy(envid: int) returns (r: int, ended: bool, halted: bool)
      requires Valid() && tb.cur.Some?
      modifies `sp, `al, `tb
      ensures Valid() && Posted(old(tb), tb, Quiet) && (r != 0 ==> unchanged(this))
      ensures DestroyDone(old(sp), old(tb), sp, tb, envid, r)
      ensures Parted(old(tb), tb, Destroy(envid), r, ended, halted)
    {
      PostedSelf(tb, sp.pgdir);
      var env := EnvidToEnv(envid, true);
      if env.None? {
        UntouchedKeeps(sp, sp, Managed(), al, reserved);
        StaysOn(tb, tb, Destroy(envid), E_BAD_ENV);
        return E_BAD_ENV, false, false;
      }
      ended, halted := EnvDestroy(env.value);
      r := 0;
      if Names(old(tb), envid, old(tb).cur.value) {
        NamesOne(old(tb), old(sp).pgdir, envid, env.value, old(tb).cur.value);
      }
      PartedSo(old(tb), tb, Destroy(envid), r, ended, halted);
    }

    /** The page part of sys_ipc_try_send: check the source, then map it if the receiver wants a page. */
    method SendPage(e: nat, srcva: nat, perm: nat) returns (r: int)
      requires Valid() && tb.cur.Some? && e < NENV && tb.envs[e].status != FREE && srcva < UTOP
      modifies `sp, `al, `wrapped
      ensures r == 0 || r == E_INVAL || r == E_NO_MEM
      ensures sp.pgdir == old(sp).pgdir && (r != 0 ==> unchanged(this))
      ensures r == E_INVAL <==> BadOffer(old(sp), tb.cur.value, srcva, perm)
      ensures r == E_NO_MEM ==> al.free == []
      ensures r == 0 && tb.envs[e].dstva >= UTOP ==> unchanged(this)
      ensures r == 0 && tb.envs[e].dstva < UTOP ==>
        Transferred(old(sp), sp, tb.cur.value, srcva, e, tb.envs[e].dstva, perm)
      ensures ExactIfBounded() && (!old(wrapped) ==> (wrapped <==> !Bounded(sp)))
    {
      SoundIsBounded(sp, Managed(), al, reserved);
      if srcva % 0x1000 != 0 || !AsksUser(perm) || !OnlySyscallBits(perm) {
        return E_INVAL;
      }
      var src, dva := tb.cur.value, tb.envs[e].dstva;
      if dva < UTOP {
        r := MapVa(src, srcva, e, dva, perm);
        return;
      }
      UserPagesDistinct(srcva, srcva);
      var pte := PageLookup(src, Pdx(srcva), Ptx(srcva), reserved);
      if pte.None? || (!Writable(pte.value) && perm / 2 % 2 == 1) {
        return E_INVAL;
      }
      return 0;
    }

    /** The end of sys_ipc_try_send: fill in the receiver's IPC fields and let it run. */
    method Deliver(e: nat, value: nat, offer: Option<nat>)
      requires EnvInv() && tb.cur.Some? && e < NENV && tb.envs[e].status != FREE && tb.envs[e].recving
      modifies `tb
      ensures EnvInv() && Posted(old(tb), tb, Sent(e)) && tb.cur == old(tb).cur
      ensures SentTo(old(tb), tb, e, value, offer)
    {
      var to := tb.envs[e];
      var to' := to.(value := value, from := tb.envs[tb.cur.value].id, recving := false, status := RUNNABLE,
                     perm := if offer.Some? && to.dstva < UTOP then offer.value else to.perm);
      tb := tb.(envs := tb.envs[e := to'], sends := tb.sends[e := tb.sends[e] + 1]);
      Delivered(old(tb), tb, sp.pgdir, e, to');
      Enter(old(tb), tb, Sent(e));
    }

    /** sys_ipc_try_send once the receiver is known to wait: the page, then the message. */
    method SendTo(e: nat, value: nat, srcva: nat, perm: nat) returns (r: int)
      requires Valid() && tb.cur.Some? && e < NENV && tb.envs[e].status != FREE && tb.envs[e].recving
      modifies `sp, `al, `tb, `wrapped
      ensures EnvInv() && tb.cur == old(tb).cur && (r != 0 ==> unchanged(this))
      ensures r == 0 ==> Posted(old(tb), tb, Sent(e))
      ensures r == 0 || r == E_INVAL || r == E_NO_MEM
      ensures r == E_INVAL ==> srcva < UTOP && BadOffer(sp, tb.cur.value, srcva, perm)
      ensures r == 0 && srcva < UTOP ==> !BadOffer(old(sp), tb.cur.value, srcva, perm)
      ensures r == E_NO_MEM ==> srcva < UTOP && al.free == []
      ensures r == 0 ==> SentTo(old(tb), tb, e, value, if srcva < UTOP then Some(perm) else None)
      ensures r == 0 ==> Moved(old(sp), old(tb), sp, e, srcva, perm)
      ensures ExactIfBounded() && (!old(wrapped) ==> (wrapped <==> !Bounded(sp)))
    {
      if srcva < UTOP {
        r := SendPage(e, srcva, perm);
        if r != 0 {
          return;
        }
      } else {
        SoundIsBounded(sp, Managed(), al, reserved);
      }
      Deliver(e, value, if srcva < UTOP then Some(perm) else None);
      r := 0;
    }

    /** sys_ipc_try_send: all or nothing.  env_ipc_perm is written only when a page moves. */
    method SysIpcTrySend(envid: int, value: nat, srcva: nat, perm: nat) returns (r: int, ghost post: Post)
      requires Valid() && tb.cur.Some?
      modifies `sp, `al, `tb, `wrapped
      ensures EnvInv() && tb.cur == old(tb).cur && (r != 0 ==> unchanged(this))
      ensures Posted(old(tb), tb, post) && PostOf(old(tb), TrySend(envid, value, srcva, perm), r, post)
      ensures SendDone(old(sp), old(al), old(tb), sp, tb, envid, value, srcva, perm, r)
      ensures ExactIfBounded() && (!old(wrapped) ==> (wrapped <==> !Bounded(sp)))
    {
      SoundIsBounded(sp, Managed(), al, reserved);
      PostedSelf(tb, sp.pgdir);
      post := Quiet;
      var env := EnvidToEnv(envid, false);
      if env.None? {
        return E_BAD_ENV, post;
      }
      if !tb.envs[env.value].recving {
        return E_IPC_NOT_RECV, post;
      }
      r := SendTo(env.value, value, srcva, perm);
      if r == 0 { post := Sent(env.value); }
    }

    /** The fields sys_ipc_recv sets before it gives the CPU away. */
    method BeginWait(dstva: nat)
      requires EnvInv() && tb.cur.Some?
      modifies `tb
      ensures EnvInv() && Posted(old(tb), tb, Waited(old(tb).cur.value))
      ensures var me := old(tb).cur.value;
        && tb == old(tb).(envs := tb.envs, recvs := old(tb).recvs[me := old(tb).recvs[me] + 1])
        && tb.envs == old(tb).envs[me := old(tb).envs[me].(recving := true, dstva := dstva, status := NOT_RUNNABLE)]
    {
      var me := tb.cur.value;
      var env := tb.envs[me].(recving := true, dstva := dstva, status := NOT_RUNNABLE);
      tb := tb.(envs := tb.envs[me := env], recvs := tb.recvs[me := tb.recvs[me] + 1]);
      Waiting(old(tb), tb, sp.pgdir, me, env);
      Enter(old(tb), tb, Waited(me));
    }

    /** sys_ipc_recv; it blocks unless dstva is below UTOP and unaligned. */
    method SysIpcRecv(dstva: nat) returns (r: int, halted: bool)
      requires Valid() && tb.cur.Some?
      modifies `tb
      ensures Valid() && Posted(old(tb), tb, if r == 0 then Waited(old(tb).cur.value) else Quiet)
      ensures RecvDone(old(tb), tb, dstva, r)
      ensures Parted(old(tb), tb, Recv(dstva), r, r == 0, halted)
    {
      PostedSelf(tb, sp.pgdir);
      if dstva < UTOP && dstva % 0x1000 != 0 {
        StaysOn(tb, tb, Recv(dstva), E_INVAL);
        return E_INVAL, false;
      }
      BeginWait(dstva);
      ghost var look := tb;
      var ran := SchedYield();
      PostedThen(old(tb), look, tb, Waited(old(tb).cur.value));
      WaitBegun(old(tb), look, tb, dstva);
      r, halted := 0, !ran;
      PartedSo(old(tb), tb, Recv(dstva), r, true, halted);
    }

    // ---- user code and kern/trap.c ----

    /** A user-mode store of one word through the running environment's own tables, or a fault. */
    method UserStore(d: nat, t: nat, i: nat, w: Entry) returns (r: int)
      requires Valid() && tb.cur.Some?
      modifies `sp
      ensures Valid() && SamePtes(old(sp), sp)
      ensures StoreDone(old(sp), tb, sp, d, t, i, w, r)
    {
      if d >= UTOPX || t >= NPT || i >= NPT {
        return E_FAULT;
      }
      var pte := PageLookup(tb.cur.value, d, t, reserved);
      if pte.None? || !Writable(pte.value) {
        return E_FAULT;
      }
      var f := pte.value.frame;
      sp := sp.(mem := sp.mem[f := sp.mem[f][i := w]]);
      SoundData(old(sp), sp, Managed(), al, multiset{}, reserved, f, sp.mem[f]);
      return 0;
    }

    /** The calls that touch memory only. */
    method MemoryCall(c: Call) returns (r: int)
      requires Valid() && !wrapped && tb.cur.Some? && (c.PageAlloc? || c.PageMap? || c.PageUnmap? || c.Store?)
      modifies `sp, `al, `wrapped
      ensures EnvInv() && ExactIfBounded() && (wrapped <==> !Bounded(sp))
      ensures CallDone(old(sp), old(al), tb, sp, tb, c, r)
    {
      match c {
        case PageAlloc(envid, va, perm) => r := SysPageAlloc(envid, va, perm);
        case PageMap(srcid, srcva, dstid, dstva, perm) => r := SysPageMap(srcid, srcva, dstid, dstva, perm);
        case PageUnmap(envid, va) => r := SysPageUnmap(envid, va);
        case Store(d, t, i, w) => r := UserStore(d, t, i, w);
      }
      Effected(old(sp), old(al), tb, sp, tb, c, r);
      if !c.PageMap? { SoundIsBounded(sp, Managed(), al, reserved); }
    }

    method ForkCall(c: Call) returns (r: int, ghost post: Post)
      requires Valid() && tb.cur.Some? && c.Exofork?
      modifies `sp, `al, `tb
      ensures Valid() && Handled(old(sp), old(al), old(tb), sp, tb, c, r, false, false, post)
    {
      r, post := SysExofork();
      StaysOn(old(tb), tb, c, r);
      Effected(old(sp), old(al), old(tb), sp, tb, c, r);
    }

    method StatusCall(c: Call) returns (r: int, ghost post: Post)
      requires Valid() && tb.cur.Some? && c.SetStatus?
      modifies `tb
      ensures Valid() && Handled(old(sp), old(al), old(tb), sp, tb, c, r, false, false, post)
    {
      r := SysEnvSetStatus(c.envid, c.status);
      post := Quiet;
      StaysOn(old(tb), tb, c, r);
      Effected(old(sp), old(al), old(tb), sp, tb, c, r);
    }

    method DestroyCall(c: Call) returns (r: int, ended: bool, halted: bool, ghost post: Post)
      requires Valid() && tb.cur.Some? && c.Destroy?
      modifies `sp, `al, `tb
      ensures Valid() && Handled(old(sp), old(al), old(tb), sp, tb, c, r, ended, halted, post)
    {
      r, ended, halted := SysEnvDestroy(c.envid);
      post := Quiet;
      Effected(old(sp), old(al), old(tb), sp, tb, c, r);
    }

    /** The calls that change environments.  `ended` says control does not come back to the caller's trap. */
    method EnvCall(c: Call) returns (r: int, ended: bool, halted: bool, ghost post: Post)
      requires Valid() && !wrapped && tb.cur.Some? && (c.Exofork? || c.SetStatus? || c.Destroy?)
      modifies `sp, `al, `tb
      ensures Valid() && Handled(old(sp), old(al), old(tb), sp, tb, c, r, ended, halted, post)
    {
      ended, halted := false, false;
      match c {
        case Exofork => r, post := ForkCall(c);
        case SetStatus(_, _) => r, post := StatusCall(c);
        case Destroy(_) => r, ended, halted, post := DestroyCall(c);
      }
    }

    method SendCall(c: Call) returns (r: int, ghost post: Post)
      requires Valid() && !wrapped && tb.cur.Some? && c.TrySend?
      modifies `sp, `al, `tb, `wrapped
      ensures EnvInv() && ExactIfBounded() && (wrapped <==> !Bounded(sp))
      ensures Handled(old(sp), old(al), old(tb), sp, tb, c, r, false, false, post)
    {
      r, post := SysIpcTrySend(c.envid, c.value, c.srcva, c.perm);
      SendHandled(old(sp), old(al), old(tb), sp, tb, c, r, post);
    }

    method RecvCall(c: Call) returns (r: int, ended: bool, halted: bool, ghost post: Post)
      requires Valid() && tb.cur.Some? && c.Recv?
      modifies `tb
      ensures Valid() && Handled(old(sp), old(al), old(tb), sp, tb, c, r, ended, halted, post)
    {
      r, halted := SysIpcRecv(c.dstva);
      post := if r == 0 then Waited(old(tb).cur.value) else Quiet;
      ended := r == 0;
      Effected(old(sp), old(al), old(tb), sp, tb, c, r);
    }

    method IpcCall(c: Call) returns (r: int, ended: bool, halted: bool, ghost post: Post)
      requires Valid() && !wrapped && tb.cur.Some? && (c.TrySend? || c.Recv?)
      modifies `sp, `al, `tb, `wrapped
      ensures EnvInv() && ExactIfBounded() && (wrapped <==> !Bounded(sp))
      ensures Handled(old(sp), old(al), old(tb), sp, tb, c, r, ended, halted, post)
    {
      ended, halted := false, false;
      if c.TrySend? {
        r, post := SendCall(c);
      } else {
        SoundIsBounded(sp, Managed(), al, reserved);
        r, ended, halted, post := RecvCall(c);
      }
    }

    /** A timer tick, or sys_yield: it always schedules. */
    method Tick(c: Call) returns (halted: bool)
      requires Valid() && tb.cur.Some? && c.Yield?
      modifies `tb
      ensures Valid() && Handled(sp, al, old(tb), sp, tb, c, 0, true, halted, Quiet)
    {
      PostedSelf(tb, sp.pgdir);
      var ran := SchedYield();
      PostedThen(old(tb), old(tb), tb, Quiet);
      Effected(sp, al, old(tb), sp, tb, c, 0);
      PartedSo(old(tb), tb, c, 0, true, !ran);
      return !ran;
    }

    /** The calls that leave the table alone, one of which can panic. */
    method PageCall(c: Call) returns (r: int, halted: bool)
      requires Valid() && !wrapped && tb.cur.Some? && (c.PageAlloc? || c.PageMap? || c.PageUnmap? || c.Store?)
      modifies `sp, `al, `wrapped
      ensures EnvInv() && ExactIfBounded() && (wrapped <==> !Bounded(sp))
      ensures Handled(old(sp), old(al), tb, sp, tb, c, r, halted, halted, Quiet)
    {
      PostedSelf(tb, sp.pgdir);
      r := MemoryCall(c);
      halted := Panics(c, r);
      PartedSo(tb, tb, c, r, halted, halted);
    }

    /** One trap from user mode up to the point where the kernel decides where to return. */
    method Dispatch(c: Call) returns (r: int, ended: bool, halted: bool, ghost post: Post)
      requires Valid() && !wrapped && tb.cur.Some?
      modifies `sp, `al, `tb, `wrapped
      ensures EnvInv() && ExactIfBounded() && (wrapped <==> !Bounded(sp))
      ensures Handled(old(sp), old(al), old(tb), sp, tb, c, r, ended, halted, post)
    {
      SoundIsBounded(sp, Managed(), al, reserved);
      if c.TrySend? || c.Recv? {
        r, ended, halted, post := IpcCall(c);
      } else if c.Yield? {
        halted := Tick(c);
        r, ended, post := 0, true, Quiet;
      } else if c.Exofork? || c.SetStatus? || c.Destroy? {
        r, ended, halted, post := EnvCall(c);
        SoundIsBounded(sp, Managed(), al, reserved);
      } else {
        r, halted := PageCall(c);
        ended, post := halted, Quiet;
      }
    }

    /** The end of trap: back to the current environment if it is still running, otherwise schedule. */
    method Resume() returns (halted: bool)
      requires EnvInv()
      modifies `tb
      ensures EnvInv() && OnlyStatus(old(tb).envs, tb.envs) && tb == old(tb).(envs := tb.envs, cur := tb.cur)
      ensures if RunsOn(old(tb)) then !halted && tb == old(tb) else Scheduled(old(tb), tb, halted)
      ensures !halted ==> RunsOn(tb)
    {
      if tb.cur.Some? && tb.envs[tb.cur.value].status == RUNNING {
        EnvRun(tb.cur.value);
        assert tb.envs == old(tb).envs;
        return false;
      }
      var ran := SchedYield();
      return !ran;
    }

    /** From the dispatched call to the return to user mode; `t` is the table before the trap. */
    method Finish(ended: bool, stopped: bool, ghost t: Table, ghost post: Post) returns (halted: bool)
      requires EnvInv() && Posted(t, tb, post)
      modifies `tb
      ensures EnvInv() && OnlyStatus(old(tb).envs, tb.envs) && Posted(t, tb, post)
      ensures if ended then tb == old(tb) && halted == stopped
              else if RunsOn(old(tb)) then !halted && tb == old(tb)
              else Scheduled(old(tb), tb, halted)
    {
      halted := stopped;
      if !ended {
        halted := Resume();
        PostedThen(t, old(tb), tb, post);
      }
    }

    /** The state as a value. */
    ghost function Here(): World
      reads `sp, `al, `tb
    {
      World(sp, al, tb)
    }

    /**
     trap: dispatch, then resume the current environment if it is still running, or schedule.
     The invariant holds afterwards exactly when no page has more references than 16 bits hold.
     `m` says what the call did and posted; `Did` also says where control went: a tick always
     schedules, and the kernel stops only in a panic or when nothing can run.
     */
    method Trap(c: Call) returns (r: int, halted: bool, ghost m: Moment)
      requires Valid() && !wrapped && tb.cur.Some?
      modifies `sp, `al, `tb, `wrapped
      ensures EnvInv() && Shape(sp) && (Valid() <==> Bounded(sp)) && (wrapped <==> !Bounded(sp))
      ensures m == Moment(c, r, m.post, m.done, halted, Here())
      ensures Did(old(Here()), m) && Posted(old(tb), tb, m.post) && (!halted ==> RunsOn(tb))
    {
      var ended, stopped;
      ghost var post;
      r, ended, stopped, post := Dispatch(c);
      ghost var done := tb;
      halted := Finish(ended, stopped, old(tb), post);
      m := Moment(c, r, post, done, halted, World(sp, al, tb));
      DidThat(World(old(sp), old(al), old(tb)), m, ended, stopped);
      if !halted { GoesBack(World(old(sp), old(al), old(tb)), m); }
    }

    /** A trap of a run, added to its trace. */
    method RunOne(c: Call, ghost start: World, ghost trace: seq<Moment>, ghost calls: seq<Call>)
      returns (halted: bool, ghost m: Moment)
      requires Valid() && !wrapped && tb.cur.Some? && |trace| < |calls| && c == calls[|trace|]
      requires Recorded(start, trace, calls, Here()) && GoesOn(trace)
      modifies `sp, `al, `tb, `wrapped
      ensures EnvInv() && Shape(sp) && (Valid() <==> Bounded(sp)) && (wrapped <==> !Bounded(sp))
      ensures m.stopped == halted && Recorded(start, trace + [m], calls, Here())
      ensures !halted ==> tb.cur.Some?
    {
      var r;
      r, halted, m := Trap(c);
      RecordedMore(start, trace, calls, m);
    }

    /**
     Any run: for every sequence of traps, in every order, the counts stay exact and
     the environment table stays in order exactly as long as no page collects more
     references than a uint16_t can hold; the run also ends if the kernel has nothing
     to run.  The trace tells what each call did.  A slot that stays runnable is not
     passed over for longer than a round; every message used up a wait of its receiver
     and stays until its next one; an old id names nobody.
     */
    method Run(calls: seq<Call>) returns (n: nat, halted: bool, ghost trace: seq<Moment>)
      requires Valid() && !wrapped && tb.cur.Some?
      modifies `sp, `al, `tb, `wrapped
      ensures n <= |calls| && EnvInv() && Shape(sp)
      ensures n == |calls| || halted || !Bounded(sp)
      ensures Valid() <==> Bounded(sp)
      ensures |trace| == n && Recorded(old(Here()), trace, calls, Here())
      ensures halted <==> n > 0 && trace[n - 1].stopped
      ensures NobodyStarves(old(Here()), trace) && Ledger(old(Here()), trace) && Remembers(old(Here()), trace)
    {
      SoundIsBounded(sp, Managed(), al, reserved);
      n, halted, trace := 0, false, [];
      ghost var start := Here();
      RecordedNone(start, calls);
      while n < |calls| && !halted && !wrapped
        invariant n <= |calls| && EnvInv() && Shape(sp)
        invariant (Valid() <==> Bounded(sp)) && (wrapped <==> !Bounded(sp))
        invariant !halted ==> tb.cur.Some? && GoesOn(trace)
        invariant |trace| == n && Recorded(start, trace, calls, Here())
        invariant halted <==> n > 0 && trace[n - 1].stopped
        decreases |calls| - n
      {
        ghost var m;
        halted, m := RunOne(calls[n], start, trace, calls);
        trace := trace + [m];
        n := n + 1;
      }
      ToldMeans(start, trace);
    }

    /** The end of i386_init: create the first environment and run it. */
    method Start() returns (ok: bool)
      requires Valid() && !wrapped && tb.free != []
      modifies `sp, `al, `tb
      ensures Valid() && !wrapped
      ensures (ok <==> old(al).free != []) && (!ok ==> al.free == [])
      ensures ok ==> tb.cur == Some(old(tb).free[0]) && RunsOn(tb)
      ensures ok ==> var e := old(tb).free[0];
        tb.envs[e].parent == 0 && tb.envs[e].id == IdOf(old(tb).allocs[e] + 1, e)
    {
      var r, e := EnvAlloc(0);
      if r != 0 {
        return false;
      }
      EnvRun(e);
      return true;
    }

    /** The boot_map_region calls of mem_init, until one finds no page for a table. */
    method MapRegions(regions: seq<Region>) returns (ok: bool)
      requires MemInv(multiset{}, reserved) && forall e :: 0 <= e < NENV ==> sp.pgdir[e].None?
      requires forall i :: 0 <= i < |regions| ==> InKernel(regions[i])
      modifies `sp, `al
      ensures MemInv(multiset{}, reserved) && sp.pgdir == old(sp).pgdir && (!ok ==> al.free == [])
      ensures ok ==> AllMapped(sp, regions, |regions|)
    {
      ok := true;
      for i := 0 to |regions|
        invariant ok && MemInv(multiset{}, reserved) && sp.pgdir == old(sp).pgdir && AllMapped(sp, regions, i)
      {
        ghost var s := sp;
        assert forall v: nat :: regions[i].vpn <= v < regions[i].vpn + regions[i].n ==> Covers(regions[i], v);
        ok := BootMapRegion(regions[i].vpn, regions[i].n, regions[i].ppn, regions[i].perm);
        if !ok {
          return;
        }
        AllMappedNext(s, sp, regions, i);
      }
    }

    /** The pages a driver takes for its receive ring and keeps for ever; the source does not check for failure. */
    method ReserveRing(n: nat) returns (ok: bool)
      requires Valid()
      modifies `sp, `al, `reserved
      ensures Valid() && sp.pgdir == old(sp).pgdir && old(reserved) <= reserved && |reserved| <= |old(reserved)| + n
      ensures SamePtes(old(sp), sp) && (if ok then |reserved| == |old(reserved)| + n else al.free == [])
    {
      for i := 0 to n
        invariant Valid() && sp.pgdir == old(sp).pgdir && old(reserved) <= reserved && SamePtes(old(sp), sp)
        invariant |reserved| == |old(reserved)| + i
      {
        var p := PageAlloc(false, multiset{}, reserved);
        if p.None? {
          return false;
        }
        reserved := reserved + {p.value};
      }
      return true;
    }

    /** No table, directory or user mapping refers to a ring page. */
    lemma RingIsApart()
      requires Valid()
      ensures Bounded(sp) && forall f: nat :: f in reserved ==> Unreferenced(sp, f)
    {
      SoundIsBounded(sp, Managed(), al, reserved);
      forall f: nat | f in reserved ensures Unreferenced(sp, f) { CountZero(sp, f); }
    }

    /** A run, after which the ring pages are still nobody's. */
    method RunApart(calls: seq<Call>) returns (n: nat, halted: bool, ghost trace: seq<Moment>)
      requires Valid() && !wrapped && tb.cur.Some?
      modifies `sp, `al, `tb, `wrapped
      ensures Shape(sp) && (Valid() <==> Bounded(sp)) && (n == |calls| || halted || !Bounded(sp))
      ensures Valid() ==> forall f: nat :: f in reserved ==> Unreferenced(sp, f)
      ensures n <= |calls| && |trace| == n && Recorded(old(Here()), trace, calls, Here())
      ensures halted <==> n > 0 && trace[n - 1].stopped
      ensures NobodyStarves(old(Here()), trace) && Ledger(old(Here()), trace) && Remembers(old(Here()), trace)
    {
      n, halted, trace := Run(calls);
      if Valid() { RingIsApart(); }
    }

    /** Boot up to the first return to user mode. */
    method BringUp(regions: seq<Region>, ring: nat) returns (ok: bool)
      requires Valid() && !wrapped && tb.free == seq(NENV, i => i)
      requires forall e :: 0 <= e < NENV ==> sp.pgdir[e].None?
      requires forall i :: 0 <= i < |regions| ==> InKernel(regions[i])
      modifies `sp, `al, `tb, `reserved
      ensures Valid() && !wrapped && (!ok ==> al.free == [])
      ensures ok ==> tb.cur == Some(0) && RunsOn(tb) && |reserved| == |old(reserved)| + ring
    {
      ok := MapRegions(regions);
      if ok {
        ok := ReserveRing(ring);
      }
      if ok {
        ok := Start();
      }
    }

    /** From power-on to the first return to user mode. */
    static method PowerOn(npages: nat, bootEnd: nat, kdir: Frame, ram: seq<seq<Entry>>, regions: seq<Region>, ring: nat)
      returns (k: Kernel, ok: bool)
      requires 0x100 < bootEnd <= npages == |ram| && 0x100 <= kdir < bootEnd
      requires forall f :: 0 <= f < npages ==> |ram[f]| == NPT
      requires forall i :: 0 <= i < |regions| ==> InKernel(regions[i])
      ensures fresh(k) && k.Valid() && !k.wrapped && (!ok ==> k.al.free == [])
      ensures ok ==> k.tb.cur == Some(0) && RunsOn(k.tb) && |k.reserved| == ring
    {
      k := new Kernel(npages, bootEnd, kdir, ram);
      ok := k.BringUp(regions, ring);
    }

    /**
     From power-on: the kernel's regions are mapped, the network ring gets its pages, the
     first environment is started, and after any run the invariant holds exactly when no
     page has more references than 16 bits hold; then the ring pages are still nobody's.
     The trace tells what each call did from the state in which user code began.
     */
    static method Boot(npages: nat, bootEnd: nat, kdir: Frame, ram: seq<seq<Entry>>, regions: seq<Region>, ring: nat,
                       calls: seq<Call>)
      returns (k: Kernel, ok: bool, n: nat, halted: bool, ghost start: World, ghost trace: seq<Moment>)
      requires 0x100 < bootEnd <= npages == |ram| && 0x100 <= kdir < bootEnd
      requires forall f :: 0 <= f < npages ==> |ram[f]| == NPT
      requires forall i :: 0 <= i < |regions| ==> InKernel(regions[i])
      ensures Shape(k.sp) && (k.Valid() <==> Bounded(k.sp)) && (ok ==> |k.reserved| == ring)
      ensures k.Valid() ==> forall f: nat :: f in k.reserved ==> Unreferenced(k.sp, f)
      ensures !ok ==> trace == [] && k.al.free == []
      ensures ok ==> start.tb.cur == Some(0) && RunsOn(start.tb) && (n == |calls| || halted || !Bounded(k.sp))
      ensures ok ==> n <= |calls| && |trace| == n && Recorded(start, trace, calls, k.Here())
      ensures ok ==> (halted <==> n > 0 && trace[n - 1].stopped)
      ensures ok ==> NobodyStarves(start, trace) && Ledger(start, trace) && Remembers(start, trace)
    {
      k, ok := PowerOn(npages, bootEnd, kdir, ram, regions, ring);
      n, halted, start, trace := 0, false, k.Here(), [];
      if ok {
        n, halted, trace := k.RunApart(calls);
      } else {
        k.RingIsApart();
      }
    }
  }
}
