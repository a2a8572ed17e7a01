/** The system calls of kern/syscall.c: what user code can ask for, and what each call must have done. */
module KernelCalls {
  import opened Base
  import opened Paging
  import opened Accounting
  import opened EnvTable

  // ---- error codes of inc/error.h, negated as the C code returns them ----
  const E_BAD_ENV := -2
  const E_INVAL := -3
  const E_NO_MEM := -4
  const E_NO_FREE_ENV := -5
  const E_FAULT := -6
  const E_IPC_NOT_RECV := -8

  /** Not an error code: the kernel stops in panic(). */
  const PANIC := -1000

  const UTOP := 0xEEC0_0000

  function Pdx(va: nat): nat { va / 0x40_0000 }

  function Ptx(va: nat): nat { va / 0x1000 % 0x400 }

  /** An address a page-mapping call accepts: below UTOP and page-aligned. */
  predicate UserPage(va: nat) { va < UTOP && va % 0x1000 == 0 }

  /** PTE_U and PTE_P are set. */
  predicate AsksUser(perm: nat) { perm / 4 % 2 == 1 && perm % 2 == 1 }

  /** No bit outside PTE_SYSCALL is set. */
  predicate OnlySyscallBits(perm: nat) { perm < 0x1000 && perm / 8 % 64 == 0 }

  /** Bit k of a word. */
  predicate BitOf(n: nat, k: nat) { if k == 0 then n % 2 == 1 else BitOf(n / 2, k - 1) }

  /** The same under a name for quantifiers. */
  predicate Has(n: nat, k: nat) { BitOf(n, k) }

  lemma Halves(n: nat, k: nat)
    requires k > 0
    ensures Has(n, k) == Has(n / 2, k - 1)
  {}

  /** The six lowest bits are clear exactly in multiples of 64. */
  lemma SixBits(m: nat)
    ensures !Has(m, 0) && !Has(m, 1) && !Has(m, 2) && !Has(m, 3) && !Has(m, 4) && !Has(m, 5) <==> m % 64 == 0
  {
    var m1 := m / 2;
    var m2 := m1 / 2;
    var m3 := m2 / 2;
    var m4 := m3 / 2;
    var m5 := m4 / 2;
    assert Has(m, 0) == (m % 2 == 1) && Has(m, 1) == Has(m1, 0) == (m1 % 2 == 1);
    assert Has(m, 2) == Has(m1, 1) == Has(m2, 0) == (m2 % 2 == 1);
    assert Has(m, 3) == Has(m1, 2) == Has(m2, 1) == Has(m3, 0) == (m3 % 2 == 1);
    assert Has(m, 4) == Has(m1, 3) == Has(m2, 2) == Has(m3, 1) == Has(m4, 0) == (m4 % 2 == 1);
    assert Has(m, 5) == Has(m1, 4) == Has(m2, 3) == Has(m3, 2) == Has(m4, 1) == Has(m5, 0) == (m5 % 2 == 1);
    SixDigits(m, m1, m2, m3, m4, m5);
  }

  lemma SixDigits(m: nat, m1: nat, m2: nat, m3: nat, m4: nat, m5: nat)
    requires m1 == m / 2 && m2 == m1 / 2 && m3 == m2 / 2 && m4 == m3 / 2 && m5 == m4 / 2
    ensures m % 2 == 0 && m1 % 2 == 0 && m2 % 2 == 0 && m3 % 2 == 0 && m4 % 2 == 0 && m5 % 2 == 0 <==> m % 64 == 0
  {
    AddUp(m, m1, m2, m3, m % 2, m1 % 2, m2 % 2);
    AddUp(m3, m4, m5, m5 / 2, m3 % 2, m4 % 2, m5 % 2);
    Digits(m, m5 / 2, m % 2 + 2 * (m1 % 2) + 4 * (m2 % 2), m3 % 2 + 2 * (m4 % 2) + 4 * (m5 % 2));
  }

  lemma AddUp(m: nat, m1: nat, m2: nat, m3: nat, a: nat, b: nat, c: nat)
    requires m == 2 * m1 + a && m1 == 2 * m2 + b && m2 == 2 * m3 + c && a < 2 && b < 2 && c < 2
    ensures m == 8 * m3 + (a + 2 * b + 4 * c) && (a + 2 * b + 4 * c == 0 <==> a == 0 && b == 0 && c == 0)
  {}

  lemma Digits(m: nat, q: nat, low: nat, high: nat)
    requires m == 8 * (8 * q + high) + low && low < 8 && high < 8
    ensures m % 64 == 0 <==> low == 0 && high == 0
  {
    assert m == 64 * q + (8 * high + low);
  }

  lemma Shifted(n: nat, k: nat)
    ensures Has(n, k + 3) == Has(n / 8, k)
  {
    Halves(n, k + 3);
    Halves(n / 2, k + 2);
    Halves(n / 2 / 2, k + 1);
    assert n / 2 / 2 / 2 == n / 8;
  }

  lemma {:induction false} SomeBit(n: nat) returns (j: nat)
    requires n > 0
    ensures Has(n, j)
  {
    if n % 2 == 1 {
      j := 0;
    } else {
      j := SomeBit(n / 2);
      j := j + 1;
    }
  }

  lemma {:induction false} ZeroBits(j: nat)
    ensures !Has(0, j)
  {
    if j > 0 { ZeroBits(j - 1); }
  }

  function Twos(k: nat): nat { if k == 0 then 1 else 2 * Twos(k - 1) }

  /** Only bits below k can be set exactly in numbers below 2^k. */
  lemma {:induction false} HighBits(n: nat, k: nat)
    ensures (forall j: nat :: k <= j ==> !Has(n, j)) <==> n < Twos(k)
  {
    if k > 0 {
      HighBits(n / 2, k - 1);
      if n < Twos(k) {
        forall j: nat | k <= j ensures !Has(n, j) { Halves(n, j); }
      }
      if forall j: nat :: k <= j ==> !Has(n, j) {
        forall j: nat | k - 1 <= j ensures !Has(n / 2, j) { Halves(n, j + 1); }
      }
    } else if n > 0 {
      var j := SomeBit(n);
    } else {
      forall j: nat ensures !Has(0, j) { ZeroBits(j); }
    }
  }

  lemma TwosAre()
    ensures Twos(12) == 0x1000
  {
    assert Twos(3) == 8;
    assert Twos(6) == 2 * Twos(5) == 4 * Twos(4) == 8 * Twos(3);
    assert Twos(9) == 2 * Twos(8) == 4 * Twos(7) == 8 * Twos(6);
    assert Twos(12) == 2 * Twos(11) == 4 * Twos(10) == 8 * Twos(9);
  }

  /** PTE_P, PTE_W and PTE_U are bits 0 to 2 and PTE_AVAIL bits 9 to 11: the tests on perm are about these. */
  lemma PermissionBits(perm: nat)
    ensures AsksUser(perm) <==> Has(perm, 0) && Has(perm, 2)
    ensures perm / 2 % 2 == 1 <==> Has(perm, 1)
    ensures OnlySyscallBits(perm) <==> forall k: nat :: Has(perm, k) ==> k <= 2 || 9 <= k <= 11
  {
    Halves(perm, 2);
    Halves(perm / 2, 1);
    Halves(perm, 1);
    assert perm / 2 / 2 == perm / 4;
    HighBits(perm, 12);
    TwosAre();
    SixBits(perm / 8);
    Shifted(perm, 0);
    Shifted(perm, 1);
    Shifted(perm, 2);
    Shifted(perm, 3);
    Shifted(perm, 4);
    Shifted(perm, 5);
    if OnlySyscallBits(perm) {
      forall k: nat | Has(perm, k) ensures k <= 2 || 9 <= k <= 11 {
        if 3 <= k <= 8 { Shifted(perm, k - 3); }
      }
    }
  }

  /** A table word is present and writable by bits 0 and 1, and `perm | PTE_P` has the bits of perm and bit 0. */
  lemma EntryBits(w: Entry, perm: nat)
    ensures Present(w) <==> Has(w.flags, 0)
    ensures Writable(w) <==> Has(w.flags, 1)
    ensures forall k: nat :: Has(OrP(perm), k) <==> k == 0 || Has(perm, k)
  {
    PermissionBits(w.flags);
    forall k: nat ensures Has(OrP(perm), k) <==> k == 0 || Has(perm, k) {
      if k > 0 {
        Halves(perm, k);
        Halves(OrP(perm), k);
      }
    }
  }

  /** Distinct user pages use distinct entries, in the order of the addresses. */
  lemma UserPagesDistinct(va: nat, vb: nat)
    requires UserPage(va) && UserPage(vb)
    ensures Pdx(va) < UTOPX && Ptx(va) < NPT && va == 0x40_0000 * Pdx(va) + 0x1000 * Ptx(va)
    ensures Pdx(va) == Pdx(vb) && Ptx(va) == Ptx(vb) ==> va == vb
  {
    SplitsUp(va);
    SplitsUp(vb);
  }

  /** An address is its directory index, its table index and its offset. */
  lemma SplitsUp(va: nat)
    ensures va == 0x40_0000 * Pdx(va) + 0x1000 * Ptx(va) + va % 0x1000 && Ptx(va) < 0x400
  {
    var n := va / 0x1000;
    assert n / 0x400 == Pdx(va) && n == 0x400 * (n / 0x400) + n % 0x400;
  }

  /** What user code can do next: a system call, a timer tick (Yield), or a store. */
  datatype Call =
    | PageAlloc(envid: int, va: nat, perm: nat)
    | PageMap(srcid: int, srcva: nat, dstid: int, dstva: nat, perm: nat)
    | PageUnmap(envid: int, va: nat)
    | Exofork
    | SetStatus(envid: int, status: Status)
    | Destroy(envid: int)
    | TrySend(envid: int, value: nat, srcva: nat, perm: nat)
    | Recv(dstva: nat)
    | Yield
    | Store(d: nat, t: nat, i: nat, w: Entry)

  /** (e, d, t) maps the zeroed frame f with flags perm, and nothing else changed. */
  ghost predicate FreshPage(s: Space, s': Space, e: nat, d: nat, t: nat, perm: nat, f: Frame) {
    && PteAt(s', e, d, t) == Some(Entry(f, perm))
    && f < |s'.mem| && |s'.mem[f]| == NPT && (forall i :: 0 <= i < NPT ==> s'.mem[f][i] == ZERO)
    && SamePtesExcept(s, s', e, d, t)
  }

  /** Every page that somebody maps in s holds the same words in s'. */
  ghost predicate SameWords(s: Space, s': Space) {
    forall e: nat, d: nat, t: nat :: e < NENV && PteAt(s, e, d, t).Some? ==>
      var f := PteAt(s, e, d, t).value.frame; f < |s.mem| && f < |s'.mem| && s'.mem[f] == s.mem[f]
  }

  /** The same, on demand. */
  ghost predicate PagesKept(s: Space, s': Space) { forall n: nat {:trigger Detail(n)} :: n == 0 ==> SameWords(s, s') }

  /** A mapped frame is a data frame and not on the list. */
  lemma MappedIsData(s: Space, managed: set<Frame>, a: Alloc, limbo: set<Frame>, e: nat, d: nat, t: nat)
    requires Sound(s, managed, a, multiset{}, limbo) && e < NENV && PteAt(s, e, d, t).Some?
    ensures var f := PteAt(s, e, d, t).value.frame; DataFrame(s, managed, f) && f !in a.free && f < |s.mem|
  {
    var f := PteAt(s, e, d, t).value.frame;
    assert Target(s, Page(e, d, t)) == Some(f);
    CountZero(s, f);
  }

  lemma UntouchedKeeps(s: Space, s': Space, managed: set<Frame>, a: Alloc, limbo: set<Frame>)
    requires Sound(s, managed, a, multiset{}, limbo) && Untouched(s, s', managed, a.free)
    ensures PagesKept(s, s')
  {
    forall e: nat, d: nat, t: nat | e < NENV && PteAt(s, e, d, t).Some?
      ensures var f := PteAt(s, e, d, t).value.frame; f < |s.mem| && f < |s'.mem| && s'.mem[f] == s.mem[f]
    {
      MappedIsData(s, managed, a, limbo, e, d, t);
    }
    assert SameWords(s, s');
  }

  /** A frame off the list is written, then perhaps a page inserted. */
  lemma FreshKeeps(s: Space, s1: Space, s2: Space, managed: set<Frame>, a: Alloc, a1: Alloc, limbo: set<Frame>,
                   p: Frame)
    requires Sound(s, managed, a, multiset{}, limbo) && a.free == [p] + a1.free
    requires p < |s.mem| == |s1.mem| && s1.mem == s.mem[p := s1.mem[p]] && SameTargets(s, s1)
    requires s2.mem == s1.mem || Untouched(s1, s2, managed, a1.free)
    ensures PagesKept(s, s2)
  {
    forall e: nat, d: nat, t: nat | e < NENV && PteAt(s, e, d, t).Some?
      ensures var f := PteAt(s, e, d, t).value.frame; f < |s.mem| && f < |s2.mem| && s2.mem[f] == s.mem[f]
    {
      MappedIsData(s, managed, a, limbo, e, d, t);
      var f := PteAt(s, e, d, t).value.frame;
      assert f != p && f !in a1.free;
      assert DataFrame(s1, managed, f) by {
        forall r | Structural(r) ensures Target(s1, r) != Some(f) { assert Target(s1, r) == Target(s, r); }
      }
    }
    assert SameWords(s, s2);
  }

  /** What sys_page_alloc did, given its result r. */
  ghost predicate PageAllocDone(s: Space, a: Alloc, t: Table, s': Space, envid: int, va: nat, perm: nat, r: int) {
    && (r == 0 || r == E_INVAL || r == E_BAD_ENV || r == E_NO_MEM) && (r != 0 ==> SamePtes(s, s')) && PagesKept(s, s')
    && (r == E_INVAL <==> !(UserPage(va) && AsksUser(perm) && OnlySyscallBits(perm)))
    && (r == E_BAD_ENV ==> forall i: nat :: !Names(t, envid, i)) && (r == E_NO_MEM ==> |a.free| <= 1)
    && (r == 0 ==> a.free != [] && exists e: nat ::
                     Names(t, envid, e) && FreshPage(s, s', e, Pdx(va), Ptx(va), perm, a.free[0]))
  }

  /** The page at (sd, st) of src is mapped at (dd, dt) of dst with flags perm, and nothing else changed. */
  ghost predicate Shared(s: Space, s': Space, src: nat, sd: nat, st: nat, dst: nat, dd: nat, dt: nat, perm: nat) {
    && PteAt(s, src, sd, st).Some? && (perm / 2 % 2 == 1 ==> Writable(PteAt(s, src, sd, st).value))
    && Inserted(s, s', dst, dd, dt, Entry(PteAt(s, src, sd, st).value.frame, perm))
  }

  /** There is no page at (sd, st) of src, or it is read-only and perm asks to write. */
  ghost predicate Denied(s: Space, src: nat, sd: nat, st: nat, perm: nat) {
    PteAt(s, src, sd, st).None? || (!Writable(PteAt(s, src, sd, st).value) && perm / 2 % 2 == 1)
  }

  /** The references the page at (sd, st) of src would have after being mapped at (dd, dt) of dst. */
  ghost function CountAfter(s: Space, src: nat, sd: nat, st: nat, dst: nat, dd: nat, dt: nat): nat
    requires Shape(s) && PteAt(s, src, sd, st).Some?
  {
    var f := PteAt(s, src, sd, st).value.frame;
    RefCount(s, f) + Grows(s, dst, dd, dt, f)
  }

  /**
   The page at srcva of src is mapped at dva of dst.  Afterwards no page has more
   references than 16 bits hold exactly when this page has not.
   */
  ghost predicate MappedPage(s: Space, s': Space, src: nat, srcva: nat, dst: nat, dva: nat, perm: nat) {
    && Shape(s) && Shape(s') && Shared(s, s', src, Pdx(srcva), Ptx(srcva), dst, Pdx(dva), Ptx(dva), perm)
    && PagesKept(s, s')
    && (Bounded(s') <==> CountAfter(s, src, Pdx(srcva), Ptx(srcva), dst, Pdx(dva), Ptx(dva)) <= MAXREF)
  }

  /** What sys_page_map did.  Bits outside PTE_SYSCALL panic the kernel instead of returning -E_INVAL. */
  ghost predicate PageMapDone(s: Space, a: Alloc, t: Table, s': Space,
                              srcid: int, srcva: nat, dstid: int, dstva: nat, perm: nat, r: int) {
    && (r == 0 || r == E_INVAL || r == E_BAD_ENV || r == E_NO_MEM || r == PANIC) && (r != 0 ==> s' == s)
    && (r == PANIC <==> UserPage(srcva) && UserPage(dstva) && AsksUser(perm) && !OnlySyscallBits(perm))
    && (r == E_BAD_ENV ==> (forall i: nat :: !Names(t, srcid, i)) || (forall i: nat :: !Names(t, dstid, i)))
    && (r == E_INVAL ==> !UserPage(srcva) || !UserPage(dstva) || !AsksUser(perm)
                         || exists e: nat :: Names(t, srcid, e) && Denied(s, e, Pdx(srcva), Ptx(srcva), perm))
    && (r == E_NO_MEM ==> a.free == [])
    && (r == 0 ==> exists e: nat, f: nat ::
                     Names(t, srcid, e) && Names(t, dstid, f) && MappedPage(s, s', e, srcva, f, dstva, perm))
  }

  ghost predicate PageUnmapDone(s: Space, t: Table, s': Space, envid: int, va: nat, r: int) {
    && (r == 0 || r == E_INVAL || r == E_BAD_ENV) && (r != 0 ==> s' == s)
    && (r == E_INVAL <==> !UserPage(va)) && (r == E_BAD_ENV ==> forall i: nat :: !Names(t, envid, i))
    && (r == 0 ==> exists e: nat :: Names(t, envid, e) && PteAt(s', e, Pdx(va), Ptx(va)).None?
                     && SamePtesExcept(s, s', e, Pdx(va), Ptx(va)))
    && PagesKept(s, s')
  }

  /** What sys_exofork did: one slot allocated once more, under an id that named nobody. */
  ghost predicate ExoforkDone(s: Space, a: Alloc, t: Table, s': Space, t': Table, r: int) {
    && (r == E_NO_FREE_ENV <==> t.free == []) && SamePtes(s, s') && PagesKept(s, s')
    && (r <= 0 ==> t' == t && s' == s && (r == E_NO_FREE_ENV || (r == E_NO_MEM && a.free == [])))
    && (r > 0 ==> (exists e: nat :: Child(t, t', e, r)) && forall i: nat :: !Names(t, r, i))
  }

  lemma ExoforkMade(s: Space, a: Alloc, t: Table, s': Space, t': Table, e: nat, r: int)
    requires Orderly(t, s.pgdir) && Child(t, t', e, r) && SamePtes(s, s') && PagesKept(s, s') && t.free != []
    ensures ExoforkDone(s, a, t, s', t', r)
  {
    NextIdIsNobodys(t, s.pgdir, e, r);
  }

  ghost predicate SetStatusDone(t: Table, t': Table, envid: int, status: Status, r: int) {
    && (r == 0 || r == E_INVAL || r == E_BAD_ENV) && (r != 0 ==> t' == t)
    && (r == E_INVAL <==> status != RUNNABLE && status != NOT_RUNNABLE)
    && (r == E_BAD_ENV ==> forall i: nat :: Names(t, envid, i) ==> !MayChange(t, i))
    && (r == 0 ==> exists e: nat :: Names(t, envid, e) && MayChange(t, e)
                     && t' == t.(envs := t.envs[e := t.envs[e].(status := status)]))
  }

  ghost predicate DestroyDone(s: Space, t: Table, s': Space, t': Table, envid: int, r: int) {
    && (r == 0 || r == E_BAD_ENV) && PagesKept(s, s')
    && (r == E_BAD_ENV ==> t' == t && s' == s && forall i: nat :: Names(t, envid, i) ==> !MayChange(t, i))
    && (r == 0 ==> exists e: nat :: Names(t, envid, e) && MayChange(t, e) && Released(s, s', e)
                     && OnlyStatus(t.envs[e := t.envs[e].(status := FREE)], t'.envs)
                     && (t.cur != Some(e) ==> t'.envs == t.envs[e := t.envs[e].(status := FREE)] && t'.cur == t.cur))
  }

  /** The page at srcva of src was a fit offer and reached dva of dst. */
  ghost predicate Transferred(s: Space, s': Space, src: nat, srcva: nat, dst: nat, dva: nat, perm: nat) {
    UserPage(srcva) && AsksUser(perm) && OnlySyscallBits(perm) && MappedPage(s, s', src, srcva, dst, dva, perm)
  }

  /** What sys_ipc_try_send refuses in an offered page. */
  ghost predicate BadOffer(s: Space, src: nat, srcva: nat, perm: nat) {
    !UserPage(srcva) || !AsksUser(perm) || !OnlySyscallBits(perm) || Denied(s, src, Pdx(srcva), Ptx(srcva), perm)
  }

  /** The offered page went to e if e wanted one; otherwise memory is the same. */
  ghost predicate Moved(s: Space, t: Table, s': Space, e: nat, srcva: nat, perm: nat) {
    && t.cur.Some? && e < |t.envs|
    && if srcva < UTOP && t.envs[e].dstva < UTOP then Transferred(s, s', t.cur.value, srcva, e, t.envs[e].dstva, perm)
       else s' == s
  }

  /** What sys_ipc_try_send did: an all-or-nothing delivery. */
  ghost predicate SendDone(s: Space, a: Alloc, t: Table, s': Space, t': Table,
                           envid: int, value: nat, srcva: nat, perm: nat, r: int) {
    && t.cur.Some? && (r != 0 ==> s' == s && t' == t) && (r == E_BAD_ENV ==> forall i: nat :: !Names(t, envid, i))
    && (r == 0 || r == E_BAD_ENV || r == E_IPC_NOT_RECV || r == E_INVAL || r == E_NO_MEM)
    && (r == E_IPC_NOT_RECV ==> exists e: nat :: Names(t, envid, e) && !t.envs[e].recving)
    && (r == E_INVAL ==> srcva < UTOP && BadOffer(s, t.cur.value, srcva, perm))
    && (r == 0 && srcva < UTOP ==> !BadOffer(s, t.cur.value, srcva, perm))
    && (r == E_NO_MEM ==> srcva < UTOP && a.free == [])
    && (r == 0 ==> exists e: nat ::
                     && Names(t, envid, e) && SentTo(t, t', e, value, if srcva < UTOP then Some(perm) else None)
                     && Moved(s, t, s', e, srcva, perm))
  }

  /** What sys_ipc_recv did: a wait begun, or a bad address. */
  ghost predicate RecvDone(t: Table, t': Table, dstva: nat, r: int) {
    && (r == 0 || r == E_INVAL) && (r == E_INVAL <==> dstva < UTOP && dstva % 0x1000 != 0) && (r != 0 ==> t' == t)
    && (r == 0 ==> t.cur.Some? && t.cur.value < |t'.envs| && t.cur.value < |t.recvs|
                   && t'.envs[t.cur.value].recving && t'.envs[t.cur.value].dstva == dstva
                   && t'.recvs == t.recvs[t.cur.value := t.recvs[t.cur.value] + 1] && t.cur.value < |t.envs|
                   && OnlyStatus(t.envs[t.cur.value := t.envs[t.cur.value].(recving := true, dstva := dstva)], t'.envs))
  }

  /** The fields set, then a schedule. */
  lemma WaitBegun(t: Table, t1: Table, t2: Table, dstva: nat)
    requires t.cur.Some? && t.cur.value < |t.envs| && t.cur.value < |t.recvs| && !(dstva < UTOP && dstva % 0x1000 != 0)
    requires var me := t.cur.value;
             && t1 == t.(envs := t1.envs, recvs := t.recvs[me := t.recvs[me] + 1])
             && t1.envs == t.envs[me := t.envs[me].(recving := true, dstva := dstva, status := NOT_RUNNABLE)]
    requires OnlyStatus(t1.envs, t2.envs) && t2.recvs == t1.recvs && t.envs[t.cur.value].status != FREE
    ensures RecvDone(t, t2, dstva, 0)
  {}

  ghost predicate StoreDone(s: Space, t: Table, s': Space, d: nat, t1: nat, i: nat, w: Entry, r: int) {
    && (r == 0 || r == E_FAULT) && (r != 0 ==> s' == s) && t.cur.Some? && SamePtes(s, s')
    && (r == E_FAULT <==> t1 >= NPT || i >= NPT || PteAt(s, t.cur.value, d, t1).None?
                          || !Writable(PteAt(s, t.cur.value, d, t1).value))
    && (r == 0 ==> var f := PteAt(s, t.cur.value, d, t1).value.frame;
                   f < |s.mem| && i < |s.mem[f]| && s'.mem == s.mem[f := s.mem[f][i := w]] && s'.pgdir == s.pgdir)
  }

  /** What a call must have done, given its result r. */
  ghost predicate Effect(s: Space, a: Alloc, t: Table, s': Space, t': Table, c: Call, r: int) {
    match c
    case PageAlloc(envid, va, perm) => PageAllocDone(s, a, t, s', envid, va, perm, r) && t' == t
    case PageMap(srcid, srcva, dstid, dstva, perm) =>
      PageMapDone(s, a, t, s', srcid, srcva, dstid, dstva, perm, r) && t' == t
    case PageUnmap(envid, va) => PageUnmapDone(s, t, s', envid, va, r) && t' == t
    case Store(d, t1, i, w) => StoreDone(s, t, s', d, t1, i, w, r) && t' == t
    case Exofork => ExoforkDone(s, a, t, s', t', r)
    case SetStatus(envid, status) => SetStatusDone(t, t', envid, status, r) && s' == s
    case Destroy(envid) => DestroyDone(s, t, s', t', envid, r)
    case TrySend(envid, value, srcva, perm) => SendDone(s, a, t, s', t', envid, value, srcva, perm, r)
    case Recv(dstva) => RecvDone(t, t', dstva, r) && s' == s
    case Yield => OnlyStatus(t.envs, t'.envs) && s' == s
  }

  ghost predicate CallDone(s: Space, a: Alloc, t: Table, s': Space, t': Table, c: Call, r: int) {
    forall n: nat {:trigger Detail(n)} :: n == 0 ==> Effect(s, a, t, s', t', c, r)
  }

  lemma Effected(s: Space, a: Alloc, t: Table, s': Space, t': Table, c: Call, r: int)
    requires Effect(s, a, t, s', t', c, r)
    ensures CallDone(s, a, t, s', t', c, r)
  {}

  // ---- giving the CPU away ----

  /** The caller destroyed itself. */
  ghost predicate Exits(t: Table, c: Call, r: int) {
    c.Destroy? && r == 0 && t.cur.Some? && Names(t, c.envid, t.cur.value)
  }

  /** The call gives the CPU away by itself: a tick, a wait, or the end of the caller. */
  ghost predicate GivesUp(t: Table, c: Call, r: int) { c.Yield? || (c.Recv? && r == 0) || Exits(t, c, r) }

  /** The statuses and the curenv that its sched_yield finds. */
  ghost function AtYield(t: Table, c: Call): Table
    requires t.cur.Some? && t.cur.value < |t.envs|
  {
    var me := t.cur.value;
    match c
    case Recv(dstva) => t.(envs := t.envs[me := t.envs[me].(recving := true, dstva := dstva, status := NOT_RUNNABLE)])
    case Destroy(_) => t.(envs := t.envs[me := t.envs[me].(status := FREE)], cur := None)
    case _ => t
  }

  predicate Panics(c: Call, r: int) { c.PageMap? && r == PANIC }

  /** Where the call left control: `ended` if it does not come back to the trap, `halted` if nothing goes on. */
  ghost predicate Parts(t: Table, t': Table, c: Call, r: int, ended: bool, halted: bool) {
    && t.cur.Some? && t.cur.value < |t.envs|
    && (ended <==> Panics(c, r) || GivesUp(t, c, r))
    && (Panics(c, r) ==> halted && t' == t)
    && (GivesUp(t, c, r) ==> Scheduled(AtYield(t, c), t', halted))
    && (!ended ==> !halted && t'.cur == t.cur)
  }

  ghost predicate Parted(t: Table, t': Table, c: Call, r: int, ended: bool, halted: bool) {
    forall n: nat {:trigger Detail(n)} :: n == 0 ==> Parts(t, t', c, r, ended, halted)
  }

  lemma PartedSo(t: Table, t': Table, c: Call, r: int, ended: bool, halted: bool)
    requires Parts(t, t', c, r, ended, halted)
    ensures Parted(t, t', c, r, ended, halted)
  {}

  /** A call that keeps the CPU. */
  lemma StaysOn(t: Table, t': Table, c: Call, r: int)
    requires t.cur.Some? && t.cur.value < |t.envs| && t'.cur == t.cur && !Panics(c, r) && !GivesUp(t, c, r)
    ensures Parted(t, t', c, r, false, false)
  {
    PartedSo(t, t', c, r, false, false);
  }

  /** Which post a call with result r makes: a message that went through, a wait that began, a child, or none. */
  ghost predicate PostOf(t: Table, c: Call, r: int, p: Post) {
    match c
    case TrySend(envid, _, _, _) => if r == 0 then p.Sent? && Names(t, envid, p.e) else p == Quiet
    case Recv(_) => if r == 0 then t.cur.Some? && p == Waited(t.cur.value) else p == Quiet
    case Exofork =>
      if r > 0 then p.Forked? && |t.envs| == NENV && p.e < NENV && t.envs[p.e].status == FREE else p == Quiet
    case _ => p == Quiet
  }

  /** All that a call leaves behind: its effect, its post, and where control is. */
  ghost predicate Handled(s: Space, a: Alloc, t: Table, s': Space, t': Table, c: Call, r: int, ended: bool,
                          halted: bool, post: Post) {
    && CallDone(s, a, t, s', t', c, r) && Posted(t, t', post) && PostOf(t, c, r, post)
    && Parted(t, t', c, r, ended, halted)
  }

  lemma SendHandled(s: Space, a: Alloc, t: Table, s': Space, t': Table, c: Call, r: int, post: Post)
    requires c.TrySend? && SendDone(s, a, t, s', t', c.envid, c.value, c.srcva, c.perm, r)
    requires t.cur.Some? && t.cur.value < |t.envs| && t'.cur == t.cur && Posted(t, t', post) && PostOf(t, c, r, post)
    ensures Handled(s, a, t, s', t', c, r, false, false, post)
  {
    Effected(s, a, t, s', t', c, r);
    StaysOn(t, t', c, r);
  }
}
