/** The environment table: ids, the free list of slots, scheduling order and IPC bookkeeping. */
module EnvTable {
  import opened Base
  import opened Paging
  import opened Accounting

  datatype Status = FREE | DYING | RUNNABLE | RUNNING | NOT_RUNNABLE

  datatype Env = Env(status: Status, id: int, parent: int,
                     recving: bool, dstva: nat, value: nat, from: int, perm: nat)

  const GENERATIONS := 0x7FFFF   // 2^19 - 1 distinct generations before the sign wrap

  /** Two's-complement reading of a 32-bit sum. */
  function Wrap32(x: int): int {
    var m := x % 0x1_0000_0000;
    if m < 0x8000_0000 then m else m - 0x1_0000_0000
  }

  /** ENVX */
  function Slot(id: int): nat { id % NENV }

  /** The id env_alloc gives slot i, whose previous id was `id`. */
  function NextId(id: int, i: nat): int
    requires i < NENV
  {
    var g := Wrap32(id + 0x1000);
    var generation := g - g % NENV;
    (if generation <= 0 then 0x1000 else generation) + i
  }

  /** The id slot i carries after its n-th allocation. */
  function IdOf(n: nat, i: nat): int {
    if n == 0 then 0 else 0x1000 * ((n - 1) % GENERATIONS + 1) + i
  }

  lemma NextIdIsNth(n: nat, i: nat)
    requires i < NENV
    ensures NextId(IdOf(n, i), i) == IdOf(n + 1, i)
  {
    if n > 0 {
      ModStep(n - 1);
      Successor((n - 1) % GENERATIONS + 1, i);
    }
  }

  lemma Successor(k: nat, i: nat)
    requires 1 <= k <= GENERATIONS && i < NENV
    ensures NextId(0x1000 * k + i, i) == 0x1000 * (if k == GENERATIONS then 1 else k + 1) + i
  {
    var x := 0x1000 * k + i + 0x1000;
    if k == GENERATIONS {
      assert x == 0x8000_0000 + i;
      assert Wrap32(x) == NENV * -0x20_0000 + i;
      SlotPart(-0x20_0000, i);
    } else {
      assert x < 0x8000_0000 && Wrap32(x) == x == NENV * (4 * (k + 1)) + i;
      SlotPart(4 * (k + 1), i);
    }
  }

  lemma SlotPart(q: int, i: nat)
    requires i < NENV
    ensures (NENV * q + i) % NENV == i
  {
    assert (NENV * q + i) / NENV == q;
  }

  lemma ModStep(m: nat)
    ensures (m + 1) % GENERATIONS == if m % GENERATIONS + 1 == GENERATIONS then 0 else m % GENERATIONS + 1
  {}

  /** Ids are positive and carry their slot; an id comes back only after 2^19 - 1 more allocations of its slot. */
  lemma IdsRecur(a: nat, i: nat, b: nat, j: nat)
    requires 0 < a && 0 < b && i < NENV && j < NENV
    ensures 0 < IdOf(a, i) < 0x8000_0000 && Slot(IdOf(a, i)) == i
    ensures IdOf(a, i) == IdOf(b, j) <==> i == j && (a - b) % GENERATIONS == 0
  {
    var k, l := (a - 1) % GENERATIONS + 1, (b - 1) % GENERATIONS + 1;
    assert IdOf(a, i) == NENV * (4 * k) + i && IdOf(b, j) == NENV * (4 * l) + j;
    SlotPart(4 * k, i);
    SlotPart(4 * l, j);
    SameResidue(a - 1, b - 1);
  }

  lemma SameResidue(a: nat, b: nat)
    ensures a % GENERATIONS == b % GENERATIONS <==> (a - b) % GENERATIONS == 0
  {
    var p, q := a / GENERATIONS, b / GENERATIONS;
    var u, v := a % GENERATIONS, b % GENERATIONS;
    assert a - b == GENERATIONS * (p - q) + (u - v);
    Residue(p - q, u - v);
  }

  lemma Residue(m: int, x: int)
    requires -GENERATIONS < x < GENERATIONS
    ensures (GENERATIONS * m + x) % GENERATIONS == if x < 0 then x + GENERATIONS else x
  {}

  ghost predicate FreeSlots(envs: seq<Env>, link: seq<Option<nat>>, head: Option<nat>, free: seq<nat>) {
    && |envs| == |link| == NENV
    && Chain(head, link, free)
    && forall i :: i in free <==> 0 <= i < NENV && envs[i].status == FREE
  }

  ghost predicate Rooted(envs: seq<Env>, pgdir: seq<Option<Frame>>) {
    && |envs| == |pgdir| == NENV
    && forall i :: 0 <= i < NENV ==> (pgdir[i].Some? <==> envs[i].status != FREE)
  }

  /** At most one environment is RUNNING and it is curenv. */
  ghost predicate OneRunning(envs: seq<Env>, cur: Option<nat>) {
    && |envs| == NENV
    && (forall i :: 0 <= i < NENV && envs[i].status == RUNNING ==> cur == Some(i))
    && (cur.Some? ==> cur.value < NENV && envs[cur.value].status != FREE)
  }

  ghost predicate Numbered(envs: seq<Env>, allocs: seq<nat>) {
    && |envs| == |allocs| == NENV
    && forall i :: 0 <= i < NENV ==> envs[i].id == IdOf(allocs[i], i) && (envs[i].status != FREE ==> allocs[i] > 0)
  }

  /** Deliveries to a slot, plus one if it is waiting, never exceed its receive calls. */
  ghost predicate Rendezvous(envs: seq<Env>, sends: seq<nat>, recvs: seq<nat>) {
    && |envs| == |sends| == |recvs| == NENV
    && forall i :: 0 <= i < NENV ==> sends[i] + (if envs[i].recving then 1 else 0) <= recvs[i]
  }

  /** Two live environments never share an id. */
  lemma LiveIdsDistinct(envs: seq<Env>, allocs: seq<nat>, i: nat, j: nat)
    requires Numbered(envs, allocs) && i < NENV && j < NENV
    requires envs[i].status != FREE && envs[j].status != FREE && envs[i].id == envs[j].id
    ensures i == j
  {
    IdsRecur(allocs[i], i, allocs[j], j);
  }

  /** An id that slot i once had does not name slot i again until 2^19 - 1 more allocations. */
  lemma StaleIdStaysStale(envs: seq<Env>, allocs: seq<nat>, i: nat, then_: nat)
    requires Numbered(envs, allocs) && i < NENV
    requires 0 < then_ < allocs[i] < then_ + GENERATIONS
    ensures forall j :: 0 <= j < NENV && envs[j].status != FREE ==> envs[j].id != IdOf(then_, i)
  {
    forall j | 0 <= j < NENV && envs[j].status != FREE ensures envs[j].id != IdOf(then_, i) {
      IdsRecur(allocs[j], j, then_, i);
    }
  }

  // ---- round robin ----

  /** How many slots sched_yield passes over before reaching j, scanning from just after `from`. */
  function Dist(from: nat, j: nat): nat { (j - from - 1) % NENV }

  /** A yield from slot `from` that picked k although j was runnable. */
  ghost predicate Fair(from: nat, k: nat, j: nat) {
    from < NENV && k < NENV && Dist(from, k) <= Dist(from, j)
  }

  /** Counting on from `from`, without the remainder. */
  lemma DistIs(from: nat, j: nat)
    requires from < NENV && j < NENV
    ensures Dist(from, j) == if from < j then j - from - 1 else j - from - 1 + NENV
  {
    if from < j {
      SlotPart(0, j - from - 1);
    } else {
      SlotPart(-1, j - from - 1 + NENV);
    }
  }

  lemma DistShrinks(from: nat, k: nat, j: nat)
    requires Fair(from, k, j) && j < NENV && k != j
    ensures Dist(k, j) < Dist(from, j)
  {
    DistIs(from, k);
    DistIs(from, j);
    DistIs(k, j);
  }

  // ---- the table as a whole ----

  /** envs with env_link, env_free_list (and the slots it threads), curenv, and per-slot tallies. */
  datatype Table = Table(envs: seq<Env>, link: seq<Option<nat>>, head: Option<nat>, cur: Option<nat>,
                         ghost free: seq<nat>, ghost allocs: seq<nat>, ghost sends: seq<nat>, ghost recvs: seq<nat>)

  ghost predicate Orderly(t: Table, pgdir: seq<Option<Frame>>) {
    && FreeSlots(t.envs, t.link, t.head, t.free)
    && Rooted(t.envs, pgdir)
    && OneRunning(t.envs, t.cur)
    && Numbered(t.envs, t.allocs)
    && Rendezvous(t.envs, t.sends, t.recvs)
  }

  // ---- schedules ----

  /** The slot sched_yield counts from: curenv's, or the last one when there is no curenv. */
  function YieldFrom(t: Table): nat { if t.cur.None? then NENV - 1 else t.cur.value }

  /** The slots after env_run hands the CPU from cur to k. */
  function Handed(envs: seq<Env>, cur: Option<nat>, k: nat): seq<Env>
    requires k < |envs| && (cur.Some? ==> cur.value < |envs|)
  {
    var off := if cur.Some? && envs[cur.value].status == RUNNING
               then envs[cur.value := envs[cur.value].(status := RUNNABLE)] else envs;
    off[k := off[k].(status := RUNNING)]
  }

  /** sched_yield, looking at table t, handed the CPU to the nearest runnable slot, or back for want of one. */
  ghost predicate Picked(t: Table, t': Table) {
    && |t.envs| == NENV && (t.cur.Some? ==> t.cur.value < NENV) && t'.cur.Some? && t'.cur.value < NENV
    && t'.envs == Handed(t.envs, t.cur, t'.cur.value)
    && (t.envs[t'.cur.value].status == RUNNABLE
        || (t'.cur.value == YieldFrom(t) && t.envs[t'.cur.value].status == RUNNING))
    && forall j :: 0 <= j < NENV && t.envs[j].status == RUNNABLE ==> Fair(YieldFrom(t), t'.cur.value, j)
  }

  ghost predicate NothingRuns(envs: seq<Env>) {
    forall j :: 0 <= j < |envs| ==> envs[j].status != RUNNABLE && envs[j].status != RUNNING
  }

  /** What sched_yield made of table t: a pick, or the monitor, which it enters only when nothing can run. */
  ghost predicate Scheduled(t: Table, t': Table, stopped: bool) {
    if stopped then NothingRuns(t.envs) && t'.envs == t.envs && t'.cur == t.cur else Picked(t, t')
  }

  /** The current environment is still running. */
  predicate RunsOn(t: Table) { t.cur.Some? && t.cur.value < |t.envs| && t.envs[t.cur.value].status == RUNNING }

  /** Slot e, the first free one, is live with a fresh id; its IPC fields are left over from its last user. */
  ghost predicate SlotGiven(t: Table, t': Table, e: nat, parent: int) {
    && |t.envs| == |t.allocs| == NENV && e < NENV
    && t.free == [e] + t'.free && t.envs[e].status == FREE
    && t'.allocs == t.allocs[e := t.allocs[e] + 1]
    && t'.envs == t.envs[e := t.envs[e].(id := IdOf(t'.allocs[e], e), parent := parent, status := RUNNABLE)]
    && t' == t.(envs := t'.envs, head := t'.head, free := t'.free, allocs := t'.allocs)
  }

  lemma SlotTaken(t: Table, t': Table, pgdir: seq<Option<Frame>>, pgdir': seq<Option<Frame>>, e: nat, parent: int)
    requires Orderly(t, pgdir) && t.head == Some(e)
    requires |pgdir'| == NENV && e < NENV && pgdir' == pgdir[e := pgdir'[e]] && pgdir'[e].Some?
    requires t' == t.(envs := t.envs[e := t.envs[e].(id := NextId(t.envs[e].id, e), parent := parent,
                                                     status := RUNNABLE)],
                      allocs := t.allocs[e := t.allocs[e] + 1], head := t.link[e], free := t.free[1..])
    ensures Orderly(t', pgdir') && SlotGiven(t, t', e, parent)
  {
    NextIdIsNth(t.allocs[e], e);
    SlotPopped(t.envs, t.link, t.head, t.free, e, t'.envs[e]);
  }

  /** The free slots without the first, which is no longer free. */
  lemma SlotPopped(envs: seq<Env>, link: seq<Option<nat>>, head: Option<nat>, free: seq<nat>, e: nat, env: Env)
    requires FreeSlots(envs, link, head, free) && head == Some(e) && e < NENV && env.status != FREE
    ensures free != [] && e == free[0] && e in free && FreeSlots(envs[e := env], link, link[e], free[1..])
  {
    assert free != [];
    ChainTail(head, link, free);
    forall i ensures i in free[1..] <==> 0 <= i < NENV && envs[e := env][i].status == FREE {
      assert i in free <==> i == e || i in free[1..];
    }
  }

  /** The list without its head, whose own link is left in place. */
  lemma ChainTail(head: Option<nat>, link: seq<Option<nat>>, free: seq<nat>)
    requires Chain(head, link, free) && free != []
    ensures head == Some(free[0]) && free[0] !in free[1..]
    ensures Chain(link[free[0]], link, free[1..])
  {
    ChainPop(head, link, free);
    var rest := free[1..];
    assert link[free[0]] == After(free, 0);
    forall i {:trigger After(rest, i)} | 0 <= i < |rest| ensures link[rest[i]] == After(rest, i) {
      assert rest[i] == free[i + 1] && After(rest, i) == After(free, i + 1);
      assert link[free[i + 1]] == After(free, i + 1);
    }
  }

  lemma SlotReturned(t: Table, t': Table, pgdir: seq<Option<Frame>>, e: nat)
    requires Orderly(t, pgdir) && e < NENV && t.envs[e].status != FREE
    requires t' == t.(envs := t.envs[e := t.envs[e].(status := FREE)], link := t.link[e := t.head],
                      head := Some(e), free := [e] + t.free, cur := if t.cur == Some(e) then None else t.cur)
    ensures Orderly(t', pgdir[e := None])
  {
    ChainPush(t.head, t.link, t.free, e);
  }

  /** envs' differs from envs in statuses alone, and no slot becomes free or stops being free. */
  ghost predicate OnlyStatus(envs: seq<Env>, envs': seq<Env>) {
    && |envs'| == |envs|
    && forall i :: 0 <= i < |envs| ==>
         && envs'[i] == envs[i].(status := envs'[i].status)
         && (envs'[i].status == FREE <==> envs[i].status == FREE)
  }

  lemma StatusMoved(t: Table, t': Table, pgdir: seq<Option<Frame>>)
    requires Orderly(t, pgdir) && OnlyStatus(t.envs, t'.envs)
    requires t' == t.(envs := t'.envs, cur := t'.cur) && OneRunning(t'.envs, t'.cur)
    ensures Orderly(t', pgdir)
  {}

  /** Slot e alone is allocated once more, as a child of the caller with the slot's next id r, not yet runnable. */
  ghost predicate Child(t: Table, t': Table, e: nat, r: int) {
    && t'.cur == t.cur && |t.envs| == |t.allocs| == |t'.allocs| == NENV && e < NENV && t.cur.Some? && t.cur.value < NENV
    && t.envs[e].status == FREE && t'.allocs == t.allocs[e := t.allocs[e] + 1] && r == IdOf(t'.allocs[e], e)
    && t'.envs == t.envs[e := t.envs[e].(id := r, parent := t.envs[t.cur.value].id, status := NOT_RUNNABLE)]
  }

  /** The id a free slot gets next is nobody's. */
  lemma NextIdIsNobodys(t: Table, pgdir: seq<Option<Frame>>, e: nat, r: int)
    requires Orderly(t, pgdir) && e < NENV && t.envs[e].status == FREE && r == IdOf(t.allocs[e] + 1, e)
    ensures r > 0 && forall i: nat :: !Names(t, r, i)
  {
    IdsRecur(t.allocs[e] + 1, e, t.allocs[e] + 1, e);
    forall i: nat ensures !Names(t, r, i) {
      if i < NENV && t.envs[i].status != FREE { IdsRecur(t.allocs[i], i, t.allocs[e] + 1, e); }
    }
  }

  /** env_alloc for the current environment, and the store of NOT_RUNNABLE after it. */
  lemma ChildMade(t: Table, t1: Table, t2: Table, pgdir: seq<Option<Frame>>, e: nat)
    requires t.cur.Some? && t.cur.value < |t.envs| && SlotGiven(t, t1, e, t.envs[t.cur.value].id) && Orderly(t1, pgdir)
    requires t2 == t1.(envs := t1.envs[e := t1.envs[e].(status := NOT_RUNNABLE)])
    ensures Orderly(t2, pgdir) && t2.cur == t.cur && t2.envs[e].id > 0 && Child(t, t2, e, t2.envs[e].id)
    ensures Posted(t, t2, Forked(e))
  {
    IdsRecur(t1.allocs[e], e, t1.allocs[e], e);
    StatusMoved(t1, t2, pgdir);
    Enter(t, t2, Forked(e));
  }

  lemma DistNext(from: nat, i: nat)
    requires from < NENV && i < NENV && i != from
    ensures Dist(from, i) < NENV - 1 && Dist(from, (i + 1) % NENV) == Dist(from, i) + 1
  {
    DistIs(from, i);
    DistIs(from, (i + 1) % NENV);
  }

  lemma DistInjective(from: nat, i: nat, j: nat)
    requires from < NENV && i < NENV && j < NENV && Dist(from, i) == Dist(from, j)
    ensures i == j
  {
    DistIs(from, i);
    DistIs(from, j);
  }

  /** The scan of sched_yield: the nearest runnable slot, the starting one included last. */
  method FindRunnable(envs: seq<Env>, from: nat) returns (k: Option<nat>)
    requires |envs| == NENV && from < NENV
    ensures k.Some? ==> k.value < NENV
    ensures k.Some? ==> envs[k.value].status == RUNNABLE || (k.value == from && envs[from].status == RUNNING)
    ensures k.Some? ==> forall j :: 0 <= j < NENV && envs[j].status == RUNNABLE ==> Fair(from, k.value, j)
    ensures k.None? ==> envs[from].status != RUNNING && forall j :: 0 <= j < NENV ==> envs[j].status != RUNNABLE
  {
    var i := (from + 1) % NENV;
    while i != from
      invariant 0 <= i < NENV
      invariant forall j :: 0 <= j < NENV && Dist(from, j) < Dist(from, i) ==> envs[j].status != RUNNABLE
      decreases NENV - Dist(from, i)
    {
      DistNext(from, i);
      if envs[i].status == RUNNABLE {
        return Some(i);
      }
      forall j | 0 <= j < NENV && Dist(from, j) < Dist(from, (i + 1) % NENV) ensures envs[j].status != RUNNABLE {
        if Dist(from, j) == Dist(from, i) { DistInjective(from, i, j); }
      }
      i := (i + 1) % NENV;
    }
    forall j | 0 <= j < NENV && Dist(from, j) >= Dist(from, from) ensures j == from { DistInjective(from, from, j); }
    if envs[from].status == RUNNABLE || envs[from].status == RUNNING {
      return Some(from);
    }
    return None;
  }

  // ---- naming environments ----

  /** envid names slot i: 0 is the caller, anything else is the id of a live environment. */
  ghost predicate Names(t: Table, envid: int, i: nat) {
    |t.envs| == NENV && i < NENV && t.envs[i].status != FREE
      && if envid == 0 then t.cur == Some(i) else t.envs[i].id == envid
  }

  /** The caller may change slot i: itself or one of its children. */
  ghost predicate MayChange(t: Table, i: nat) {
    && |t.envs| == NENV && i < NENV && t.cur.Some? && t.cur.value < NENV
    && (t.cur == Some(i) || t.envs[i].parent == t.envs[t.cur.value].id)
  }

  lemma NamesOne(t: Table, pgdir: seq<Option<Frame>>, envid: int, i: nat, j: nat)
    requires Orderly(t, pgdir) && Names(t, envid, i) && Names(t, envid, j)
    ensures i == j
  {
    if envid != 0 { LiveIdsDistinct(t.envs, t.allocs, i, j); }
  }

  // ---- IPC ----

  /** A message lands in slot e: the wait is over and the slot can run. */
  lemma Delivered(t: Table, t': Table, pgdir: seq<Option<Frame>>, e: nat, env: Env)
    requires Orderly(t, pgdir) && e < NENV && t.envs[e].status != FREE && t.envs[e].recving
    requires env.id == t.envs[e].id && env.status == RUNNABLE && !env.recving
    requires t' == t.(envs := t.envs[e := env], sends := t.sends[e := t.sends[e] + 1])
    ensures Orderly(t', pgdir)
  {}

  /** Slot e starts waiting. */
  lemma Waiting(t: Table, t': Table, pgdir: seq<Option<Frame>>, e: nat, env: Env)
    requires Orderly(t, pgdir) && e < NENV && t.envs[e].status != FREE
    requires env.id == t.envs[e].id && env.status == NOT_RUNNABLE && env.recving
    requires t' == t.(envs := t.envs[e := env], recvs := t.recvs[e := t.recvs[e] + 1])
    ensures Orderly(t', pgdir)
  {}

  /** Slot e received the message; `perm` is the caller's page permission when it offered a page. */
  ghost predicate SentTo(t: Table, t': Table, e: nat, value: nat, perm: Option<nat>) {
    && |t.envs| == |t.sends| == NENV && e < NENV && t.cur.Some? && t.cur.value < NENV && t.envs[e].recving
    && var to := t.envs[e];
    && var moved := perm.Some? && to.dstva < 0xEEC0_0000;
    && t' == t.(envs := t.envs[e := to.(value := value, from := t.envs[t.cur.value].id, recving := false,
                                        status := RUNNABLE, perm := if moved then perm.value else to.perm)],
                sends := t.sends[e := t.sends[e] + 1])
  }

  /** What a call did to a slot's mail or id: nothing, a message to it, the start of a wait, or its allocation. */
  datatype Post = Quiet | Sent(e: nat) | Waited(e: nat) | Forked(e: nat)

  /** One slot: the flag, the mail and the id move only as the post says. */
  ghost predicate SlotPosted(was: Env, now: Env, i: nat, p: Post) {
    && (p != Sent(i) && p != Waited(i) ==> now.recving == was.recving)
    && (p == Sent(i) ==> was.recving && !now.recving) && (p == Waited(i) ==> now.recving)
    && (p != Sent(i) ==> now.value == was.value && now.from == was.from)
    && (p != Forked(i) ==> now.id == was.id)
  }

  function Bump(s: seq<nat>, i: nat): seq<nat>
    requires i < |s|
  {
    s[i := s[i] + 1]
  }

  // Predicates about whole tables that proofs see through only after `assert Detail(0)`.
  predicate Detail(n: nat) { true }

  /** The whole table, tallies included. */
  ghost predicate Entered(t: Table, t': Table, p: Post) {
    && |t.envs| == |t'.envs| == |t.sends| == |t.recvs| == |t.allocs| == NENV && (p != Quiet ==> p.e < NENV)
    && t'.sends == (if p.Sent? then Bump(t.sends, p.e) else t.sends)
    && t'.recvs == (if p.Waited? then Bump(t.recvs, p.e) else t.recvs)
    && t'.allocs == (if p.Forked? then Bump(t.allocs, p.e) else t.allocs)
    && forall i :: 0 <= i < NENV ==> SlotPosted(t.envs[i], t'.envs[i], i, p)
  }

  ghost predicate Posted(t: Table, t': Table, p: Post) {
    forall n: nat {:trigger Detail(n)} :: n == 0 ==> Entered(t, t', p)
  }

  lemma Enter(t: Table, t': Table, p: Post)
    requires Entered(t, t', p)
    ensures Posted(t, t', p)
  {}

  /** Scheduling afterwards changes nothing of that. */
  lemma PostedThen(t: Table, t1: Table, t2: Table, p: Post)
    requires Posted(t, t1, p) && OnlyStatus(t1.envs, t2.envs) && t2 == t1.(envs := t2.envs, cur := t2.cur)
    ensures Posted(t, t2, p)
  {
    assert Detail(0);
    Enter(t, t2, p);
  }

  lemma PostedSelf(t: Table, pgdir: seq<Option<Frame>>)
    requires Orderly(t, pgdir)
    ensures Posted(t, t, Quiet)
  {
    Enter(t, t, Quiet);
  }
}
