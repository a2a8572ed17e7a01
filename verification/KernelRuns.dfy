/** Runs of the kernel: what every trap of a run did, who was scheduled, and what messages and ids add up to. */
module KernelRuns {
  import opened Base
  import opened Paging
  import opened Accounting
  import opened EnvTable
  import opened KernelCalls

  /** The state between traps. */
  datatype World = World(sp: Space, al: Alloc, tb: Table)

  /**
   A trap: the call and its result, what it posted, the table the call itself left, whether the
   kernel stopped, and the state after.
   */
  datatype Moment = Moment(call: Call, r: int, post: Post, done: Table, stopped: bool, now: World)

  /** The state before trap i of a run that starts in w. */
  ghost function Before(w: World, trace: seq<Moment>, i: nat): World
    requires i <= |trace|
  {
    if i == 0 then w else trace[i - 1].now
  }

  /** The state after the run. */
  ghost function Latest(w: World, trace: seq<Moment>): World { Before(w, trace, |trace|) }

  /**
   Where a trap from table t led: it stopped in a panic, or scheduled because its call gave the CPU away or
   because curenv no longer runs, or went back to curenv.  A schedule stops only when nothing can run.
   */
  ghost predicate Leads(t: Table, m: Moment) {
    && t.cur.Some? && t.cur.value < |t.envs|
    && if Panics(m.call, m.r) then m.stopped && m.now.tb == m.done
       else if GivesUp(t, m.call, m.r) then
         m.now.tb == m.done && Scheduled(AtYield(t, m.call), m.now.tb, m.stopped)
       else if RunsOn(m.done) then !m.stopped && m.now.tb == m.done
       else Scheduled(m.done, m.now.tb, m.stopped)
  }

  /** The same, on demand. */
  ghost predicate Led(t: Table, m: Moment) { forall n: nat {:trigger Detail(n)} :: n == 0 ==> Leads(t, m) }

  /** Trap m, from w, did what its call should, and went where it should. */
  ghost predicate Did(w: World, m: Moment) {
    && CallDone(w.sp, w.al, w.tb, m.now.sp, m.done, m.call, m.r) && OnlyStatus(m.done.envs, m.now.tb.envs)
    && PostOf(w.tb, m.call, m.r, m.post) && Led(w.tb, m)
  }

  /** The call parted, and the trap finished. */
  lemma DidThat(w: World, m: Moment, ended: bool, halted: bool)
    requires CallDone(w.sp, w.al, w.tb, m.now.sp, m.done, m.call, m.r) && OnlyStatus(m.done.envs, m.now.tb.envs)
    requires PostOf(w.tb, m.call, m.r, m.post) && Parted(w.tb, m.done, m.call, m.r, ended, halted)
    requires if ended then m.now.tb == m.done && m.stopped == halted
             else if RunsOn(m.done) then !m.stopped && m.now.tb == m.done
             else Scheduled(m.done, m.now.tb, m.stopped)
    ensures Did(w, m)
  {
    assert Leads(w.tb, m) by { assert Detail(0); }
  }

  /** A trap that does not stop the kernel ends with curenv running. */
  lemma GoesBack(w: World, m: Moment)
    requires Did(w, m) && !m.stopped
    ensures RunsOn(m.now.tb)
  {
    assert Detail(0);
  }

  /** The unknown permission bits that sys_page_map panics on, once its addresses and the other bits have passed. */
  ghost predicate UnknownBits(c: Call) {
    c.PageMap? && UserPage(c.srcva) && UserPage(c.dstva) && AsksUser(c.perm) && !OnlySyscallBits(c.perm)
  }

  /** The kernel stops exactly in that panic and where nothing can run. */
  lemma StopsExactly(w: World, m: Moment)
    requires Did(w, m)
    ensures m.stopped <==> UnknownBits(m.call) || NothingRuns(m.now.tb.envs)
  {
    assert Detail(0);
    if !m.stopped { GoesBack(w, m); }
  }

  ghost predicate DidAt(w: World, trace: seq<Moment>, i: nat) {
    i < |trace| ==> Did(Before(w, trace, i), trace[i])
  }

  ghost predicate Chronicle(w: World, trace: seq<Moment>) { forall i: nat :: DidAt(w, trace, i) }

  /** Every trap posted what it says, and nothing else. */
  ghost predicate PostedAt(w: World, trace: seq<Moment>, i: nat) {
    i < |trace| ==> Posted(Before(w, trace, i).tb, trace[i].now.tb, trace[i].post)
  }

  ghost predicate Books(w: World, trace: seq<Moment>) { forall i: nat :: PostedAt(w, trace, i) }

  // ---- schedules ----

  /** Only the last trap can have stopped the kernel. */
  ghost predicate Unbroken(trace: seq<Moment>) { forall i: nat :: i + 1 < |trace| ==> !trace[i].stopped }

  /** The run has not stopped. */
  ghost predicate GoesOn(trace: seq<Moment>) { trace != [] ==> !trace[|trace| - 1].stopped }

  /** Slot j could run while another one does. */
  ghost predicate Waits(t: Table, j: nat) {
    RunsOn(t) && |t.envs| == NENV && j < NENV && t.envs[j].status == RUNNABLE
  }

  ghost predicate Running(t: Table, j: nat) { RunsOn(t) && t.cur == Some(j) }

  /** Trap m from table t was one in which sched_yield was called. */
  ghost predicate Yielded(t: Table, m: Moment) {
    !Panics(m.call, m.r) && (GivesUp(t, m.call, m.r) || !RunsOn(m.done))
  }

  /** The number of yields, of ticks and of exits among traps a to b - 1. */
  ghost function Yields(w: World, trace: seq<Moment>, a: nat, b: nat): nat
    requires a <= b <= |trace|
  {
    if a == b then 0
    else Yields(w, trace, a, b - 1) + if Yielded(Before(w, trace, b - 1).tb, trace[b - 1]) then 1 else 0
  }

  ghost function Ticks(trace: seq<Moment>, a: nat, b: nat): nat
    requires a <= b <= |trace|
  {
    if a == b then 0 else Ticks(trace, a, b - 1) + if trace[b - 1].call.Yield? then 1 else 0
  }

  ghost function ExitsIn(w: World, trace: seq<Moment>, a: nat, b: nat): nat
    requires a <= b <= |trace|
  {
    if a == b then 0
    else ExitsIn(w, trace, a, b - 1)
         + if Exits(Before(w, trace, b - 1).tb, trace[b - 1].call, trace[b - 1].r) then 1 else 0
  }

  /** From trap a to trap b - 1 slot j could run, and did not. */
  ghost predicate Overlooked(w: World, trace: seq<Moment>, a: nat, b: nat, j: nat) {
    && a <= b <= |trace| && Waits(Before(w, trace, a).tb, j) && !Running(Before(w, trace, b).tb, j)
    && forall i: nat :: a <= i < b ==> Waits(Before(w, trace, i).tb, j)
  }

  /** A call that does not give the CPU away and stops its caller leaves every other slot as it was. */
  lemma OthersStay(w: World, m: Moment, j: nat)
    requires Did(w, m) && Waits(w.tb, j) && !GivesUp(w.tb, m.call, m.r) && !Panics(m.call, m.r) && !RunsOn(m.done)
    ensures m.done.cur == w.tb.cur && |m.done.envs| == NENV && m.done.envs[j].status == RUNNABLE
  {
    assert Detail(0);
  }

  /** One trap that passes j over: a yield brings j nearer, or starts again at slot 0 if the caller is gone. */
  lemma PassedOver(w: World, m: Moment, j: nat)
    requires Did(w, m) && Waits(w.tb, j) && !Running(m.now.tb, j)
    ensures m.now.tb.cur.Some? && m.now.tb.cur.value < NENV
    ensures !Yielded(w.tb, m) ==> m.now.tb.cur == w.tb.cur
    ensures Yielded(w.tb, m) && !Exits(w.tb, m.call, m.r) ==> Dist(m.now.tb.cur.value, j) < Dist(w.tb.cur.value, j)
    ensures Exits(w.tb, m.call, m.r) ==> Yielded(w.tb, m) && Dist(m.now.tb.cur.value, j) < j
  {
    assert Detail(0);
    if Yielded(w.tb, m) {
      if !GivesUp(w.tb, m.call, m.r) { OthersStay(w, m, j); }
      var look := if GivesUp(w.tb, m.call, m.r) then AtYield(w.tb, m.call) else m.done;
      assert look.envs[j].status == RUNNABLE;
      assert Picked(look, m.now.tb);
      DistShrinks(YieldFrom(look), m.now.tb.cur.value, j);
      DistIs(NENV - 1, j);
    }
  }

  /** No starvation: over any stretch of a run in which j could run and did not. */
  lemma {:induction false} NoStarvation(w: World, trace: seq<Moment>, a: nat, b: nat, j: nat)
    requires Chronicle(w, trace) && Overlooked(w, trace, a, b, j)
    ensures Before(w, trace, b).tb.cur.Some?
    ensures Dist(Before(w, trace, b).tb.cur.value, j) + Yields(w, trace, a, b)
         <= Dist(Before(w, trace, a).tb.cur.value, j) + j * ExitsIn(w, trace, a, b)
    ensures Ticks(trace, a, b) <= Yields(w, trace, a, b)
    decreases b - a
  {
    if a < b {
      var was, m := Before(w, trace, b - 1), trace[b - 1];
      assert Waits(was.tb, j) && DidAt(w, trace, b - 1);
      NoStarvation(w, trace, a, b - 1, j);
      PassedOver(was, m, j);
      AddsUp(Dist(Before(w, trace, a).tb.cur.value, j), Dist(was.tb.cur.value, j), Dist(m.now.tb.cur.value, j),
             Yields(w, trace, a, b - 1), ExitsIn(w, trace, a, b - 1), j, Yielded(was.tb, m),
             Exits(was.tb, m.call, m.r));
    }
  }

  lemma AddsUp(from: nat, was: nat, now: nat, picks: nat, exits: nat, j: nat, yielded: bool, exited: bool)
    requires was + picks <= from + j * exits && (exited ==> yielded && now < j)
    requires if yielded then exited || now < was else now == was
    ensures now + picks + (if yielded then 1 else 0) <= from + j * (exits + if exited then 1 else 0)
  {}

  ghost predicate AllServed(w: World, trace: seq<Moment>) {
    forall a: nat, b: nat, j: nat :: Overlooked(w, trace, a, b, j) ==>
      && Ticks(trace, a, b) <= Yields(w, trace, a, b)
      && Yields(w, trace, a, b) <= Dist(Before(w, trace, a).tb.cur.value, j) + j * ExitsIn(w, trace, a, b)
  }

  /** The same, on demand. */
  ghost predicate NobodyStarves(w: World, trace: seq<Moment>) {
    forall n: nat {:trigger Detail(n)} :: n == 0 ==> AllServed(w, trace)
  }

  lemma ScheduleServes(w: World, trace: seq<Moment>)
    requires Chronicle(w, trace)
    ensures AllServed(w, trace) && NobodyStarves(w, trace)
  {
    forall a: nat, b: nat, j: nat | Overlooked(w, trace, a, b, j)
      ensures Ticks(trace, a, b) <= Yields(w, trace, a, b)
      ensures Yields(w, trace, a, b) <= Dist(Before(w, trace, a).tb.cur.value, j) + j * ExitsIn(w, trace, a, b)
    {
      NoStarvation(w, trace, a, b, j);
    }
  }

  // ---- messages and ids ----

  /** How often a run posts p: messages that reached a slot, waits it began, or allocations of it. */
  ghost function Tally(trace: seq<Moment>, p: Post): nat {
    if trace == [] then 0
    else Tally(trace[..|trace| - 1], p) + if trace[|trace| - 1].post == p then 1 else 0
  }

  function Flag(t: Table, j: nat): nat
    requires j < |t.envs|
  {
    if t.envs[j].recving then 1 else 0
  }

  /**
   Slot j over a run from t to t': every message that reached it used up a wait, what it had received stays until
   its next wait, and its allocations are counted.
   */
  ghost predicate Balanced(t: Table, t': Table, trace: seq<Moment>, j: nat) {
    && |t.envs| == |t'.envs| == |t.allocs| == |t'.allocs| == NENV && j < NENV
    && Tally(trace, Sent(j)) + Flag(t', j) <= Tally(trace, Waited(j)) + Flag(t, j)
    && (!t.envs[j].recving && Tally(trace, Waited(j)) == 0 ==>
          !t'.envs[j].recving && t'.envs[j].value == t.envs[j].value && t'.envs[j].from == t.envs[j].from)
    && t'.allocs[j] == t.allocs[j] + Tally(trace, Forked(j))
    && (Tally(trace, Forked(j)) == 0 ==> t'.envs[j].id == t.envs[j].id)
  }

  lemma TallyMore(trace: seq<Moment>, m: Moment, p: Post)
    ensures Tally(trace + [m], p) == Tally(trace, p) + if m.post == p then 1 else 0
  {
    assert (trace + [m])[..|trace|] == trace;
  }

  lemma BalancedNext(t: Table, t1: Table, t2: Table, trace: seq<Moment>, m: Moment, j: nat)
    requires Balanced(t, t1, trace, j) && Posted(t1, t2, m.post)
    ensures Balanced(t, t2, trace + [m], j)
  {
    assert Detail(0);
    assert SlotPosted(t1.envs[j], t2.envs[j], j, m.post);
    TallyMore(trace, m, Sent(j));
    TallyMore(trace, m, Waited(j));
    TallyMore(trace, m, Forked(j));
  }

  lemma {:induction false} RunBalances(w: World, trace: seq<Moment>, j: nat)
    requires Books(w, trace) && j < NENV && |w.tb.envs| == |w.tb.allocs| == NENV
    ensures Balanced(w.tb, Latest(w, trace).tb, trace, j)
    decreases |trace|
  {
    if trace != [] {
      var n := |trace| - 1;
      var init := trace[..n];
      forall i: nat ensures PostedAt(w, init, i) {
        assert PostedAt(w, trace, i);
      }
      RunBalances(w, init, j);
      assert PostedAt(w, trace, n) && trace == init + [trace[n]];
      BalancedNext(w.tb, Latest(w, init).tb, trace[n].now.tb, init, trace[n], j);
    }
  }

  /** An id does not name anybody while its slot has been allocated again, but fewer than 2^19 - 1 times. */
  ghost predicate StaysStale(t: Table, t': Table, trace: seq<Moment>, j: nat) {
    && |t.envs| == |t'.envs| == |t.allocs| == NENV && j < NENV
    && (t.allocs[j] > 0 && 1 <= Tally(trace, Forked(j)) < GENERATIONS ==>
          forall i :: 0 <= i < NENV && t'.envs[i].status != FREE ==> t'.envs[i].id != t.envs[j].id)
  }

  lemma OldIdsStayStale(w: World, trace: seq<Moment>, j: nat)
    requires Books(w, trace) && j < NENV && Numbered(w.tb.envs, w.tb.allocs)
    requires Numbered(Latest(w, trace).tb.envs, Latest(w, trace).tb.allocs)
    ensures StaysStale(w.tb, Latest(w, trace).tb, trace, j)
  {
    RunBalances(w, trace, j);
    var t, t' := w.tb, Latest(w, trace).tb;
    if t.allocs[j] > 0 && 1 <= Tally(trace, Forked(j)) < GENERATIONS {
      StaleIdStaysStale(t'.envs, t'.allocs, j, t.allocs[j]);
    }
  }

  /** All of that, for every slot. */
  ghost predicate AllBalanced(w: World, trace: seq<Moment>) {
    forall j: nat :: j < NENV ==>
      Balanced(w.tb, Latest(w, trace).tb, trace, j) && StaysStale(w.tb, Latest(w, trace).tb, trace, j)
  }

  /** The same, on demand. */
  ghost predicate Ledger(w: World, trace: seq<Moment>) {
    forall n: nat {:trigger Detail(n)} :: n == 0 ==> AllBalanced(w, trace)
  }

  lemma BooksMakeLedger(w: World, trace: seq<Moment>)
    requires Books(w, trace) && Numbered(w.tb.envs, w.tb.allocs)
    requires Numbered(Latest(w, trace).tb.envs, Latest(w, trace).tb.allocs)
    ensures AllBalanced(w, trace) && Ledger(w, trace)
  {
    forall j: nat | j < NENV
      ensures Balanced(w.tb, Latest(w, trace).tb, trace, j) && StaysStale(w.tb, Latest(w, trace).tb, trace, j)
    {
      RunBalances(w, trace, j);
      OldIdsStayStale(w, trace, j);
    }
  }

  // ---- memory ----

  /** Somebody maps frame f. */
  ghost predicate MappedIn(s: Space, f: Frame) {
    exists e: nat, d: nat, t: nat :: e < NENV && PteAt(s, e, d, t).Some? && PteAt(s, e, d, t).value.frame == f
  }

  ghost function WordOf(s: Space, f: Frame, x: nat): Option<Entry> {
    if f < |s.mem| && x < |s.mem[f]| then Some(s.mem[f][x]) else None
  }

  /** Trap m from w is user code storing word x of frame f. */
  ghost predicate StoresTo(w: World, m: Moment, f: Frame, x: nat) {
    && m.call.Store? && m.r == 0 && w.tb.cur.Some? && m.call.i == x
    && PteAt(w.sp, w.tb.cur.value, m.call.d, m.call.t).Some?
    && PteAt(w.sp, w.tb.cur.value, m.call.d, m.call.t).value.frame == f
  }

  /** The word last stored to word x of frame f by traps a to b - 1, or the one there before. */
  ghost function LastStored(w: World, trace: seq<Moment>, a: nat, b: nat, f: Frame, x: nat): Option<Entry>
    requires a <= b <= |trace|
  {
    if a == b then WordOf(Before(w, trace, a).sp, f, x)
    else if StoresTo(Before(w, trace, b - 1), trace[b - 1], f, x) then Some(trace[b - 1].call.w)
    else LastStored(w, trace, a, b - 1, f, x)
  }

  /** A call other than a store leaves every mapped page as it is. */
  lemma CallKeeps(w: World, m: Moment, f: Frame)
    requires Did(w, m) && MappedIn(w.sp, f) && !m.call.Store?
    ensures f < |w.sp.mem| && f < |m.now.sp.mem| ==> m.now.sp.mem[f] == w.sp.mem[f]
    ensures f < |w.sp.mem| ==> f < |m.now.sp.mem|
  {
    assert Detail(0);
    var e: nat, d: nat, t: nat :| e < NENV && PteAt(w.sp, e, d, t).Some? && PteAt(w.sp, e, d, t).value.frame == f;
    match m.call
    case TrySend(envid, _, srcva, perm) =>
      if m.r == 0 && m.now.sp != w.sp { assert PagesKept(w.sp, m.now.sp); }
    case _ =>
  }

  lemma StoreKeeps(w: World, m: Moment, f: Frame, x: nat)
    requires Did(w, m) && m.call.Store?
    ensures WordOf(m.now.sp, f, x) == if StoresTo(w, m, f, x) then Some(m.call.w) else WordOf(w.sp, f, x)
  {
    assert Detail(0);
  }

  /** One trap: a word of a mapped page changes only by a store to it. */
  lemma WordStep(w: World, m: Moment, f: Frame, x: nat)
    requires Did(w, m) && MappedIn(w.sp, f) && f < |w.sp.mem|
    ensures WordOf(m.now.sp, f, x) == if StoresTo(w, m, f, x) then Some(m.call.w) else WordOf(w.sp, f, x)
  {
    if m.call.Store? { StoreKeeps(w, m, f, x); } else { CallKeeps(w, m, f); }
  }

  /** Before every trap from a to b - 1 somebody maps frame f. */
  ghost predicate StaysMapped(w: World, trace: seq<Moment>, a: nat, b: nat, f: Frame) {
    && a <= b <= |trace| && f < |Before(w, trace, a).sp.mem|
    && forall i: nat :: a <= i < b ==> MappedIn(Before(w, trace, i).sp, f)
  }

  /** Over any stretch of a run in which a frame stays mapped, each of its words is the one last stored there. */
  lemma {:induction false} MemoryHolds(w: World, trace: seq<Moment>, a: nat, b: nat, f: Frame, x: nat)
    requires Chronicle(w, trace) && StaysMapped(w, trace, a, b, f)
    ensures WordOf(Before(w, trace, b).sp, f, x) == LastStored(w, trace, a, b, f, x)
    ensures f < |Before(w, trace, b).sp.mem|
    decreases b - a
  {
    if a < b {
      MemoryHolds(w, trace, a, b - 1, f, x);
      assert DidAt(w, trace, b - 1) && MappedIn(Before(w, trace, b - 1).sp, f);
      WordStep(Before(w, trace, b - 1), trace[b - 1], f, x);
      StaysThere(Before(w, trace, b - 1), trace[b - 1], f);
    }
  }

  lemma StaysThere(w: World, m: Moment, f: Frame)
    requires Did(w, m) && MappedIn(w.sp, f) && f < |w.sp.mem|
    ensures f < |m.now.sp.mem|
  {
    if m.call.Store? { assert Detail(0); } else { CallKeeps(w, m, f); }
  }

  /** The kernel's own translations never change. */
  lemma KernelStep(w: World, m: Moment, d: nat, t: nat)
    requires Did(w, m)
    ensures PteAt(m.now.sp, KERN, d, t) == PteAt(w.sp, KERN, d, t)
  {
    assert Detail(0);
  }

  lemma {:induction false} KernelStays(w: World, trace: seq<Moment>, n: nat, d: nat, t: nat)
    requires Chronicle(w, trace) && n <= |trace|
    ensures PteAt(Before(w, trace, n).sp, KERN, d, t) == PteAt(w.sp, KERN, d, t)
    decreases n
  {
    if n > 0 {
      KernelStays(w, trace, n - 1, d, t);
      assert DidAt(w, trace, n - 1);
      KernelStep(Before(w, trace, n - 1), trace[n - 1], d, t);
    }
  }

  /** Memory over a run: words of mapped pages are the ones last stored, and the kernel's translations stay. */
  ghost predicate AllRemembered(w: World, trace: seq<Moment>) {
    && (forall a: nat, b: nat, f: Frame, x: nat :: StaysMapped(w, trace, a, b, f) ==>
          WordOf(Before(w, trace, b).sp, f, x) == LastStored(w, trace, a, b, f, x))
    && forall d: nat, t: nat :: PteAt(Latest(w, trace).sp, KERN, d, t) == PteAt(w.sp, KERN, d, t)
  }

  /** The same, on demand. */
  ghost predicate Remembers(w: World, trace: seq<Moment>) {
    forall n: nat {:trigger Detail(n)} :: n == 0 ==> AllRemembered(w, trace)
  }

  lemma RunRemembers(w: World, trace: seq<Moment>)
    requires Chronicle(w, trace)
    ensures AllRemembered(w, trace) && Remembers(w, trace)
  {
    forall a: nat, b: nat, f: Frame, x: nat | StaysMapped(w, trace, a, b, f)
      ensures WordOf(Before(w, trace, b).sp, f, x) == LastStored(w, trace, a, b, f, x)
    {
      MemoryHolds(w, trace, a, b, f, x);
    }
    forall d: nat, t: nat ensures PteAt(Latest(w, trace).sp, KERN, d, t) == PteAt(w.sp, KERN, d, t) {
      KernelStays(w, trace, |trace|, d, t);
    }
  }

  /** One more trap. */
  lemma OneMore(w: World, trace: seq<Moment>, m: Moment)
    requires Chronicle(w, trace) && Books(w, trace) && Unbroken(trace) && GoesOn(trace)
    requires Did(Latest(w, trace), m) && Posted(Latest(w, trace).tb, m.now.tb, m.post)
    ensures Chronicle(w, trace + [m]) && Books(w, trace + [m]) && Unbroken(trace + [m])
    ensures Latest(w, trace + [m]) == m.now
  {
    var more := trace + [m];
    forall i: nat ensures DidAt(w, more, i) && PostedAt(w, more, i) {
      assert DidAt(w, trace, i) && PostedAt(w, trace, i);
    }
  }

  // ---- the story of a run ----

  /** Trap by trap: what each call did, what it posted, and where control went. */
  ghost predicate Tells(w: World, trace: seq<Moment>) { Chronicle(w, trace) && Books(w, trace) && Unbroken(trace) }

  /** The same, on demand. */
  ghost predicate Told(w: World, trace: seq<Moment>) {
    forall n: nat {:trigger Detail(n)} :: n == 0 ==> Tells(w, trace)
  }

  lemma ToldNow(w: World, trace: seq<Moment>)
    requires Tells(w, trace)
    ensures Told(w, trace)
  {}

  lemma ToldSays(w: World, trace: seq<Moment>)
    requires Told(w, trace)
    ensures Tells(w, trace)
  {
    assert Detail(0);
  }

  ghost predicate AsCalled(trace: seq<Moment>, calls: seq<Call>) {
    |trace| <= |calls| && forall i :: 0 <= i < |trace| ==> trace[i].call == calls[i]
  }

  /** The trace of the first calls of a run that starts in w and has come to `now`. */
  ghost predicate Recorded(w: World, trace: seq<Moment>, calls: seq<Call>, now: World) {
    AsCalled(trace, calls) && now == Latest(w, trace) && Told(w, trace)
  }

  lemma RecordedMore(w: World, trace: seq<Moment>, calls: seq<Call>, m: Moment)
    requires Recorded(w, trace, calls, Latest(w, trace)) && GoesOn(trace)
    requires |trace| < |calls| && m.call == calls[|trace|]
    requires Did(Latest(w, trace), m) && Posted(Latest(w, trace).tb, m.now.tb, m.post)
    ensures Recorded(w, trace + [m], calls, m.now)
  {
    ToldSays(w, trace);
    OneMore(w, trace, m);
    ToldNow(w, trace + [m]);
  }

  lemma RecordedNone(w: World, calls: seq<Call>)
    ensures Recorded(w, [], calls, w)
  {
    ToldNow(w, []);
  }

  lemma ToldMeans(w: World, trace: seq<Moment>)
    requires Told(w, trace) && Numbered(w.tb.envs, w.tb.allocs)
    requires Numbered(Latest(w, trace).tb.envs, Latest(w, trace).tb.allocs)
    ensures AllServed(w, trace) && NobodyStarves(w, trace) && AllBalanced(w, trace) && Ledger(w, trace)
    ensures AllRemembered(w, trace) && Remembers(w, trace)
  {
    ToldSays(w, trace);
    RunRemembers(w, trace);
    ScheduleServes(w, trace);
    BooksMakeLedger(w, trace);
  }
}
