/** What a whole fork amounts to (lib/fork.c): every page of the parent, once, and that nobody gets stuck on the way. */
module ForkCopies {
  import opened Base
  import opened CowFork

  // ---- one step ----

  /** The parent of a fork in progress runs, so it is neither a child nor the child. */
  lemma ParentRuns(s: Conc, c: EnvId)
    requires Inv(s) && c in s.forks
    ensures s.forks[c].parent in s.running && s.forks[c].parent !in s.forks && c !in s.running && c !in s.handlers
  {
    assert ForkOk(s, c);
  }

  predicate Ends(x: Step, c: EnvId) { x.End? && x.c == c }

  /** Until its End, a fork stays, with its parent, and its loop goes at most one page further. */
  lemma ForkStays(s: Conc, x: Step, c: EnvId)
    requires Inv(s) && Enabled(s, x) && c in s.forks && !Ends(x, c)
    ensures c in Next(s, x).forks && Next(s, x).forks[c].parent == s.forks[c].parent
    ensures s.forks[c].next <= Next(s, x).forks[c].next <= s.forks[c].next + 1
    ensures Next(s, x).forks[c].next != s.forks[c].next ==> x == Skip(c) || x == Dup1(c) || x == Dup2(c)
  {
    if OfHandler(x) {
      HandlerForks(s, x);
    } else if x == Skip(c) || x == Dup1(c) || x == Dup2(c) {
    } else {
      OtherForks(s, x, c);
    }
  }

  lemma HandlerForks(s: Conc, x: Step)
    requires Enabled(s, x) && OfHandler(x)
    ensures Next(s, x).forks == s.forks
  {}

  lemma OtherForks(s: Conc, x: Step, c: EnvId)
    requires Enabled(s, x) && c in s.forks && !OfHandler(x) && !Ends(x, c)
    requires x != Skip(c) && x != Dup1(c) && x != Dup2(c)
    ensures c in Next(s, x).forks && Next(s, x).forks[c] == s.forks[c]
  {}

  /** What a child has of page v changes only where the step copies the page from the parent. */
  lemma ChildStep(s: Conc, x: Step, c: EnvId, v: Vpn)
    requires Inv(s) && Enabled(s, x) && c in s.forks && !Ends(x, c)
    ensures var p := s.forks[c].parent;
      if Meaning(s, x) == Copy(p, c, v)
      then View(s, c, v).None? && View(s, p, v).Some? && View(Next(s, x), c, v) == View(s, p, v)
      else View(Next(s, x), c, v) == View(s, c, v)
  {
    ParentRuns(s, c);
    if OfHandler(x) {
      HandlerStepView(s, x, c, v);
    } else {
      match x
      case Write(e, w, i, b) => WriteView(s, e, w, i, b, c, v);
      case Demand(e, w, f) => DemandView(s, e, w, f, c, v);
      case Begin(p, d) => BeginView(s, p, d, c, v);
      case Skip(d) => SkipView(s, d, c, v);
      case Dup1(d) => Dup1Child(s, d, c, v);
      case Dup2(d) => Dup2Child(s, d, c, v);
      case End(d, f) => EndView(s, d, f, c, v);
    }
  }

  lemma Dup1Child(s: Conc, d: EnvId, c: EnvId, v: Vpn)
    requires Inv(s) && CanDup1(s, d) && c in s.forks
    ensures var p := s.forks[c].parent;
      if Meaning(s, Dup1(d)) == Copy(p, c, v)
      then View(s, c, v).None? && View(s, p, v).Some? && View(DoDup1(s, d), c, v) == View(s, p, v)
      else View(DoDup1(s, d), c, v) == View(s, c, v)
  {
    assert ForkOk(s, d);
    Dup1View(s, d, c, v);
    ParentRuns(s, d);
  }

  lemma Dup2Child(s: Conc, d: EnvId, c: EnvId, v: Vpn)
    requires Inv(s) && CanDup2(s, d) && c in s.forks
    ensures var p := s.forks[c].parent;
      if Meaning(s, Dup2(d)) == Copy(p, c, v)
      then View(s, c, v).None? && View(s, p, v).Some? && View(DoDup2(s, d), c, v) == View(s, p, v)
      else View(DoDup2(s, d), c, v) == View(s, c, v)
  {
    assert ForkOk(s, d);
    Dup2View(s, d, c, v);
    ParentRuns(s, d);
  }

  /** The loop goes past a page only if it is the exception stack, or the parent has none, or the child has it. */
  lemma PassStep(s: Conc, x: Step, c: EnvId)
    requires Inv(s) && Enabled(s, x) && c in s.forks && !Ends(x, c)
    requires Next(s, x).forks[c].next != s.forks[c].next
    ensures var p, v := s.forks[c].parent, s.forks[c].next;
      v == UXSTACK || View(s, p, v).None? || View(Next(s, x), c, v).Some?
  {
    ForkStays(s, x, c);
    ParentRuns(s, c);
    assert ForkOk(s, c);
    ChildStep(s, x, c, s.forks[c].next);
  }

  /** A running environment loses no page. */
  lemma HeldStep(s: Conc, x: Step, e: EnvId, v: Vpn)
    requires Inv(s) && Enabled(s, x) && e in s.running && View(s, e, v).Some?
    ensures e in Next(s, x).running && View(Next(s, x), e, v).Some?
  {
    RunningIsNotForked(s, e);
    if OfHandler(x) {
      HandlerStepView(s, x, e, v);
    } else {
      match x
      case Write(d, w, i, b) => WriteHeld(s, d, w, i, b, e, v);
      case Demand(d, w, f) => DemandView(s, d, w, f, e, v);
      case Begin(p, d) => BeginView(s, p, d, e, v);
      case Skip(d) => SkipView(s, d, e, v);
      case Dup1(d) => Dup1View(s, d, e, v);
      case Dup2(d) => Dup2View(s, d, e, v);
      case End(d, f) => EndView(s, d, f, e, v);
    }
  }

  lemma WriteHeld(s: Conc, d: EnvId, w: Vpn, i: nat, b: int, e: EnvId, v: Vpn)
    requires Inv(s) && CanWrite(s, d, w, i, b) && View(s, e, v).Some?
    ensures View(DoWrite(s, d, w, i, b), e, v).Some?
  {
    WriteView(s, d, w, i, b, e, v);
    RunningIsNotForked(s, d);
    if d in s.handlers { assert HandlerOk(s, d); }
  }

  /** All that a step does for page v of a fork, t being the state after it and y its meaning. */
  ghost predicate Forward(s: Conc, t: Conc, y: Action, c: EnvId, v: Vpn)
    requires c in s.forks
  {
    var p, n := s.forks[c].parent, s.forks[c].next;
    && Inv(t) && c in t.forks && t.forks[c].parent == p && n <= t.forks[c].next <= n + 1
    && (if y == Copy(p, c, v) then View(s, c, v).None? && View(s, p, v).Some? && View(t, c, v) == View(s, p, v)
        else View(t, c, v) == View(s, c, v))
    && (View(s, p, v).Some? ==> View(t, p, v).Some?)
    && (v == n != t.forks[c].next && v != UXSTACK && View(s, p, v).Some? ==> View(t, c, v).Some?)
  }

  lemma ForkStep(s: Conc, x: Step, c: EnvId, v: Vpn)
    requires Inv(s) && Enabled(s, x) && c in s.forks && !Ends(x, c)
    ensures Forward(s, Next(s, x), Meaning(s, x), c, v)
  {
    StepKeeps(s, x);
    ForkStays(s, x, c);
    ParentRuns(s, c);
    if View(s, s.forks[c].parent, v).Some? { HeldStep(s, x, s.forks[c].parent, v); }
    ChildStep(s, x, c, v);
    if Next(s, x).forks[c].next != s.forks[c].next { PassStep(s, x, c); }
  }

  // ---- whole forks ----

  /** The state after the first i steps. */
  ghost function At(s: Conc, xs: seq<Step>, i: nat): Conc
    requires Run(s, xs) && i <= |xs|
    decreases i
  {
    if i == 0 then s else At(Next(s, xs[0]), xs[1..], i - 1)
  }

  /** How often an action is among the meanings of a run. */
  ghost function Count(ys: seq<Action>, y: Action): nat {
    if ys == [] then 0 else (if ys[0] == y then 1 else 0) + Count(ys[1..], y)
  }

  function Holds(o: Option<Cell>): nat { if o.Some? then 1 else 0 }

  ghost predicate NoEnd(xs: seq<Step>, c: EnvId) { forall i :: 0 <= i < |xs| ==> !Ends(xs[i], c) }

  /** At step i the run copies page v from p to c, and what it copies is `cell`. */
  ghost predicate CopiedAt(s: Conc, xs: seq<Step>, i: nat, p: EnvId, c: EnvId, v: Vpn, cell: Option<Cell>)
    requires Run(s, xs)
  {
    i < |xs| && |Meanings(s, xs)| == |xs| && Meanings(s, xs)[i] == Copy(p, c, v) && View(At(s, xs, i), p, v) == cell
  }

  // The same under a name that proofs see through only after `assert Detail(0)`.
  predicate Detail(n: nat) { true }

  ghost predicate Copied(s: Conc, xs: seq<Step>, i: nat, p: EnvId, c: EnvId, v: Vpn, cell: Option<Cell>)
    requires Run(s, xs)
  {
    forall n: nat {:trigger Detail(n)} :: n == 0 ==> CopiedAt(s, xs, i, p, c, v, cell)
  }

  lemma NoEndLater(xs: seq<Step>, c: EnvId)
    requires xs != [] && NoEnd(xs, c)
    ensures !Ends(xs[0], c) && NoEnd(xs[1..], c)
  {
    forall i | 0 <= i < |xs[1..]| ensures !Ends(xs[1..][i], c) { assert xs[1..][i] == xs[i + 1]; }
  }

  lemma CopiedLater(s: Conc, xs: seq<Step>, j: nat, p: EnvId, c: EnvId, v: Vpn, cell: Option<Cell>)
    requires xs != [] && Run(s, xs) && Copied(Next(s, xs[0]), xs[1..], j, p, c, v, cell)
    ensures Copied(s, xs, j + 1, p, c, v, cell)
  {
    assert Detail(0);
    assert Meanings(s, xs)[j + 1] == Meanings(Next(s, xs[0]), xs[1..])[j];
  }

  lemma CopiedNow(s: Conc, xs: seq<Step>, p: EnvId, c: EnvId, v: Vpn)
    requires xs != [] && Run(s, xs) && Meaning(s, xs[0]) == Copy(p, c, v)
    ensures CopiedAt(s, xs, 0, p, c, v, View(s, p, v))
  {
    AsMany(s, xs);
  }

  lemma {:induction false} AsMany(s: Conc, xs: seq<Step>)
    requires Run(s, xs)
    ensures |Meanings(s, xs)| == |xs|
    decreases |xs|
  {
    if xs != [] { AsMany(Next(s, xs[0]), xs[1..]); }
  }

  /**
   A fork in progress over any run before its End: the child's pages are exactly the copies made, each once;
   the parent loses nothing; and whatever the parent has that the loop passes, the child gets.
   */
  lemma {:induction false} ForkRun(s: Conc, xs: seq<Step>, c: EnvId, v: Vpn)
    requires Inv(s) && Run(s, xs) && c in s.forks && NoEnd(xs, c)
    ensures Inv(After(s, xs)) && c in After(s, xs).forks && After(s, xs).forks[c].parent == s.forks[c].parent
    ensures s.forks[c].next <= After(s, xs).forks[c].next
    ensures Holds(View(s, c, v)) + Count(Meanings(s, xs), Copy(s.forks[c].parent, c, v))
         == Holds(View(After(s, xs), c, v))
    ensures View(s, s.forks[c].parent, v).Some? ==> View(After(s, xs), s.forks[c].parent, v).Some?
    ensures View(s, s.forks[c].parent, v).Some? && v != UXSTACK && s.forks[c].next <= v < After(s, xs).forks[c].next ==>
      View(After(s, xs), c, v).Some?
    decreases |xs|
  {
    if xs != [] {
      var x, p := xs[0], s.forks[c].parent;
      var t := Next(s, x);
      NoEndLater(xs, c);
      ForkStep(s, x, c, v);
      ForkRun(t, xs[1..], c, v);
      assert Meanings(s, xs)[0] == Meaning(s, x) && Meanings(s, xs)[1..] == Meanings(t, xs[1..]);
    }
  }

  /** A page the child has does not change before the End. */
  lemma {:induction false} CopyStays(s: Conc, xs: seq<Step>, c: EnvId, v: Vpn)
    requires Inv(s) && Run(s, xs) && c in s.forks && NoEnd(xs, c) && View(s, c, v).Some?
    ensures View(After(s, xs), c, v) == View(s, c, v)
    decreases |xs|
  {
    if xs != [] {
      NoEndLater(xs, c);
      ForkStep(s, xs[0], c, v);
      CopyStays(Next(s, xs[0]), xs[1..], c, v);
    }
  }

  /** The copy made by the first step. */
  lemma CopyHere(s: Conc, xs: seq<Step>, c: EnvId, v: Vpn)
    requires Inv(s) && xs != [] && Run(s, xs) && c in s.forks && NoEnd(xs, c)
    requires Meaning(s, xs[0]) == Copy(s.forks[c].parent, c, v)
    ensures CopiedAt(s, xs, 0, s.forks[c].parent, c, v, View(After(s, xs), c, v))
  {
    NoEndLater(xs, c);
    ForkStep(s, xs[0], c, v);
    CopyStays(Next(s, xs[0]), xs[1..], c, v);
    CopiedNow(s, xs, s.forks[c].parent, c, v);
  }

  /** Or not, and then the rest of the run is just such a run. */
  lemma NotCopied(s: Conc, xs: seq<Step>, c: EnvId, v: Vpn)
    requires Inv(s) && xs != [] && Run(s, xs) && c in s.forks && NoEnd(xs, c)
    requires Meaning(s, xs[0]) != Copy(s.forks[c].parent, c, v)
    ensures var t := Next(s, xs[0]);
            && Inv(t) && c in t.forks && t.forks[c].parent == s.forks[c].parent && View(t, c, v) == View(s, c, v)
            && NoEnd(xs[1..], c)
  {
    NoEndLater(xs, c);
    ForkStep(s, xs[0], c, v);
  }

  /** A fork of c by p is in progress; on demand, too. */
  ghost predicate Ongoing(s: Conc, p: EnvId, c: EnvId) {
    forall n: nat {:trigger Detail(n)} :: n == 0 ==> Inv(s) && c in s.forks && s.forks[c].parent == p
  }

  lemma OngoingSo(s: Conc, c: EnvId)
    requires Inv(s) && c in s.forks
    ensures Ongoing(s, s.forks[c].parent, c)
  {}

  lemma NowOrLater(s: Conc, xs: seq<Step>, p: EnvId, c: EnvId, v: Vpn) returns (now: bool)
    requires Ongoing(s, p, c) && xs != [] && Run(s, xs) && NoEnd(xs, c)
    ensures now ==> Copied(s, xs, 0, p, c, v, View(After(s, xs), c, v))
    ensures !now ==> Ongoing(Next(s, xs[0]), p, c) && View(Next(s, xs[0]), c, v) == View(s, c, v) && NoEnd(xs[1..], c)
  {
    assert Detail(0);
    now := Meaning(s, xs[0]) == Copy(p, c, v);
    if now {
      CopyHere(s, xs, c, v);
    } else {
      NotCopied(s, xs, c, v);
      OngoingSo(Next(s, xs[0]), c);
    }
  }

  /** And each of them is what the parent had at the instant of the copy. */
  lemma {:induction false} CopyIsParents(s: Conc, xs: seq<Step>, p: EnvId, c: EnvId, v: Vpn) returns (i: nat)
    requires Ongoing(s, p, c) && Run(s, xs) && NoEnd(xs, c)
    requires View(s, c, v).None? && View(After(s, xs), c, v).Some?
    ensures Copied(s, xs, i, p, c, v, View(After(s, xs), c, v))
    decreases |xs|
  {
    i := 0;
    var now := NowOrLater(s, xs, p, c, v);
    if !now {
      var j := CopyIsParents(Next(s, xs[0]), xs[1..], p, c, v);
      CopiedLater(s, xs, j, p, c, v, View(After(s, xs), c, v));
      i := j + 1;
    }
  }

  /** A child starts with nothing. */
  lemma ChildIsBare(s: Conc, p: EnvId, c: EnvId, v: Vpn)
    requires Inv(s) && CanBegin(s, p, c)
    ensures View(DoBegin(s, p, c), c, v).None?
  {
    BeginView(s, p, c, c, v);
  }

  /** The whole fork, from Begin to an End that is possible: page v of the child. */
  ghost predicate Forked(s: Conc, p: EnvId, c: EnvId, xs: seq<Step>, v: Vpn)
    requires CanBegin(s, p, c) && Run(DoBegin(s, p, c), xs)
  {
    var b := DoBegin(s, p, c);
    var t := After(b, xs);
    && Count(Meanings(b, xs), Copy(p, c, v)) == Holds(View(t, c, v))
    && (View(s, p, v).Some? && v < NV && v != UXSTACK ==> View(t, c, v).Some?)
    && (View(t, c, v).Some? ==> exists i: nat :: CopiedAt(b, xs, i, p, c, v, View(t, c, v)))
  }

  /**
   A finished fork has copied the parent: every page the parent had when it began, the exception stack apart, is in the
   child; each page of the child was copied exactly once, and is what the parent held at that instant; then the child
   runs, with these pages and a blank exception stack.
   */
  lemma ForkCopiesParent(s: Conc, p: EnvId, c: EnvId, xs: seq<Step>, f: Frame, v: Vpn)
    requires Inv(s) && CanBegin(s, p, c) && Run(DoBegin(s, p, c), xs) && NoEnd(xs, c)
    requires CanEnd(After(DoBegin(s, p, c), xs), c, f)
    ensures Forked(s, p, c, xs, v)
    ensures var t := After(DoBegin(s, p, c), xs);
      && c in DoEnd(t, c, f).running && c !in DoEnd(t, c, f).forks
      && View(DoEnd(t, c, f), c, v) == if v == UXSTACK then Some(Own(Blank(), true)) else View(t, c, v)
  {
    StepKeeps(s, Begin(p, c));
    var b := DoBegin(s, p, c);
    ChildIsBare(s, p, c, v);
    BeginView(s, p, c, p, v);
    ForkRun(b, xs, c, v);
    var t := After(b, xs);
    if View(t, c, v).Some? {
      OngoingSo(b, c);
      var i := CopyIsParents(b, xs, p, c, v);
      assert Detail(0);
    }
    EndView(t, c, f, c, v);
  }

  // ---- nobody gets stuck ----

  /** How far a fork still has to go. */
  function Left(k: Fork): int { 2 * (NV - k.next) - if k.mid == Outside then 0 else 1 }

  /** While a fork is in progress and its parent is not in a handler, the fork's next step is possible and a step on. */
  lemma ForkGoesOn(s: Conc, c: EnvId, f: Frame) returns (x: Step)
    requires Inv(s) && c in s.forks && s.forks[c].parent !in s.handlers && FreeFrame(s, f)
    ensures Enabled(s, x) && (x == Skip(c) || x == Dup1(c) || x == Dup2(c) || x == End(c, f))
    ensures x != End(c, f) ==> c in Next(s, x).forks && Left(Next(s, x).forks[c]) < Left(s.forks[c])
    ensures x == End(c, f) <==> s.forks[c].next >= NV
  {
    assert ForkOk(s, c);
    var k := s.forks[c];
    x := if k.mid != Outside then Dup2(c)
         else if k.next >= NV then End(c, f)
         else if k.next == UXSTACK || (k.parent, k.next) !in s.pt then Skip(c) else Dup1(c);
  }

  function Rest(h: Stage): int {
    match h
    case Entered => PGSIZE + 4
    case Copying(n) => PGSIZE + 3 - n
    case Unmapped => 2
    case Remapped => 1
  }

  /** A handler always has a next step, and ends with the faulting page writable. */
  lemma HandlerGoesOn(s: Conc, e: EnvId, f: Frame) returns (x: Step)
    requires Inv(s) && e in s.handlers && FreeFrame(s, f)
    ensures Enabled(s, x) && OfHandler(x) && !x.Fault?
    ensures e in Next(s, x).handlers ==>
      Next(s, x).handlers[e].v == s.handlers[e].v && 0 < Rest(Next(s, x).handlers[e].stage) < Rest(s.handlers[e].stage)
    ensures e !in Next(s, x).handlers ==>
      forall i: nat, b :: i < PGSIZE ==> CanWrite(Next(s, x), e, s.handlers[e].v, i, b)
  {
    assert HandlerOk(s, e);
    match s.handlers[e].stage
    case Entered => x := HAlloc(e, f);
    case Copying(n) => x := if n < PGSIZE then HCopy(e) else HUnmap(e);
    case Unmapped => x := HRemap(e);
    case Remapped => x := HFinish(e);
  }

  /** A store by a running environment is possible, or faults into the handler, unless the page is read-only. */
  lemma StoreGoesOn(s: Conc, e: EnvId, v: Vpn, f: Frame, i: nat, b: int) returns (x: Step)
    requires Inv(s) && e in s.running && e !in s.handlers && v < NV && v != PFTEMP && FreeFrame(s, f) && i < PGSIZE
    requires (e, v) in s.pt ==> s.pt[(e, v)].w || s.pt[(e, v)].cow
    ensures Enabled(s, x) && (x == Write(e, v, i, b) || x == Fault(e, v) || x == Demand(e, v, f))
    ensures x == Write(e, v, i, b) <==> (e, v) in s.pt && s.pt[(e, v)].w
    ensures x == Demand(e, v, f) <==> (e, v) !in s.pt
  {
    x := if (e, v) !in s.pt then Demand(e, v, f) else if s.pt[(e, v)].w then Write(e, v, i, b) else Fault(e, v);
  }

  /** And a fork can begin. */
  lemma ForkBegins(s: Conc, p: EnvId, c: EnvId)
    requires Inv(s) && p in s.running && p !in s.handlers && NotForking(s, p)
    requires c !in s.running && c !in s.forks
    ensures Enabled(s, Begin(p, c)) && Next(s, Begin(p, c)).forks[c].parent == p
  {}
}
