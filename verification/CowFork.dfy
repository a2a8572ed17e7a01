/**
 User-level copy-on-write fork (lib/fork.c) as interleaved steps of many
 environments, and its refinement of eager copying.

 Every system call, every single-word store and every copied word of the
 page-fault handler is one step, so handlers and duppage calls of different
 environments interleave freely.
 */
module CowFork {
  import opened Base

  type EnvId = nat
  type Vpn = nat
  type Frame = nat
  type Page = seq<int>

  const PGSIZE := 4096
  const NV := 0xEEC00          // pages below UTOP
  const PFTEMP := 0x7FF        // the handler's scratch page
  const UXSTACK := NV - 1      // the exception stack page

  /** A present user mapping. */
  datatype Pte = Pte(frame: Frame, w: bool, cow: bool, share: bool)

  function Blank(): Page { seq(PGSIZE, _ => 0) }

  /** How far pgfault has come: entered, copying words to PFTEMP, addr unmapped, addr mapped to the copy. */
  datatype Stage = Entered | Copying(n: nat) | Unmapped | Remapped
  datatype Handler = Handler(v: Vpn, stage: Stage)

  /**
   A fork in progress, kept under the child: the parent, the page the loop is at,
   and where duppage is: not inside it, or between its two sys_page_map calls, with
   the page still writable in the parent (Sharing) or copy-on-write before (Taken).
   */
  datatype Phase = Outside | Sharing | Taken
  datatype Fork = Fork(parent: EnvId, next: Vpn, mid: Phase)

  datatype Conc = Conc(pt: map<(EnvId, Vpn), Pte>, mem: map<Frame, Page>,
                       forks: map<EnvId, Fork>, handlers: map<EnvId, Handler>, running: set<EnvId>)

  predicate FreeFrame(s: Conc, f: Frame) { forall k | k in s.pt :: s.pt[k].frame != f }

  predicate NotForking(s: Conc, p: EnvId) { forall d | d in s.forks :: s.forks[d].parent != p }

  predicate NoPages(s: Conc, c: EnvId) { forall k | k in s.pt :: k.0 != c }

  datatype Step =
    | Write(e: EnvId, v: Vpn, i: nat, b: int)
    | Fault(e: EnvId, v: Vpn)
    | HAlloc(e: EnvId, f: Frame)
    | HCopy(e: EnvId)
    | HUnmap(e: EnvId)
    | HRemap(e: EnvId)
    | HFinish(e: EnvId)
    | Demand(e: EnvId, v: Vpn, f: Frame)
    | Begin(p: EnvId, c: EnvId)
    | Skip(c: EnvId)
    | Dup1(c: EnvId)
    | Dup2(c: EnvId)
    | End(c: EnvId, f: Frame)

  function Without<K, V>(m: map<K, V>, k: K): map<K, V> { m - {k} }

  /** The parent of c is at the top of its fork loop, not inside a handler. */
  predicate AtLoop(s: Conc, c: EnvId) {
    c in s.forks && s.forks[c].mid == Outside && s.forks[c].parent !in s.handlers
  }

  /** Page `next` of c's parent is present and is not the exception stack. */
  predicate Here(s: Conc, c: EnvId) {
    && AtLoop(s, c) && s.forks[c].next < NV && s.forks[c].next != UXSTACK
    && (s.forks[c].parent, s.forks[c].next) in s.pt
  }

  function HerePte(s: Conc, c: EnvId): Pte
    requires Here(s, c)
  {
    s.pt[(s.forks[c].parent, s.forks[c].next)]
  }

  predicate CanWrite(s: Conc, e: EnvId, v: Vpn, i: nat, b: int) {
    e in s.running && v != PFTEMP && (e, v) in s.pt && s.pt[(e, v)].w && i < PGSIZE
  }

  function DoWrite(s: Conc, e: EnvId, v: Vpn, i: nat, b: int): Conc
    requires CanWrite(s, e, v, i, b)
  {
    var f := s.pt[(e, v)].frame;
    if f in s.mem && i < |s.mem[f]| then s.(mem := s.mem[f := s.mem[f][i := b]]) else s
  }

  predicate CanFault(s: Conc, e: EnvId, v: Vpn) {
    e in s.running && e !in s.handlers && v != PFTEMP && (e, v) in s.pt && s.pt[(e, v)].cow
  }

  function DoFault(s: Conc, e: EnvId, v: Vpn): Conc
    requires CanFault(s, e, v)
  {
    s.(handlers := s.handlers[e := Handler(v, Entered)])
  }

  predicate CanHAlloc(s: Conc, e: EnvId, f: Frame) {
    e in s.handlers && s.handlers[e].stage == Entered && FreeFrame(s, f)
  }

  function DoHAlloc(s: Conc, e: EnvId, f: Frame): Conc
    requires CanHAlloc(s, e, f)
  {
    s.(pt := s.pt[(e, PFTEMP) := Pte(f, true, false, false)], mem := s.mem[f := Blank()],
       handlers := s.handlers[e := s.handlers[e].(stage := Copying(0))])
  }

  predicate CanHCopy(s: Conc, e: EnvId) {
    && e in s.handlers && s.handlers[e].stage.Copying? && s.handlers[e].stage.n < PGSIZE
    && (e, PFTEMP) in s.pt && (e, s.handlers[e].v) in s.pt
    && s.pt[(e, PFTEMP)].frame in s.mem && s.pt[(e, s.handlers[e].v)].frame in s.mem
    && |s.mem[s.pt[(e, PFTEMP)].frame]| == |s.mem[s.pt[(e, s.handlers[e].v)].frame]| == PGSIZE
  }

  function DoHCopy(s: Conc, e: EnvId): Conc
    requires CanHCopy(s, e)
  {
    var h := s.handlers[e];
    var src, dst := s.mem[s.pt[(e, h.v)].frame], s.pt[(e, PFTEMP)].frame;
    s.(mem := s.mem[dst := s.mem[dst][h.stage.n := src[h.stage.n]]],
       handlers := s.handlers[e := h.(stage := Copying(h.stage.n + 1))])
  }

  predicate CanHUnmap(s: Conc, e: EnvId) {
    e in s.handlers && s.handlers[e].stage == Copying(PGSIZE)
  }

  function DoHUnmap(s: Conc, e: EnvId): Conc
    requires CanHUnmap(s, e)
  {
    var h := s.handlers[e];
    s.(pt := Without(s.pt, (e, h.v)), handlers := s.handlers[e := h.(stage := Unmapped)])
  }

  predicate CanHRemap(s: Conc, e: EnvId) {
    e in s.handlers && s.handlers[e].stage == Unmapped && (e, PFTEMP) in s.pt
  }

  function DoHRemap(s: Conc, e: EnvId): Conc
    requires CanHRemap(s, e)
  {
    var h := s.handlers[e];
    s.(pt := s.pt[(e, h.v) := Pte(s.pt[(e, PFTEMP)].frame, true, false, false)],
       handlers := s.handlers[e := h.(stage := Remapped)])
  }

  predicate CanHFinish(s: Conc, e: EnvId) {
    e in s.handlers && s.handlers[e].stage == Remapped
  }

  function DoHFinish(s: Conc, e: EnvId): Conc
    requires CanHFinish(s, e)
  {
    s.(pt := Without(s.pt, (e, PFTEMP)), handlers := Without(s.handlers, e))
  }

  predicate CanDemand(s: Conc, e: EnvId, v: Vpn, f: Frame) {
    e in s.running && e !in s.handlers && v < NV && v != PFTEMP && (e, v) !in s.pt && FreeFrame(s, f)
  }

  function DoDemand(s: Conc, e: EnvId, v: Vpn, f: Frame): Conc
    requires CanDemand(s, e, v, f)
  {
    s.(pt := s.pt[(e, v) := Pte(f, true, false, false)], mem := s.mem[f := Blank()])
  }

  predicate CanBegin(s: Conc, p: EnvId, c: EnvId) {
    && p in s.running && p !in s.handlers && NotForking(s, p)
    && c !in s.running && c !in s.forks && NoPages(s, c)
  }

  function DoBegin(s: Conc, p: EnvId, c: EnvId): Conc
    requires CanBegin(s, p, c)
  {
    s.(forks := s.forks[c := Fork(p, 0, Outside)])
  }

  predicate CanSkip(s: Conc, c: EnvId) {
    && AtLoop(s, c) && s.forks[c].next < NV
    && (s.forks[c].next == UXSTACK || (s.forks[c].parent, s.forks[c].next) !in s.pt)
  }

  function DoSkip(s: Conc, c: EnvId): Conc
    requires CanSkip(s, c)
  {
    s.(forks := s.forks[c := s.forks[c].(next := s.forks[c].next + 1)])
  }

  predicate CanDup1(s: Conc, c: EnvId) { Here(s, c) }

  /** The first sys_page_map of duppage, on each of its three branches. */
  function DoDup1(s: Conc, c: EnvId): Conc
    requires CanDup1(s, c)
  {
    var k, q := s.forks[c], HerePte(s, c);
    if q.share then
      s.(pt := s.pt[(c, k.next) := q], forks := s.forks[c := k.(next := k.next + 1)])
    else if q.w || q.cow then
      s.(pt := s.pt[(c, k.next) := Pte(q.frame, false, true, false)],
         forks := s.forks[c := k.(mid := if q.w then Sharing else Taken)])
    else
      s.(pt := s.pt[(c, k.next) := Pte(q.frame, false, false, false)], forks := s.forks[c := k.(next := k.next + 1)])
  }

  predicate CanDup2(s: Conc, c: EnvId) {
    && c in s.forks && s.forks[c].mid != Outside && s.forks[c].parent !in s.handlers
    && (s.forks[c].parent, s.forks[c].next) in s.pt
  }

  function DoDup2(s: Conc, c: EnvId): Conc
    requires CanDup2(s, c)
  {
    var k := (s.forks[c].parent, s.forks[c].next);
    s.(pt := s.pt[k := Pte(s.pt[k].frame, false, true, false)],
       forks := s.forks[c := Fork(k.0, k.1 + 1, Outside)])
  }

  predicate CanEnd(s: Conc, c: EnvId, f: Frame) {
    AtLoop(s, c) && s.forks[c].next >= NV && FreeFrame(s, f)
  }

  function DoEnd(s: Conc, c: EnvId, f: Frame): Conc
    requires CanEnd(s, c, f)
  {
    s.(pt := s.pt[(c, UXSTACK) := Pte(f, true, false, false)], mem := s.mem[f := Blank()],
       forks := Without(s.forks, c), running := s.running + {c})
  }

  predicate Enabled(s: Conc, x: Step) {
    match x
    case Write(e, v, i, b) => CanWrite(s, e, v, i, b)
    case Fault(e, v) => CanFault(s, e, v)
    case HAlloc(e, f) => CanHAlloc(s, e, f)
    case HCopy(e) => CanHCopy(s, e)
    case HUnmap(e) => CanHUnmap(s, e)
    case HRemap(e) => CanHRemap(s, e)
    case HFinish(e) => CanHFinish(s, e)
    case Demand(e, v, f) => CanDemand(s, e, v, f)
    case Begin(p, c) => CanBegin(s, p, c)
    case Skip(c) => CanSkip(s, c)
    case Dup1(c) => CanDup1(s, c)
    case Dup2(c) => CanDup2(s, c)
    case End(c, f) => CanEnd(s, c, f)
  }

  function Next(s: Conc, x: Step): Conc
    requires Enabled(s, x)
  {
    match x
    case Write(e, v, i, b) => DoWrite(s, e, v, i, b)
    case Fault(e, v) => DoFault(s, e, v)
    case HAlloc(e, f) => DoHAlloc(s, e, f)
    case HCopy(e) => DoHCopy(s, e)
    case HUnmap(e) => DoHUnmap(s, e)
    case HRemap(e) => DoHRemap(s, e)
    case HFinish(e) => DoHFinish(s, e)
    case Demand(e, v, f) => DoDemand(s, e, v, f)
    case Begin(p, c) => DoBegin(s, p, c)
    case Skip(c) => DoSkip(s, c)
    case Dup1(c) => DoDup1(s, c)
    case Dup2(c) => DoDup2(s, c)
    case End(c, f) => DoEnd(s, c, f)
  }

  // ---- eager copying ----

  /** A page of an environment: its own copy, or a common (PTE_SHARE) object. */
  datatype Cell = Own(page: Page, writable: bool) | Common(id: Frame, writable: bool)

  datatype Eager = Eager(cells: map<(EnvId, Vpn), Cell>, common: map<Frame, Page>)

  datatype Action =
    | Quiet
    | Store(e: EnvId, v: Vpn, i: nat, b: int)
    | Copy(p: EnvId, c: EnvId, v: Vpn)
    | Zero(e: EnvId, v: Vpn)

  predicate Allowed(a: Eager, x: Action) {
    match x
    case Quiet => true
    case Store(e, v, i, b) =>
      (e, v) in a.cells && a.cells[(e, v)].writable &&
      (match a.cells[(e, v)] case Own(p, _) => i < |p| case Common(id, _) => id in a.common && i < |a.common[id]|)
    case Copy(p, c, v) => (p, v) in a.cells && (c, v) !in a.cells
    case Zero(e, v) => (e, v) !in a.cells
  }

  function Apply(a: Eager, x: Action): Eager
    requires Allowed(a, x)
  {
    match x
    case Quiet => a
    case Store(e, v, i, b) =>
      (match a.cells[(e, v)]
       case Own(p, w) => a.(cells := a.cells[(e, v) := Own(p[i := b], w)])
       case Common(id, w) => a.(common := a.common[id := a.common[id][i := b]]))
    case Copy(p, c, v) => a.(cells := a.cells[(c, v) := a.cells[(p, v)]])
    case Zero(e, v) => a.(cells := a.cells[(e, v) := Own(Blank(), true)])
  }

  /**
   What a step means under eager copying.  The copy of a page is taken at one
   instant inside its duppage call: at the first sys_page_map if the page is
   already copy-on-write there, at the second if it is still writable.
   */
  function Meaning(s: Conc, x: Step): Action
    requires Enabled(s, x)
  {
    match x
    case Write(e, v, i, b) => Store(e, v, i, b)
    case Demand(e, v, f) => Zero(e, v)
    case Dup1(c) =>
      if HerePte(s, c).w && !HerePte(s, c).share then Quiet else Copy(s.forks[c].parent, c, s.forks[c].next)
    case Dup2(c) => if s.forks[c].mid == Taken then Quiet else Copy(s.forks[c].parent, c, s.forks[c].next)
    case End(c, f) => Zero(c, UXSTACK)
    case _ => Quiet
  }

  // ---- the invariant ----

  /** e's handler has unmapped page v and not yet mapped the copy. */
  predicate InLimbo(s: Conc, e: EnvId, v: Vpn) {
    e in s.handlers && s.handlers[e] == Handler(v, Unmapped)
  }

  /** The child already maps page v but the copy of v is not taken yet. */
  predicate Hidden(s: Conc, c: EnvId, v: Vpn) {
    c in s.forks && s.forks[c].next == v && s.forks[c].mid == Sharing
  }

  /**
   Two mappings of one writable private frame are only ever these: a handler about to drop PFTEMP, or a duppage half
   done.
   */
  predicate Excused(s: Conc, k: (EnvId, Vpn), q: (EnvId, Vpn)) {
    || (k.0 == q.0 && k.0 in s.handlers && s.handlers[k.0].stage == Remapped
        && ((k.1 == PFTEMP && q.1 == s.handlers[k.0].v) || (q.1 == PFTEMP && k.1 == s.handlers[k.0].v)))
    || (Hidden(s, q.0, q.1) && k == (s.forks[q.0].parent, q.1))
  }

  predicate SameFrame(s: Conc, k: (EnvId, Vpn), q: (EnvId, Vpn)) {
    k in s.pt && q in s.pt && k != q && s.pt[k].frame == s.pt[q].frame
  }

  ghost predicate Exclusive(s: Conc) {
    forall k, q :: SameFrame(s, k, q) && s.pt[k].w && !s.pt[k].share ==> Excused(s, k, q)
  }

  ghost predicate Kinds(s: Conc) {
    && (forall k :: k in s.pt ==> s.pt[k].frame in s.mem && |s.mem[s.pt[k].frame]| == PGSIZE)
    && (forall k :: k in s.pt ==> !(s.pt[k].cow && (s.pt[k].w || s.pt[k].share)))
    && (forall k, q :: SameFrame(s, k, q) ==> s.pt[k].share == s.pt[q].share)
    && (forall k :: k in s.pt && k.1 == PFTEMP ==> k.0 in s.handlers && s.handlers[k.0].stage != Entered)
  }

  ghost predicate HandlerOk(s: Conc, e: EnvId)
    requires e in s.handlers
  {
    var h := s.handlers[e];
    && e in s.running && h.v != PFTEMP
    && (h.stage != Entered ==> (e, PFTEMP) in s.pt && s.pt[(e, PFTEMP)].w && !s.pt[(e, PFTEMP)].share)
    && (h.stage.Entered? || h.stage.Copying? ==> (e, h.v) in s.pt && s.pt[(e, h.v)].cow)
    && (h.stage.Copying? ==>
          var p, q := s.pt[(e, PFTEMP)].frame, s.pt[(e, h.v)].frame;
          h.stage.n <= PGSIZE && p in s.mem && q in s.mem && |s.mem[p]| == |s.mem[q]| == PGSIZE
          && s.mem[p][..h.stage.n] == s.mem[q][..h.stage.n])
    && (h.stage.Unmapped? ==> (e, h.v) !in s.pt)
    && (h.stage.Remapped? ==> (e, h.v) in s.pt && s.pt[(e, h.v)] == Pte(s.pt[(e, PFTEMP)].frame, true, false, false))
  }

  ghost predicate ForkOk(s: Conc, c: EnvId)
    requires c in s.forks
  {
    var k := s.forks[c];
    && k.parent in s.running && c !in s.running && c != k.parent && c !in s.handlers
    && (forall d :: d in s.forks && s.forks[d].parent == k.parent ==> d == c)
    && (forall v :: (c, v) in s.pt ==> v < k.next || (v == k.next && k.mid != Outside))
    && (k.mid != Outside ==> k.next < NV && k.next != UXSTACK && k.next != PFTEMP && (c, k.next) in s.pt)
    && (c, UXSTACK) !in s.pt
    && (k.mid == Sharing ==>
          (k.parent, k.next) in s.pt && s.pt[(k.parent, k.next)].w && !s.pt[(k.parent, k.next)].share
          && s.pt[(c, k.next)] == Pte(s.pt[(k.parent, k.next)].frame, false, true, false))
    && (k.mid == Taken ==>
          InLimbo(s, k.parent, k.next)
          || ((k.parent, k.next) in s.pt && !s.pt[(k.parent, k.next)].share
              && (s.pt[(k.parent, k.next)].w || s.pt[(k.parent, k.next)].cow)))
  }

  ghost predicate Pages(s: Conc) {
    && Kinds(s)
    && Exclusive(s)
    && (forall k :: k in s.pt ==> k.0 in s.running || k.0 in s.forks)
  }

  ghost predicate Control(s: Conc) {
    && (forall e :: e in s.handlers ==> HandlerOk(s, e))
    && (forall c :: c in s.forks ==> ForkOk(s, c))
  }

  ghost predicate Inv(s: Conc) { Pages(s) && Control(s) }

  // ---- the refinement ----

  function PageCell(s: Conc, q: Pte): Cell {
    if q.share then Common(q.frame, q.w) else Own(if q.frame in s.mem then s.mem[q.frame] else [], q.w || q.cow)
  }

  /** What environment e holds at page v, PFTEMP apart. */
  function View(s: Conc, e: EnvId, v: Vpn): Option<Cell> {
    if v == PFTEMP then None
    else if InLimbo(s, e, v) then
      if (e, PFTEMP) in s.pt then Some(PageCell(s, s.pt[(e, PFTEMP)])) else None
    else if (e, v) in s.pt && !Hidden(s, e, v) then Some(PageCell(s, s.pt[(e, v)])) else None
  }

  function Cells(a: Eager, e: EnvId, v: Vpn): Option<Cell> {
    if (e, v) in a.cells then Some(a.cells[(e, v)]) else None
  }

  ghost predicate CommonAgree(s: Conc, a: Eager) {
    forall k :: k in s.pt && s.pt[k].share ==>
      s.pt[k].frame in a.common && s.pt[k].frame in s.mem && a.common[s.pt[k].frame] == s.mem[s.pt[k].frame]
  }

  ghost predicate Refines(s: Conc, a: Eager) {
    && (forall e: nat, v: nat :: View(s, e, v) == Cells(a, e, v))
    && CommonAgree(s, a)
  }

  // ---- facts the handler relies on ----

  lemma RunningIsNotForked(s: Conc, e: EnvId)
    requires Inv(s) && e in s.running
    ensures e !in s.forks
  {}

  /** Until it is mapped in place, nothing else maps the handler's scratch frame. */
  lemma ScratchIsPrivate(s: Conc, e: EnvId, q: (EnvId, Vpn))
    requires Inv(s) && e in s.handlers && (s.handlers[e].stage.Copying? || s.handlers[e].stage.Unmapped?)
    requires q in s.pt && q != (e, PFTEMP)
    ensures (e, PFTEMP) in s.pt && s.pt[q].frame != s.pt[(e, PFTEMP)].frame
  {
    assert HandlerOk(s, e);
    assert SameFrame(s, (e, PFTEMP), q) ==> Excused(s, (e, PFTEMP), q);
    if q.0 in s.forks { assert ForkOk(s, q.0); }
  }

  /** Nobody can write the frame a handler is copying from. */
  lemma SourceIsStable(s: Conc, e: EnvId, k: (EnvId, Vpn))
    requires Inv(s) && e in s.handlers && (s.handlers[e].stage.Entered? || s.handlers[e].stage.Copying?)
    requires k in s.pt && s.pt[k].w
    ensures (e, s.handlers[e].v) in s.pt && s.pt[k].frame != s.pt[(e, s.handlers[e].v)].frame
  {
    assert HandlerOk(s, e);
    var q := (e, s.handlers[e].v);
    RunningIsNotForked(s, e);
    assert SameFrame(s, k, q) ==> s.pt[k].share == s.pt[q].share && Excused(s, k, q);
  }

  // ---- every step keeps the invariant ----

  lemma WritePages(s: Conc, e: EnvId, v: Vpn, i: nat, b: int)
    requires Inv(s) && CanWrite(s, e, v, i, b)
    ensures Pages(DoWrite(s, e, v, i, b))
  {
    var s' := DoWrite(s, e, v, i, b);
    forall k, q | SameFrame(s', k, q)
      ensures s'.pt[k].share == s'.pt[q].share && (s'.pt[k].w && !s'.pt[k].share ==> Excused(s', k, q))
    {
      assert SameFrame(s, k, q);
    }
  }

  lemma WriteHandlers(s: Conc, e: EnvId, v: Vpn, i: nat, b: int)
    requires Inv(s) && CanWrite(s, e, v, i, b)
    ensures var s' := DoWrite(s, e, v, i, b); forall d :: d in s'.handlers ==> HandlerOk(s', d)
  {
    var s' := DoWrite(s, e, v, i, b);
    forall d | d in s.handlers && s.handlers[d].stage.Copying? ensures HandlerOk(s', d) {
      SourceIsStable(s, d, (e, v));
      ScratchIsPrivate(s, d, (e, v));
    }
  }

  lemma WriteForks(s: Conc, e: EnvId, v: Vpn, i: nat, b: int)
    requires Inv(s) && CanWrite(s, e, v, i, b)
    ensures var s' := DoWrite(s, e, v, i, b); forall d :: d in s'.forks ==> ForkOk(s', d)
  {
  }

  lemma FaultPages(s: Conc, e: EnvId, v: Vpn)
    requires Inv(s) && CanFault(s, e, v)
    ensures Pages(DoFault(s, e, v))
  {
    var s' := DoFault(s, e, v);
    forall k, q | SameFrame(s', k, q)
      ensures s'.pt[k].share == s'.pt[q].share && (s'.pt[k].w && !s'.pt[k].share ==> Excused(s', k, q))
    {
      assert SameFrame(s, k, q);
    }
  }

  lemma FaultHandlers(s: Conc, e: EnvId, v: Vpn)
    requires Inv(s) && CanFault(s, e, v)
    ensures var s' := DoFault(s, e, v); forall d :: d in s'.handlers ==> HandlerOk(s', d)
  {
    var s' := DoFault(s, e, v);
  }

  lemma FaultForks(s: Conc, e: EnvId, v: Vpn)
    requires Inv(s) && CanFault(s, e, v)
    ensures var s' := DoFault(s, e, v); forall d :: d in s'.forks ==> ForkOk(s', d)
  {
  }

  lemma HAllocPages(s: Conc, e: EnvId, f: Frame)
    requires Inv(s) && CanHAlloc(s, e, f)
    ensures Pages(DoHAlloc(s, e, f))
  {
    var s' := DoHAlloc(s, e, f);
    forall k, q | SameFrame(s', k, q)
      ensures s'.pt[k].share == s'.pt[q].share && (s'.pt[k].w && !s'.pt[k].share ==> Excused(s', k, q))
    {
      assert SameFrame(s, k, q);
    }
  }

  lemma HAllocHandlers(s: Conc, e: EnvId, f: Frame)
    requires Inv(s) && CanHAlloc(s, e, f)
    ensures var s' := DoHAlloc(s, e, f); forall d :: d in s'.handlers ==> HandlerOk(s', d)
  {
    var s' := DoHAlloc(s, e, f);
  }

  lemma HAllocForks(s: Conc, e: EnvId, f: Frame)
    requires Inv(s) && CanHAlloc(s, e, f)
    ensures var s' := DoHAlloc(s, e, f); forall d :: d in s'.forks ==> ForkOk(s', d)
  {
  }

  lemma HCopyPages(s: Conc, e: EnvId)
    requires Inv(s) && CanHCopy(s, e)
    ensures Pages(DoHCopy(s, e))
  {
    var s' := DoHCopy(s, e);
    forall k, q | SameFrame(s', k, q)
      ensures s'.pt[k].share == s'.pt[q].share && (s'.pt[k].w && !s'.pt[k].share ==> Excused(s', k, q))
    {
      assert SameFrame(s, k, q);
    }
  }

  lemma HCopyHandlers(s: Conc, e: EnvId)
    requires Inv(s) && CanHCopy(s, e)
    ensures var s' := DoHCopy(s, e); forall d :: d in s'.handlers ==> HandlerOk(s', d)
  {
    var s' := DoHCopy(s, e);
    forall d | d in s.handlers && s.handlers[d].stage.Copying? ensures HandlerOk(s', d) {
      assert HandlerOk(s, d);
      if d != e {
        SourceIsStable(s, d, (e, PFTEMP));
        ScratchIsPrivate(s, d, (e, PFTEMP));
      } else {
        SourceIsStable(s, e, (e, PFTEMP));
      }
    }
  }

  lemma HCopyForks(s: Conc, e: EnvId)
    requires Inv(s) && CanHCopy(s, e)
    ensures var s' := DoHCopy(s, e); forall d :: d in s'.forks ==> ForkOk(s', d)
  {
  }

  lemma HUnmapPages(s: Conc, e: EnvId)
    requires Inv(s) && CanHUnmap(s, e)
    ensures Pages(DoHUnmap(s, e))
  {
    var s' := DoHUnmap(s, e);
    forall k, q | SameFrame(s', k, q)
      ensures s'.pt[k].share == s'.pt[q].share && (s'.pt[k].w && !s'.pt[k].share ==> Excused(s', k, q))
    {
      assert SameFrame(s, k, q);
    }
  }

  lemma HUnmapHandlers(s: Conc, e: EnvId)
    requires Inv(s) && CanHUnmap(s, e)
    ensures var s' := DoHUnmap(s, e); forall d :: d in s'.handlers ==> HandlerOk(s', d)
  {
    var s' := DoHUnmap(s, e);
  }

  lemma HUnmapForks(s: Conc, e: EnvId)
    requires Inv(s) && CanHUnmap(s, e)
    ensures var s' := DoHUnmap(s, e); forall d :: d in s'.forks ==> ForkOk(s', d)
  {
  }

  lemma HRemapPages(s: Conc, e: EnvId)
    requires Inv(s) && CanHRemap(s, e)
    ensures Pages(DoHRemap(s, e))
  {
    var s' := DoHRemap(s, e);
    forall k, q | SameFrame(s', k, q)
      ensures s'.pt[k].share == s'.pt[q].share && (s'.pt[k].w && !s'.pt[k].share ==> Excused(s', k, q))
    {
      var h := (e, s.handlers[e].v);
      if k == h && q != (e, PFTEMP) { ScratchIsPrivate(s, e, q); assert false; }
      if q == h && k != (e, PFTEMP) { ScratchIsPrivate(s, e, k); assert false; }
      if k != h && q != h { assert SameFrame(s, k, q); }
    }
  }

  lemma HRemapHandlers(s: Conc, e: EnvId)
    requires Inv(s) && CanHRemap(s, e)
    ensures var s' := DoHRemap(s, e); forall d :: d in s'.handlers ==> HandlerOk(s', d)
  {
    var s' := DoHRemap(s, e);
  }

  lemma HRemapForks(s: Conc, e: EnvId)
    requires Inv(s) && CanHRemap(s, e)
    ensures var s' := DoHRemap(s, e); forall d :: d in s'.forks ==> ForkOk(s', d)
  {
  }

  lemma HFinishPages(s: Conc, e: EnvId)
    requires Inv(s) && CanHFinish(s, e)
    ensures Pages(DoHFinish(s, e))
  {
    var s' := DoHFinish(s, e);
    forall k, q | SameFrame(s', k, q)
      ensures s'.pt[k].share == s'.pt[q].share && (s'.pt[k].w && !s'.pt[k].share ==> Excused(s', k, q))
    {
      assert SameFrame(s, k, q);
    }
  }

  lemma HFinishHandlers(s: Conc, e: EnvId)
    requires Inv(s) && CanHFinish(s, e)
    ensures var s' := DoHFinish(s, e); forall d :: d in s'.handlers ==> HandlerOk(s', d)
  {
    var s' := DoHFinish(s, e);
  }

  lemma HFinishForks(s: Conc, e: EnvId)
    requires Inv(s) && CanHFinish(s, e)
    ensures var s' := DoHFinish(s, e); forall d :: d in s'.forks ==> ForkOk(s', d)
  {
  }

  lemma DemandPages(s: Conc, e: EnvId, v: Vpn, f: Frame)
    requires Inv(s) && CanDemand(s, e, v, f)
    ensures Pages(DoDemand(s, e, v, f))
  {
    var s' := DoDemand(s, e, v, f);
    forall k, q | SameFrame(s', k, q)
      ensures s'.pt[k].share == s'.pt[q].share && (s'.pt[k].w && !s'.pt[k].share ==> Excused(s', k, q))
    {
      assert SameFrame(s, k, q);
    }
  }

  lemma DemandHandlers(s: Conc, e: EnvId, v: Vpn, f: Frame)
    requires Inv(s) && CanDemand(s, e, v, f)
    ensures var s' := DoDemand(s, e, v, f); forall d :: d in s'.handlers ==> HandlerOk(s', d)
  {
    var s' := DoDemand(s, e, v, f);
  }

  lemma DemandForks(s: Conc, e: EnvId, v: Vpn, f: Frame)
    requires Inv(s) && CanDemand(s, e, v, f)
    ensures var s' := DoDemand(s, e, v, f); forall d :: d in s'.forks ==> ForkOk(s', d)
  {
  }

  lemma BeginPages(s: Conc, p: EnvId, c: EnvId)
    requires Inv(s) && CanBegin(s, p, c)
    ensures Pages(DoBegin(s, p, c))
  {
    var s' := DoBegin(s, p, c);
    forall k, q | SameFrame(s', k, q)
      ensures s'.pt[k].share == s'.pt[q].share && (s'.pt[k].w && !s'.pt[k].share ==> Excused(s', k, q))
    {
      assert SameFrame(s, k, q);
    }
  }

  lemma BeginHandlers(s: Conc, p: EnvId, c: EnvId)
    requires Inv(s) && CanBegin(s, p, c)
    ensures var s' := DoBegin(s, p, c); forall d :: d in s'.handlers ==> HandlerOk(s', d)
  {
    var s' := DoBegin(s, p, c);
  }

  lemma BeginForks(s: Conc, p: EnvId, c: EnvId)
    requires Inv(s) && CanBegin(s, p, c)
    ensures var s' := DoBegin(s, p, c); forall d :: d in s'.forks ==> ForkOk(s', d)
  {
  }

  lemma SkipPages(s: Conc, c: EnvId)
    requires Inv(s) && CanSkip(s, c)
    ensures Pages(DoSkip(s, c))
  {
    var s' := DoSkip(s, c);
    forall k, q | SameFrame(s', k, q)
      ensures s'.pt[k].share == s'.pt[q].share && (s'.pt[k].w && !s'.pt[k].share ==> Excused(s', k, q))
    {
      assert SameFrame(s, k, q);
    }
  }

  lemma SkipHandlers(s: Conc, c: EnvId)
    requires Inv(s) && CanSkip(s, c)
    ensures var s' := DoSkip(s, c); forall d :: d in s'.handlers ==> HandlerOk(s', d)
  {
    var s' := DoSkip(s, c);
  }

  lemma SkipForks(s: Conc, c: EnvId)
    requires Inv(s) && CanSkip(s, c)
    ensures var s' := DoSkip(s, c); forall d :: d in s'.forks ==> ForkOk(s', d)
  {
  }

  lemma Dup1Pages(s: Conc, c: EnvId)
    requires Inv(s) && CanDup1(s, c)
    ensures Pages(DoDup1(s, c))
  {
    var s' := DoDup1(s, c);
    forall k, q | SameFrame(s', k, q)
      ensures s'.pt[k].share == s'.pt[q].share && (s'.pt[k].w && !s'.pt[k].share ==> Excused(s', k, q))
    {
      var from, to := (s.forks[c].parent, s.forks[c].next), (c, s.forks[c].next);
      if k == to && q != from { assert SameFrame(s, from, q); }
      if q == to && k != from { assert SameFrame(s, k, from); }
      if k != to && q != to { assert SameFrame(s, k, q); }
    }
  }

  lemma Dup1Handlers(s: Conc, c: EnvId)
    requires Inv(s) && CanDup1(s, c)
    ensures var s' := DoDup1(s, c); forall d :: d in s'.handlers ==> HandlerOk(s', d)
  {
    var s' := DoDup1(s, c);
  }

  lemma Dup1Forks(s: Conc, c: EnvId)
    requires Inv(s) && CanDup1(s, c)
    ensures var s' := DoDup1(s, c); forall d :: d in s'.forks ==> ForkOk(s', d)
  {
  }

  lemma Dup2Pages(s: Conc, c: EnvId)
    requires Inv(s) && CanDup2(s, c)
    ensures Pages(DoDup2(s, c))
  {
    assert ForkOk(s, c);
    var s' := DoDup2(s, c);
    forall k, q | SameFrame(s', k, q)
      ensures s'.pt[k].share == s'.pt[q].share && (s'.pt[k].w && !s'.pt[k].share ==> Excused(s', k, q))
    {
      assert SameFrame(s, k, q);
    }
  }

  lemma Dup2Handlers(s: Conc, c: EnvId)
    requires Inv(s) && CanDup2(s, c)
    ensures var s' := DoDup2(s, c); forall d :: d in s'.handlers ==> HandlerOk(s', d)
  {
    var s' := DoDup2(s, c);
  }

  lemma Dup2Forks(s: Conc, c: EnvId)
    requires Inv(s) && CanDup2(s, c)
    ensures var s' := DoDup2(s, c); forall d :: d in s'.forks ==> ForkOk(s', d)
  {
  }

  lemma EndPages(s: Conc, c: EnvId, f: Frame)
    requires Inv(s) && CanEnd(s, c, f)
    ensures Pages(DoEnd(s, c, f))
  {
    var s' := DoEnd(s, c, f);
    forall k, q | SameFrame(s', k, q)
      ensures s'.pt[k].share == s'.pt[q].share && (s'.pt[k].w && !s'.pt[k].share ==> Excused(s', k, q))
    {
      assert SameFrame(s, k, q);
    }
  }

  lemma EndHandlers(s: Conc, c: EnvId, f: Frame)
    requires Inv(s) && CanEnd(s, c, f)
    ensures var s' := DoEnd(s, c, f); forall d :: d in s'.handlers ==> HandlerOk(s', d)
  {
    var s' := DoEnd(s, c, f);
  }

  lemma EndForks(s: Conc, c: EnvId, f: Frame)
    requires Inv(s) && CanEnd(s, c, f)
    ensures var s' := DoEnd(s, c, f); forall d :: d in s'.forks ==> ForkOk(s', d)
  {
  }

  // ---- what every step does to the view ----

  /** A private page with word i changed; a common one is not changed through the cell. */
  function Written(o: Option<Cell>, i: nat, b: int): Option<Cell> {
    match o
    case Some(Own(p, w)) => if i < |p| then Some(Own(p[i := b], w)) else None
    case _ => o
  }

  lemma WriteView(s: Conc, e: EnvId, v: Vpn, i: nat, b: int, e': EnvId, v': Vpn)
    requires Inv(s) && CanWrite(s, e, v, i, b)
    ensures View(DoWrite(s, e, v, i, b), e', v') ==
            if (e', v') == (e, v) then Written(View(s, e, v), i, b) else View(s, e', v')
  {
    RunningIsNotForked(s, e);
    if e in s.handlers { assert HandlerOk(s, e); }
    assert SameFrame(s, (e, v), (e', v')) ==> s.pt[(e, v)].share || Excused(s, (e, v), (e', v'));
    if InLimbo(s, e', v') { ScratchIsPrivate(s, e', (e, v)); }
  }

  lemma FaultView(s: Conc, e: EnvId, v: Vpn, e': EnvId, v': Vpn)
    requires Inv(s) && CanFault(s, e, v)
    ensures View(DoFault(s, e, v), e', v') == View(s, e', v')
  {
  }

  lemma HAllocView(s: Conc, e: EnvId, f: Frame, e': EnvId, v': Vpn)
    requires Inv(s) && CanHAlloc(s, e, f)
    ensures View(DoHAlloc(s, e, f), e', v') == View(s, e', v')
  {
  }

  lemma HCopyView(s: Conc, e: EnvId, e': EnvId, v': Vpn)
    requires Inv(s) && CanHCopy(s, e)
    ensures View(DoHCopy(s, e), e', v') == View(s, e', v')
  {
    if (e', v') in s.pt && v' != PFTEMP { ScratchIsPrivate(s, e, (e', v')); }
    if InLimbo(s, e', v') { ScratchIsPrivate(s, e', (e, PFTEMP)); }
  }

  lemma HUnmapView(s: Conc, e: EnvId, e': EnvId, v': Vpn)
    requires Inv(s) && CanHUnmap(s, e)
    ensures View(DoHUnmap(s, e), e', v') == View(s, e', v')
  {
    assert HandlerOk(s, e);
    var p, q := s.pt[(e, PFTEMP)].frame, s.pt[(e, s.handlers[e].v)].frame;
    assert s.mem[p] == s.mem[p][..PGSIZE] == s.mem[q][..PGSIZE] == s.mem[q];
  }

  lemma HRemapView(s: Conc, e: EnvId, e': EnvId, v': Vpn)
    requires Inv(s) && CanHRemap(s, e)
    ensures View(DoHRemap(s, e), e', v') == View(s, e', v')
  {
  }

  lemma HFinishView(s: Conc, e: EnvId, e': EnvId, v': Vpn)
    requires Inv(s) && CanHFinish(s, e)
    ensures View(DoHFinish(s, e), e', v') == View(s, e', v')
  {
  }

  lemma DemandView(s: Conc, e: EnvId, v: Vpn, f: Frame, e': EnvId, v': Vpn)
    requires Inv(s) && CanDemand(s, e, v, f)
    ensures View(DoDemand(s, e, v, f), e', v') ==
            if (e', v') == (e, v) then Some(Own(Blank(), true)) else View(s, e', v')
  {
  }

  lemma BeginView(s: Conc, p: EnvId, c: EnvId, e': EnvId, v': Vpn)
    requires Inv(s) && CanBegin(s, p, c)
    ensures View(DoBegin(s, p, c), e', v') == View(s, e', v')
  {
  }

  lemma SkipView(s: Conc, c: EnvId, e': EnvId, v': Vpn)
    requires Inv(s) && CanSkip(s, c)
    ensures View(DoSkip(s, c), e', v') == View(s, e', v')
  {
  }

  lemma Dup1View(s: Conc, c: EnvId, e': EnvId, v': Vpn)
    requires Inv(s) && CanDup1(s, c)
    ensures View(DoDup1(s, c), e', v') ==
            if (e', v') != (c, s.forks[c].next) then View(s, e', v')
            else if HerePte(s, c).w && !HerePte(s, c).share then None
            else View(s, s.forks[c].parent, s.forks[c].next)
  {
  }

  lemma Dup2View(s: Conc, c: EnvId, e': EnvId, v': Vpn)
    requires Inv(s) && CanDup2(s, c)
    ensures View(DoDup2(s, c), e', v') ==
            if (e', v') != (c, s.forks[c].next) then View(s, e', v')
            else if s.forks[c].mid == Taken then View(s, c, s.forks[c].next)
            else View(s, s.forks[c].parent, s.forks[c].next)
  {
    assert ForkOk(s, c);
  }

  lemma EndView(s: Conc, c: EnvId, f: Frame, e': EnvId, v': Vpn)
    requires Inv(s) && CanEnd(s, c, f)
    ensures View(DoEnd(s, c, f), e', v') ==
            if (e', v') == (c, UXSTACK) then Some(Own(Blank(), true)) else View(s, e', v')
  {
  }

  // ---- the theorems ----

  /** The steps of the page-fault handler. */
  predicate OfHandler(x: Step) { x.Fault? || x.HAlloc? || x.HCopy? || x.HUnmap? || x.HRemap? || x.HFinish? }

  lemma HandlerStepKeeps(s: Conc, x: Step)
    requires Inv(s) && Enabled(s, x) && OfHandler(x)
    ensures Inv(Next(s, x))
  {
    match x
    case Fault(e, v) => FaultPages(s, e, v); FaultHandlers(s, e, v); FaultForks(s, e, v);
    case HAlloc(e, f) => HAllocPages(s, e, f); HAllocHandlers(s, e, f); HAllocForks(s, e, f);
    case HCopy(e) => HCopyPages(s, e); HCopyHandlers(s, e); HCopyForks(s, e);
    case HUnmap(e) => HUnmapPages(s, e); HUnmapHandlers(s, e); HUnmapForks(s, e);
    case HRemap(e) => HRemapPages(s, e); HRemapHandlers(s, e); HRemapForks(s, e);
    case HFinish(e) => HFinishPages(s, e); HFinishHandlers(s, e); HFinishForks(s, e);
  }

  lemma OtherStepKeeps(s: Conc, x: Step)
    requires Inv(s) && Enabled(s, x) && !OfHandler(x)
    ensures Inv(Next(s, x))
  {
    match x
    case Write(e, v, i, b) => WritePages(s, e, v, i, b); WriteHandlers(s, e, v, i, b); WriteForks(s, e, v, i, b);
    case Demand(e, v, f) => DemandPages(s, e, v, f); DemandHandlers(s, e, v, f); DemandForks(s, e, v, f);
    case Begin(p, c) => BeginPages(s, p, c); BeginHandlers(s, p, c); BeginForks(s, p, c);
    case Skip(c) => SkipPages(s, c); SkipHandlers(s, c); SkipForks(s, c);
    case Dup1(c) => Dup1Pages(s, c); Dup1Handlers(s, c); Dup1Forks(s, c);
    case Dup2(c) => Dup2Pages(s, c); Dup2Handlers(s, c); Dup2Forks(s, c);
    case End(c, f) => EndPages(s, c, f); EndHandlers(s, c, f); EndForks(s, c, f);
  }

  lemma StepKeeps(s: Conc, x: Step)
    requires Inv(s) && Enabled(s, x)
    ensures Inv(Next(s, x))
  {
    if OfHandler(x) { HandlerStepKeeps(s, x); } else { OtherStepKeeps(s, x); }
  }

  /** The handler never changes what anybody sees. */
  lemma HandlerStepView(s: Conc, x: Step, e': EnvId, v': Vpn)
    requires Inv(s) && Enabled(s, x) && OfHandler(x)
    ensures View(Next(s, x), e', v') == View(s, e', v')
  {
    match x
    case Fault(e, v) => FaultView(s, e, v, e', v');
    case HAlloc(e, f) => HAllocView(s, e, f, e', v');
    case HCopy(e) => HCopyView(s, e, e', v');
    case HUnmap(e) => HUnmapView(s, e, e', v');
    case HRemap(e) => HRemapView(s, e, e', v');
    case HFinish(e) => HFinishView(s, e, e', v');
  }

  /** The view after a store, a copied page and a fresh page is that of the eager action. */
  lemma WriteRefines(s: Conc, a: Eager, x: Step, e': EnvId, v': Vpn)
    requires Inv(s) && Enabled(s, x) && Refines(s, a) && x.Write? && Allowed(a, Meaning(s, x))
    ensures View(Next(s, x), e', v') == Cells(Apply(a, Meaning(s, x)), e', v')
  {
    WriteView(s, x.e, x.v, x.i, x.b, e', v');
    assert View(s, x.e, x.v) == Cells(a, x.e, x.v) && View(s, e', v') == Cells(a, e', v');
  }

  lemma CopyRefines(s: Conc, a: Eager, x: Step, c: EnvId, e': EnvId, v': Vpn)
    requires Inv(s) && Enabled(s, x) && Refines(s, a) && (x == Dup1(c) || x == Dup2(c)) && Allowed(a, Meaning(s, x))
    ensures View(Next(s, x), e', v') == Cells(Apply(a, Meaning(s, x)), e', v')
  {
    var p, v := s.forks[c].parent, s.forks[c].next;
    assert View(s, p, v) == Cells(a, p, v) && View(s, c, v) == Cells(a, c, v) && View(s, e', v') == Cells(a, e', v');
    if x == Dup1(c) {
      Dup1View(s, c, e', v');
      assert ForkOk(s, c);
    } else {
      Dup2View(s, c, e', v');
    }
  }

  lemma ZeroRefines(s: Conc, a: Eager, x: Step, e': EnvId, v': Vpn)
    requires Inv(s) && Enabled(s, x) && Refines(s, a) && (x.Demand? || x.End?) && Allowed(a, Meaning(s, x))
    ensures View(Next(s, x), e', v') == Cells(Apply(a, Meaning(s, x)), e', v')
  {
    assert View(s, e', v') == Cells(a, e', v');
    if x.Demand? { DemandView(s, x.e, x.v, x.f, e', v'); } else { EndView(s, x.c, x.f, e', v'); }
  }

  lemma QuietRefines(s: Conc, a: Eager, x: Step, e': EnvId, v': Vpn)
    requires Inv(s) && Enabled(s, x) && Refines(s, a) && (OfHandler(x) || x.Begin? || x.Skip?)
    ensures Meaning(s, x) == Quiet && View(Next(s, x), e', v') == Cells(a, e', v')
  {
    assert View(s, e', v') == Cells(a, e', v');
    if x.Begin? {
      BeginView(s, x.p, x.c, e', v');
    } else if x.Skip? {
      SkipView(s, x.c, e', v');
    } else {
      HandlerStepView(s, x, e', v');
    }
  }

  /** The view after a step is the view before it with the step's meaning applied. */
  lemma StepView(s: Conc, a: Eager, x: Step, e': EnvId, v': Vpn)
    requires Inv(s) && Enabled(s, x) && Refines(s, a) && Allowed(a, Meaning(s, x))
    ensures View(Next(s, x), e', v') == Cells(Apply(a, Meaning(s, x)), e', v')
  {
    if x.Write? {
      WriteRefines(s, a, x, e', v');
    } else if x.Dup1? || x.Dup2? {
      CopyRefines(s, a, x, x.c, e', v');
    } else if x.Demand? || x.End? {
      ZeroRefines(s, a, x, e', v');
    } else {
      QuietRefines(s, a, x, e', v');
    }
  }

  lemma StepAllowed(s: Conc, a: Eager, x: Step)
    requires Inv(s) && Enabled(s, x) && Refines(s, a)
    ensures Allowed(a, Meaning(s, x))
  {
    match x
    case Write(e, v, i, b) =>
      RunningIsNotForked(s, e);
      if e in s.handlers { assert HandlerOk(s, e); }
      assert View(s, e, v) == Cells(a, e, v);
    case Demand(e, v, f) => assert View(s, e, v) == Cells(a, e, v);
    case Dup1(c) => CopyAllowed(s, a, c);
    case Dup2(c) =>
      assert ForkOk(s, c);
      if s.forks[c].mid != Taken { CopyAllowed(s, a, c); }
    case End(c, f) =>
      assert ForkOk(s, c);
      assert View(s, c, UXSTACK) == Cells(a, c, UXSTACK);
    case _ =>
  }

  lemma CopyAllowed(s: Conc, a: Eager, c: EnvId)
    requires Inv(s) && Refines(s, a) && c in s.forks && s.forks[c].parent !in s.handlers && s.forks[c].next < NV
    requires (s.forks[c].parent, s.forks[c].next) in s.pt && s.forks[c].mid != Taken
    ensures Allowed(a, Copy(s.forks[c].parent, c, s.forks[c].next))
  {
    var p, v := s.forks[c].parent, s.forks[c].next;
    assert ForkOk(s, c);
    RunningIsNotForked(s, p);
    assert View(s, p, v) == Cells(a, p, v);
    assert View(s, c, v) == Cells(a, c, v);
  }

  lemma QuietCommon(s: Conc, a: Eager, x: Step)
    requires Inv(s) && Enabled(s, x) && CommonAgree(s, a) && (OfHandler(x) || x.Begin? || x.Skip?)
    ensures CommonAgree(Next(s, x), a) && Meaning(s, x) == Quiet
  {
    match x
    case HAlloc(e, f) => FreshCommon(s, a, (e, PFTEMP), f);
    case HCopy(e) => HCopyCommon(s, a, e);
    case HRemap(e) => assert HandlerOk(s, e);
    case _ =>
  }

  /** Copies and fresh pages leave the common pages alone. */
  lemma PageCommon(s: Conc, a: Eager, x: Step)
    requires Inv(s) && Enabled(s, x) && CommonAgree(s, a) && (x.Dup1? || x.Dup2? || x.Demand? || x.End?)
      && Allowed(a, Meaning(s, x))
    ensures CommonAgree(Next(s, x), a) && Apply(a, Meaning(s, x)).common == a.common
  {
    match x
    case Dup1(c) => Dup1Common(s, a, c);
    case Dup2(c) => Dup2Common(s, a, c);
    case Demand(e, v, f) => FreshCommon(s, a, (e, v), f);
    case End(c, f) => FreshCommon(s, a, (c, UXSTACK), f);
  }

  lemma StepCommon(s: Conc, a: Eager, x: Step)
    requires Inv(s) && Enabled(s, x) && Refines(s, a) && Allowed(a, Meaning(s, x))
    ensures CommonAgree(Next(s, x), Apply(a, Meaning(s, x)))
  {
    if x.Write? {
      WriteCommon(s, a, x.e, x.v, x.i, x.b);
    } else if x.Dup1? || x.Dup2? || x.Demand? || x.End? {
      PageCommon(s, a, x);
    } else {
      QuietCommon(s, a, x);
    }
  }

  lemma Dup2Common(s: Conc, a: Eager, c: EnvId)
    requires Inv(s) && CanDup2(s, c) && CommonAgree(s, a)
    ensures CommonAgree(DoDup2(s, c), a)
  {}

  lemma Dup1Common(s: Conc, a: Eager, c: EnvId)
    requires Inv(s) && CanDup1(s, c) && CommonAgree(s, a)
    ensures CommonAgree(DoDup1(s, c), a)
  {}

  lemma FreshCommon(s: Conc, a: Eager, k: (EnvId, Vpn), f: Frame)
    requires CommonAgree(s, a) && FreeFrame(s, f)
    ensures CommonAgree(s.(pt := s.pt[k := Pte(f, true, false, false)], mem := s.mem[f := Blank()]), a)
  {}

  lemma HCopyCommon(s: Conc, a: Eager, e: EnvId)
    requires Inv(s) && CanHCopy(s, e) && CommonAgree(s, a)
    ensures CommonAgree(DoHCopy(s, e), a)
  {
    forall k | k in s.pt && s.pt[k].share ensures s.pt[k].frame != s.pt[(e, PFTEMP)].frame {
      assert HandlerOk(s, e);
      if k != (e, PFTEMP) { ScratchIsPrivate(s, e, k); }
    }
  }

  lemma WriteCommon(s: Conc, a: Eager, e: EnvId, v: Vpn, i: nat, b: int)
    requires Inv(s) && CanWrite(s, e, v, i, b) && Refines(s, a) && Allowed(a, Store(e, v, i, b))
    ensures CommonAgree(DoWrite(s, e, v, i, b), Apply(a, Store(e, v, i, b)))
  {
    RunningIsNotForked(s, e);
    if e in s.handlers { assert HandlerOk(s, e); }
    assert View(s, e, v) == Cells(a, e, v);
    forall k | k in s.pt && k != (e, v) && s.pt[k].frame == s.pt[(e, v)].frame
      ensures s.pt[k].share == s.pt[(e, v)].share
    {
      assert SameFrame(s, k, (e, v));
    }
  }

  /** Each step of the copy-on-write system is one step (or none) of the eager one. */
  lemma StepRefines(s: Conc, a: Eager, x: Step)
    requires Inv(s) && Enabled(s, x) && Refines(s, a)
    ensures Allowed(a, Meaning(s, x)) && Inv(Next(s, x)) && Refines(Next(s, x), Apply(a, Meaning(s, x)))
  {
    StepAllowed(s, a, x);
    StepKeeps(s, x);
    StepCommon(s, a, x);
    forall e': nat, v': nat ensures View(Next(s, x), e', v') == Cells(Apply(a, Meaning(s, x)), e', v') {
      StepView(s, a, x, e', v');
    }
  }

  ghost predicate Run(s: Conc, xs: seq<Step>)
    decreases |xs|
  {
    xs == [] || (Enabled(s, xs[0]) && Run(Next(s, xs[0]), xs[1..]))
  }

  ghost function After(s: Conc, xs: seq<Step>): Conc
    requires Run(s, xs)
    decreases |xs|
  {
    if xs == [] then s else After(Next(s, xs[0]), xs[1..])
  }

  ghost function Meanings(s: Conc, xs: seq<Step>): seq<Action>
    requires Run(s, xs)
    decreases |xs|
  {
    if xs == [] then [] else [Meaning(s, xs[0])] + Meanings(Next(s, xs[0]), xs[1..])
  }

  ghost predicate EagerRun(a: Eager, ys: seq<Action>)
    decreases |ys|
  {
    ys == [] || (Allowed(a, ys[0]) && EagerRun(Apply(a, ys[0]), ys[1..]))
  }

  ghost function EagerAfter(a: Eager, ys: seq<Action>): Eager
    requires EagerRun(a, ys)
    decreases |ys|
  {
    if ys == [] then a else EagerAfter(Apply(a, ys[0]), ys[1..])
  }

  /**
   Copy-on-write fork refines eager copying: for any number of forks and any
   interleaving of stores, faults, handlers and duppage calls, every environment
   holds what it would hold had each page been copied outright.
   */
  lemma {:induction false} ForkRefinesEagerCopying(s: Conc, a: Eager, xs: seq<Step>)
    requires Inv(s) && Refines(s, a) && Run(s, xs)
    ensures Inv(After(s, xs)) && EagerRun(a, Meanings(s, xs))
    ensures Refines(After(s, xs), EagerAfter(a, Meanings(s, xs)))
    decreases |xs|
  {
    if xs != [] {
      var x, ys := xs[0], Meanings(s, xs);
      StepRefines(s, a, x);
      ForkRefinesEagerCopying(Next(s, x), Apply(a, Meaning(s, x)), xs[1..]);
      assert ys[0] == Meaning(s, x) && ys[1..] == Meanings(Next(s, x), xs[1..]);
    }
  }

  /**
   Environments that have neither faulted nor forked: every frame is mapped once, or is shared wherever it is mapped.
   */
  ghost predicate Fresh(s: Conc) {
    && s.forks == map[] && s.handlers == map[]
    && (forall k :: k in s.pt ==>
          k.0 in s.running && k.1 != PFTEMP && s.pt[k].frame in s.mem && |s.mem[s.pt[k].frame]| == PGSIZE
            && !s.pt[k].cow)
    && (forall k, q :: SameFrame(s, k, q) ==> s.pt[k].share && s.pt[q].share)
  }

  /** Such a state satisfies the invariant, and so starts a run. */
  lemma FreshIsInv(s: Conc)
    requires Fresh(s)
    ensures Inv(s)
  {}

  /** From any such state, every run is a run of eager copying from the same contents. */
  lemma FreshRunsRefine(s: Conc, xs: seq<Step>) returns (a: Eager)
    requires Fresh(s) && Run(s, xs)
    ensures Refines(s, a) && EagerRun(a, Meanings(s, xs)) && Refines(After(s, xs), EagerAfter(a, Meanings(s, xs)))
  {
    FreshIsInv(s);
    a := EagerStart(s);
    ForkRefinesEagerCopying(s, a, xs);
  }

  /** Every state that keeps the invariant has an eager counterpart to start from. */
  lemma EagerStart(s: Conc) returns (a: Eager)
    requires Inv(s)
    ensures Refines(s, a)
  {
    var keys := set k | k in s.pt && View(s, k.0, k.1).Some?;
    var limbo := set e | e in s.handlers && View(s, e, s.handlers[e].v).Some? :: (e, s.handlers[e].v);
    var cells := map k: (nat, nat) | k in keys + limbo :: View(s, k.0, k.1).value;
    var frames := set k | k in s.pt && s.pt[k].share :: s.pt[k].frame;
    var common := map f | f in frames && f in s.mem :: s.mem[f];
    a := Eager(cells, common);
    forall e: nat, v: nat ensures View(s, e, v) == Cells(a, e, v) {
      if InLimbo(s, e, v) && View(s, e, v).Some? { assert (e, v) in limbo; }
      if (e, v) in cells { assert View(s, e, v).Some?; }
    }
    forall k | k in s.pt && s.pt[k].share
      ensures s.pt[k].frame in a.common && a.common[s.pt[k].frame] == s.mem[s.pt[k].frame]
    {
      assert s.pt[k].frame in frames;
    }
  }

  /** The word a user-mode load of (e, v) returns is the one eager copying would return. */
  lemma LoadsAgree(s: Conc, a: Eager, e: EnvId, v: Vpn, i: nat)
    requires Inv(s) && Refines(s, a) && e in s.running && v != PFTEMP && (e, v) in s.pt && i < PGSIZE
    ensures s.pt[(e, v)].frame in s.mem && |s.mem[s.pt[(e, v)].frame]| == PGSIZE && (e, v) in a.cells
    ensures match a.cells[(e, v)]
      case Own(page, _) => i < |page| && s.mem[s.pt[(e, v)].frame][i] == page[i]
      case Common(id, _) => id in a.common && i < |a.common[id]| && s.mem[s.pt[(e, v)].frame][i] == a.common[id][i]
  {
    RunningIsNotForked(s, e);
    if e in s.handlers { assert HandlerOk(s, e); }
    assert View(s, e, v) == Cells(a, e, v);
  }

  /** While no handler runs and no duppage is half done, a writable private page has exactly one mapping. */
  lemma WritableIsUnshared(s: Conc, k: (EnvId, Vpn), q: (EnvId, Vpn))
    requires Inv(s) && s.handlers == map[] && (forall c :: c in s.forks ==> s.forks[c].mid == Outside)
    requires k in s.pt && q in s.pt && s.pt[k].w && !s.pt[k].share && s.pt[q].frame == s.pt[k].frame
    ensures k == q
  {
    assert SameFrame(s, k, q) ==> Excused(s, k, q);
  }
}
