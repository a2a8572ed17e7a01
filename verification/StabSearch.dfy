/** stab_binsearch (kern/kdebug.c): a binary search that sees only the entries of one type. */
module StabSearch {
  const WORD := 0x1_0000_0000

  type Addr = x: int | 0 <= x < 0x1_0000_0000

  datatype Stab = Stab(kind: int, value: Addr)   // n_type and n_value

  /** Entries of the wanted type within [lo, hi] are in increasing order of value. */
  ghost predicate Increasing(stabs: seq<Stab>, lo: nat, hi: int, kind: int)
    requires hi < |stabs|
  {
    forall i, j :: lo <= i < j <= hi && stabs[i].kind == kind && stabs[j].kind == kind ==>
      stabs[i].value < stabs[j].value
  }

  /** Entry i is of the type, in [l, r], and has that value. */
  predicate Hit(stabs: seq<Stab>, l: int, r: int, kind: int, value: int, i: int) {
    0 <= l <= i <= r < |stabs| && stabs[i].kind == kind && stabs[i].value == value
  }

  ghost predicate Occurs(stabs: seq<Stab>, l: int, r: int, kind: int, value: int) {
    exists i :: Hit(stabs, l, r, kind, value, i)
  }

  ghost predicate NoneOf(stabs: seq<Stab>, lo: int, hi: int, kind: int)
    requires 0 <= lo && hi < |stabs|
  {
    forall i :: lo <= i <= hi ==> stabs[i].kind != kind
  }

  /** left is the last entry at or below addr, and right is just before the next entry of the type (or the end). */
  ghost predicate Brackets(stabs: seq<Stab>, lo: nat, hi: int, kind: int, addr: nat, left: int, right: int)
    requires hi < |stabs|
  {
    && lo <= left <= right <= hi
    && stabs[left].kind == kind && stabs[left].value <= addr
    && NoneOf(stabs, left + 1, right, kind)
    && (right < hi ==> stabs[right + 1].kind == kind && stabs[right + 1].value > addr)
  }

  /** Everything of the type lies above addr: right is just before the first such entry, and left is no match. */
  ghost predicate AllAbove(stabs: seq<Stab>, lo: nat, hi: int, kind: int, addr: nat, left: int, right: int)
    requires hi < |stabs|
  {
    && lo - 1 <= right < hi && stabs[right + 1].kind == kind && stabs[right + 1].value > addr
    && NoneOf(stabs, lo, right, kind)
    && left == if right < lo then right else lo
  }

  ghost predicate Right(stabs: seq<Stab>, lo: nat, hi: int, kind: int, addr: nat, left: int, right: int)
    requires hi < |stabs|
  {
    Brackets(stabs, lo, hi, kind, addr, left, right) || AllAbove(stabs, lo, hi, kind, addr, left, right)
  }

  // ---- the search as a function ----

  /** The loop's variables: addr, *region_left, l and r (which *region_right always equals). */
  datatype Vars = Vars(addr: Addr, left: int, l: int, r: int)

  /** The backward scan: the last entry of the type in [l, from], or l - 1. */
  function Last(stabs: seq<Stab>, l: nat, from: int, kind: int): (m: int)
    requires l - 1 <= from < |stabs|
    ensures l - 1 <= m <= from && NoneOf(stabs, m + 1, from, kind) && (m >= l ==> stabs[m].kind == kind)
    decreases from - l + 1
  {
    if from < l || stabs[from].kind == kind then from else Last(stabs, l, from - 1, kind)
  }

  /** addr++ on a uintptr_t. */
  function Inc32(addr: Addr): Addr { if addr + 1 == WORD then 0 else addr + 1 }

  /** What one round does, given the last entry m of the type at or before the middle. */
  function Round(stabs: seq<Stab>, v: Vars, m: int, trueM: int): Vars
    requires v.l - 1 <= m <= trueM < |stabs| && 0 <= v.l
  {
    if m < v.l then v.(l := trueM + 1)
    else if stabs[m].value < v.addr then v.(left := m, l := trueM + 1)
    else if stabs[m].value > v.addr then v.(r := m - 1)
    else Vars(Inc32(v.addr), m, m, v.r)
  }

  /** What is left to do: two units a slot, one less once the slot at l has been matched exactly. */
  function Rank(stabs: seq<Stab>, kind: int, addr: nat, l: nat, r: int): nat
    requires l - 1 <= r < |stabs|
  {
    2 * (r - l + 1) - (if l <= r && stabs[l].kind == kind && stabs[l].value != addr then 1 else 0)
  }

  lemma RoundShrinks(stabs: seq<Stab>, kind: int, v: Vars, m: int, trueM: int)
    requires 0 <= v.l && v.l - 1 <= m <= trueM <= v.r < |stabs| && v.l <= trueM && (m >= v.l ==> stabs[m].kind == kind)
    ensures var w := Round(stabs, v, m, trueM);
      v.l <= w.l && w.l - 1 <= w.r <= v.r && Rank(stabs, kind, w.addr, w.l, w.r) < Rank(stabs, kind, v.addr, v.l, v.r)
  {}

  predicate InRange(stabs: seq<Stab>, v: Vars) { 0 <= v.l && v.l - 1 <= v.r < |stabs| }

  // The middle, which proofs need to be between l and r only; `assert Halved(0)` shows where.
  predicate Halved(n: nat) { true }

  predicate IsMid(l: nat, r: int, m: int) {
    l <= m <= r && forall n: nat {:trigger Halved(n)} :: n == 0 ==> m == (l + r) / 2
  }

  function Mid(l: nat, r: int): (m: int)
    requires l <= r
    ensures l <= m <= r
  {
    assert Halved(0) && IsMid(l, r, (l + r) / 2);
    var m :| IsMid(l, r, m);
    m
  }

  lemma MidIs(l: nat, r: int)
    requires l <= r
    ensures Mid(l, r) == (l + r) / 2
  {
    assert Halved(0);
  }

  /** The entry a round looks at. */
  function Probe(stabs: seq<Stab>, kind: int, l: nat, r: int): (m: int)
    requires l <= r < |stabs|
    ensures l - 1 <= m <= Mid(l, r) <= r && (m >= l ==> stabs[m].kind == kind)
    ensures NoneOf(stabs, m + 1, Mid(l, r), kind)
  {
    Last(stabs, l, Mid(l, r), kind)
  }

  function NextVars(stabs: seq<Stab>, kind: int, v: Vars): (w: Vars)
    requires InRange(stabs, v) && v.l <= v.r
    ensures InRange(stabs, w) && v.l <= w.l && w.r <= v.r
    ensures Rank(stabs, kind, w.addr, w.l, w.r) < Rank(stabs, kind, v.addr, v.l, v.r)
  {
    RoundShrinks(stabs, kind, v, Probe(stabs, kind, v.l, v.r), Mid(v.l, v.r));
    Round(stabs, v, Probe(stabs, kind, v.l, v.r), Mid(v.l, v.r))
  }

  /** The main loop from v on. */
  function SearchFrom(stabs: seq<Stab>, kind: int, v: Vars): (w: Vars)
    requires InRange(stabs, v)
    ensures InRange(stabs, w) && w.l > w.r && w.r <= v.r && v.l <= w.l
    decreases Rank(stabs, kind, v.addr, v.l, v.r)
  {
    if v.l > v.r then v else SearchFrom(stabs, kind, NextVars(stabs, kind, v))
  }

  /** The last loop: back from l to an entry of the type, but not past left. */
  function Settle(stabs: seq<Stab>, left: nat, l: int, kind: int): (m: int)
    requires l < |stabs|
    ensures if l <= left then m == l
            else left <= m <= l && NoneOf(stabs, m + 1, l, kind) && (m > left ==> stabs[m].kind == kind)
    decreases l - left
  {
    if l > left && stabs[l].kind != kind then Settle(stabs, left, l - 1, kind) else l
  }

  // ---- when it is right ----

  /** The first entry with value addr or addr + 1 that an ordinary binary search for the two comes upon, or -1. */
  function FirstProbe(stabs: seq<Stab>, kind: int, addr: int, l: nat, r: int): (p: int)
    requires l - 1 <= r < |stabs|
    ensures p == -1 || (l <= p <= r && stabs[p].kind == kind)
    decreases r - l + 1
  {
    if l > r then -1
    else
      var m := Probe(stabs, kind, l, r);
      if m < l || stabs[m].value < addr then FirstProbe(stabs, kind, addr, Mid(l, r) + 1, r)
      else if stabs[m].value > addr + 1 then FirstProbe(stabs, kind, addr, l, m - 1)
      else m
  }

  /**
   The `addr++` on an exact match does no harm: if addr occurs then addr + 1 does not wrap,
   and if addr + 1 occurs too the search does not come upon addr first.
   */
  ghost predicate Sure(stabs: seq<Stab>, kind: int, addr: int, l: nat, r: int)
    requires l - 1 <= r < |stabs|
  {
    Occurs(stabs, l, r, kind, addr) ==>
      && addr + 1 < WORD
      && (Occurs(stabs, l, r, kind, addr + 1) ==>
            var p := FirstProbe(stabs, kind, addr, l, r); p == -1 || stabs[p].value != addr)
  }

  /** A second exact match, or one that wraps, cannot happen any more. */
  ghost predicate Calm(stabs: seq<Stab>, kind: int, target: nat, v: Vars)
    requires InRange(stabs, v)
  {
    if v.addr == target then Sure(stabs, kind, target, v.l, v.r)
    else v.addr == target + 1 && !Occurs(stabs, v.l, v.r, kind, target + 1)
  }

  /** What lies left of l and right of r, and what *region_left is. */
  ghost predicate Sided(stabs: seq<Stab>, lo: nat, hi: int, kind: int, target: nat, v: Vars)
    requires hi < |stabs|
  {
    && lo <= v.l && v.r <= hi && v.l - 1 <= v.r && (v.addr == target || v.addr == target + 1)
    && (forall i :: lo <= i < v.l && i <= hi && stabs[i].kind == kind ==> stabs[i].value < v.addr && i <= v.left)
    && (forall i :: lo <= i <= hi && v.r < i && stabs[i].kind == kind ==> stabs[i].value > target)
    && (v.r < hi ==> lo <= v.r + 1 && stabs[v.r + 1].kind == kind)
    && ((lo <= v.left <= v.r && stabs[v.left].kind == kind && stabs[v.left].value < v.addr && v.left <= v.l)
        || (v.left == lo && v.addr == target && forall i :: lo <= i < v.l && i <= hi ==> stabs[i].kind != kind))
  }

  ghost predicate Searching(stabs: seq<Stab>, lo: nat, hi: int, kind: int, target: nat, v: Vars)
    requires hi < |stabs|
  {
    Sided(stabs, lo, hi, kind, target, v) && Calm(stabs, kind, target, v)
  }

  lemma MoveRight(stabs: seq<Stab>, lo: nat, hi: int, kind: int, target: nat, v: Vars, m: int, trueM: int)
    requires hi < |stabs| && Sided(stabs, lo, hi, kind, target, v) && Increasing(stabs, lo, hi, kind)
    requires v.l - 1 <= m <= trueM <= v.r && v.l <= trueM && NoneOf(stabs, m + 1, trueM, kind)
    requires m >= v.l ==> stabs[m].kind == kind && stabs[m].value < v.addr
    ensures Sided(stabs, lo, hi, kind, target, v.(left := if m < v.l then v.left else m, l := trueM + 1))
  {}

  lemma MoveLeft(stabs: seq<Stab>, lo: nat, hi: int, kind: int, target: nat, v: Vars, m: int)
    requires hi < |stabs| && Sided(stabs, lo, hi, kind, target, v) && Increasing(stabs, lo, hi, kind)
    requires v.l <= m <= v.r && stabs[m].kind == kind && stabs[m].value > v.addr
    ensures Sided(stabs, lo, hi, kind, target, v.(r := m - 1))
  {}

  lemma ExactMatch(stabs: seq<Stab>, lo: nat, hi: int, kind: int, target: nat, v: Vars, m: int)
    requires hi < |stabs| && Sided(stabs, lo, hi, kind, target, v) && Increasing(stabs, lo, hi, kind)
    requires v.l <= m <= v.r && stabs[m].kind == kind && stabs[m].value == v.addr == target && target + 1 < WORD
    ensures Sided(stabs, lo, hi, kind, target, Vars(target + 1, m, m, v.r))
  {}

  lemma Narrower(stabs: seq<Stab>, l: int, r: int, l': int, r': int, kind: int, value: int)
    requires 0 <= l <= l' && r' <= r < |stabs| && Occurs(stabs, l', r', kind, value)
    ensures Occurs(stabs, l, r, kind, value)
  {
    var i :| Hit(stabs, l', r', kind, value, i);
    assert Hit(stabs, l, r, kind, value, i);
  }

  lemma FirstProbeRight(stabs: seq<Stab>, kind: int, addr: int, l: nat, r: int)
    requires l <= r < |stabs|
    requires var m := Probe(stabs, kind, l, r); m < l || stabs[m].value < addr
    ensures FirstProbe(stabs, kind, addr, l, r) == FirstProbe(stabs, kind, addr, Mid(l, r) + 1, r)
  {}

  lemma FirstProbeLeft(stabs: seq<Stab>, kind: int, addr: int, l: nat, r: int)
    requires l <= r < |stabs|
    requires var m := Probe(stabs, kind, l, r); m >= l && stabs[m].value > addr + 1
    ensures FirstProbe(stabs, kind, addr, l, r) == FirstProbe(stabs, kind, addr, l, Probe(stabs, kind, l, r) - 1)
  {}

  /** Past the left of the range nothing of the value is lost. */
  lemma RightOf(stabs: seq<Stab>, lo: nat, hi: int, kind: int, addr: int, l: nat, r: int, i: int)
    requires lo <= l <= r <= hi < |stabs| && Increasing(stabs, lo, hi, kind) && Hit(stabs, l, r, kind, addr, i)
    requires var m := Probe(stabs, kind, l, r); m < l || stabs[m].value < addr
    ensures Hit(stabs, Mid(l, r) + 1, r, kind, addr, i)
  {}

  lemma LeftOf(stabs: seq<Stab>, lo: nat, hi: int, kind: int, addr: int, l: nat, r: int, i: int)
    requires lo <= l <= r <= hi < |stabs| && Increasing(stabs, lo, hi, kind) && Hit(stabs, l, r, kind, addr, i)
    requires var m := Probe(stabs, kind, l, r); m >= l && stabs[m].value > addr
    ensures Hit(stabs, l, Probe(stabs, kind, l, r) - 1, kind, addr, i)
  {}

  lemma SureRight(stabs: seq<Stab>, kind: int, addr: int, l: nat, r: int)
    requires l <= r < |stabs| && Sure(stabs, kind, addr, l, r)
    requires var m := Probe(stabs, kind, l, r); m < l || stabs[m].value < addr
    ensures Sure(stabs, kind, addr, Mid(l, r) + 1, r)
  {
    var c := Mid(l, r) + 1;
    FirstProbeRight(stabs, kind, addr, l, r);
    if Occurs(stabs, c, r, kind, addr) { Narrower(stabs, l, r, c, r, kind, addr); }
    if Occurs(stabs, c, r, kind, addr + 1) { Narrower(stabs, l, r, c, r, kind, addr + 1); }
  }

  lemma BelowProbe(stabs: seq<Stab>, lo: nat, hi: int, kind: int, value: int, l: nat, m: int)
    requires lo <= l <= m <= hi < |stabs| && Increasing(stabs, lo, hi, kind) && stabs[m].kind == kind
    requires Occurs(stabs, l, m - 1, kind, value)
    ensures stabs[m].value > value
  {
    var r := m - 1;
    var i :| Hit(stabs, l, r, kind, value, i);
    assert stabs[i].value < stabs[m].value;
  }

  lemma SureLeft(stabs: seq<Stab>, lo: nat, hi: int, kind: int, addr: int, l: nat, r: int)
    requires lo <= l <= r <= hi < |stabs| && Increasing(stabs, lo, hi, kind) && Sure(stabs, kind, addr, l, r)
    requires var m := Probe(stabs, kind, l, r); m >= l && stabs[m].value > addr
    ensures Sure(stabs, kind, addr, l, Probe(stabs, kind, l, r) - 1)
  {
    var m := Probe(stabs, kind, l, r);
    if Occurs(stabs, l, m - 1, kind, addr) { Narrower(stabs, l, r, l, m - 1, kind, addr); }
    if Occurs(stabs, l, m - 1, kind, addr + 1) {
      Narrower(stabs, l, r, l, m - 1, kind, addr + 1);
      BelowProbe(stabs, lo, hi, kind, addr + 1, l, m);
      FirstProbeLeft(stabs, kind, addr, l, r);
    }
  }

  /** Going on past m keeps the calm. */
  lemma CalmRight(stabs: seq<Stab>, kind: int, target: nat, v: Vars, left: int)
    requires InRange(stabs, v) && v.l <= v.r && Calm(stabs, kind, target, v)
    requires var m := Probe(stabs, kind, v.l, v.r); m < v.l || stabs[m].value < v.addr
    ensures Calm(stabs, kind, target, v.(left := left, l := Mid(v.l, v.r) + 1))
  {
    var c := Mid(v.l, v.r) + 1;
    if v.addr == target {
      SureRight(stabs, kind, target, v.l, v.r);
    } else if Occurs(stabs, c, v.r, kind, target + 1) {
      Narrower(stabs, v.l, v.r, c, v.r, kind, target + 1);
    }
  }

  lemma CalmLeft(stabs: seq<Stab>, lo: nat, hi: int, kind: int, target: nat, v: Vars)
    requires InRange(stabs, v) && v.l <= v.r && Calm(stabs, kind, target, v)
    requires lo <= v.l && v.r <= hi < |stabs| && Increasing(stabs, lo, hi, kind)
    requires var m := Probe(stabs, kind, v.l, v.r); m >= v.l && stabs[m].value > v.addr
    ensures Calm(stabs, kind, target, v.(r := Probe(stabs, kind, v.l, v.r) - 1))
  {
    var m := Probe(stabs, kind, v.l, v.r);
    if v.addr == target {
      SureLeft(stabs, lo, hi, kind, target, v.l, v.r);
    } else if Occurs(stabs, v.l, m - 1, kind, target + 1) {
      Narrower(stabs, v.l, v.r, v.l, m - 1, kind, target + 1);
    }
  }

  lemma CalmMatch(stabs: seq<Stab>, kind: int, target: nat, v: Vars)
    requires InRange(stabs, v) && v.l <= v.r && Calm(stabs, kind, target, v)
    requires var m := Probe(stabs, kind, v.l, v.r); m >= v.l && stabs[m].value == v.addr
    ensures v.addr == target && target + 1 < WORD
    ensures var m := Probe(stabs, kind, v.l, v.r); Calm(stabs, kind, target, Vars(target + 1, m, m, v.r))
  {
    var m := Probe(stabs, kind, v.l, v.r);
    assert Hit(stabs, v.l, v.r, kind, v.addr, m);
    assert v.addr == target ==> FirstProbe(stabs, kind, target, v.l, v.r) == m;
    if Occurs(stabs, m, v.r, kind, target + 1) { Narrower(stabs, v.l, v.r, m, v.r, kind, target + 1); }
  }

  lemma RoundRight(stabs: seq<Stab>, lo: nat, hi: int, kind: int, target: nat, v: Vars)
    requires hi < |stabs| && Searching(stabs, lo, hi, kind, target, v) && Increasing(stabs, lo, hi, kind) && v.l <= v.r
    requires var m := Probe(stabs, kind, v.l, v.r); m < v.l || stabs[m].value < v.addr
    ensures Searching(stabs, lo, hi, kind, target, NextVars(stabs, kind, v))
  {
    var m, c := Probe(stabs, kind, v.l, v.r), Mid(v.l, v.r);
    var left := if m < v.l then v.left else m;
    MoveRight(stabs, lo, hi, kind, target, v, m, c);
    CalmRight(stabs, kind, target, v, left);
    assert NextVars(stabs, kind, v) == v.(left := left, l := c + 1);
  }

  lemma RoundLeft(stabs: seq<Stab>, lo: nat, hi: int, kind: int, target: nat, v: Vars)
    requires hi < |stabs| && Searching(stabs, lo, hi, kind, target, v) && Increasing(stabs, lo, hi, kind) && v.l <= v.r
    requires var m := Probe(stabs, kind, v.l, v.r); m >= v.l && stabs[m].value > v.addr
    ensures Searching(stabs, lo, hi, kind, target, NextVars(stabs, kind, v))
  {
    var m := Probe(stabs, kind, v.l, v.r);
    MoveLeft(stabs, lo, hi, kind, target, v, m);
    CalmLeft(stabs, lo, hi, kind, target, v);
    NextLeft(stabs, kind, v);
  }

  lemma RoundMatch(stabs: seq<Stab>, lo: nat, hi: int, kind: int, target: nat, v: Vars)
    requires hi < |stabs| && Searching(stabs, lo, hi, kind, target, v) && Increasing(stabs, lo, hi, kind) && v.l <= v.r
    requires var m := Probe(stabs, kind, v.l, v.r); m >= v.l && stabs[m].value == v.addr
    ensures Searching(stabs, lo, hi, kind, target, NextVars(stabs, kind, v))
  {
    var m := Probe(stabs, kind, v.l, v.r);
    CalmMatch(stabs, kind, target, v);
    ExactMatch(stabs, lo, hi, kind, target, v, m);
    assert NextVars(stabs, kind, v) == Vars(target + 1, m, m, v.r);
  }

  /** One round keeps what the loop knows. */
  lemma RoundKeeps(stabs: seq<Stab>, lo: nat, hi: int, kind: int, target: nat, v: Vars)
    requires hi < |stabs| && Searching(stabs, lo, hi, kind, target, v) && Increasing(stabs, lo, hi, kind) && v.l <= v.r
    ensures Searching(stabs, lo, hi, kind, target, NextVars(stabs, kind, v))
  {
    var m := Probe(stabs, kind, v.l, v.r);
    if m < v.l || stabs[m].value < v.addr {
      RoundRight(stabs, lo, hi, kind, target, v);
    } else if stabs[m].value > v.addr {
      RoundLeft(stabs, lo, hi, kind, target, v);
    } else {
      RoundMatch(stabs, lo, hi, kind, target, v);
    }
  }

  lemma {:induction false} SearchKeeps(stabs: seq<Stab>, lo: nat, hi: int, kind: int, target: nat, v: Vars)
    requires hi < |stabs| && Searching(stabs, lo, hi, kind, target, v) && Increasing(stabs, lo, hi, kind)
    ensures Searching(stabs, lo, hi, kind, target, SearchFrom(stabs, kind, v))
    decreases Rank(stabs, kind, v.addr, v.l, v.r)
  {
    if v.l <= v.r {
      RoundKeeps(stabs, lo, hi, kind, target, v);
      SearchKeeps(stabs, lo, hi, kind, target, NextVars(stabs, kind, v));
    }
  }

  /** A search that ends with all that known is right. */
  lemma SearchedIsRight(stabs: seq<Stab>, lo: nat, hi: int, kind: int, target: nat, v: Vars)
    requires lo <= hi < |stabs| && Searching(stabs, lo, hi, kind, target, v) && v.l > v.r
    requires Increasing(stabs, lo, hi, kind)
    requires !NoneOf(stabs, lo, hi, kind)
    ensures v.left >= lo && Right(stabs, lo, hi, kind, target, Settle(stabs, v.left, v.r, kind), v.r)
  {}

  // ---- when it is wrong ----

  lemma FirstProbeHere(stabs: seq<Stab>, kind: int, addr: int, l: nat, r: int)
    requires l <= r < |stabs|
    ensures var m := Probe(stabs, kind, l, r);
      m >= l && addr <= stabs[m].value <= addr + 1 ==> FirstProbe(stabs, kind, addr, l, r) == m
  {}

  /** addr occurs at `at`, and the search will match it with `far` (at itself, or addr + 1) still in range. */
  ghost predicate Bound(stabs: seq<Stab>, kind: int, addr: Addr, l: nat, r: int, at: int, far: int)
    requires l - 1 <= r < |stabs|
  {
    && Hit(stabs, l, r, kind, addr, at)
    && (far == at || (Hit(stabs, l, r, kind, addr + 1, far) && FirstProbe(stabs, kind, addr, l, r) == at))
  }

  lemma BoundRight(stabs: seq<Stab>, lo: nat, hi: int, kind: int, addr: Addr, l: nat, r: int, at: int, far: int)
    requires lo <= l <= r <= hi < |stabs| && Increasing(stabs, lo, hi, kind) && Bound(stabs, kind, addr, l, r, at, far)
    requires var m := Probe(stabs, kind, l, r); m < l || stabs[m].value < addr
    ensures Bound(stabs, kind, addr, Mid(l, r) + 1, r, at, far)
  {
    FirstProbeRight(stabs, kind, addr, l, r);
    RightOf(stabs, lo, hi, kind, addr, l, r, at);
    if far != at { RightOf(stabs, lo, hi, kind, addr + 1, l, r, far); }
  }

  lemma BoundLeft(stabs: seq<Stab>, lo: nat, hi: int, kind: int, addr: Addr, l: nat, r: int, at: int, far: int)
    requires lo <= l <= r <= hi < |stabs| && Increasing(stabs, lo, hi, kind) && Bound(stabs, kind, addr, l, r, at, far)
    requires var m := Probe(stabs, kind, l, r); m >= l && stabs[m].value > addr
    ensures Bound(stabs, kind, addr, l, Probe(stabs, kind, l, r) - 1, at, far)
  {
    LeftOf(stabs, lo, hi, kind, addr, l, r, at);
    if far != at {
      FirstProbeHere(stabs, kind, addr, l, r);
      FirstProbeLeft(stabs, kind, addr, l, r);
      LeftOf(stabs, lo, hi, kind, addr + 1, l, r, far);
    }
  }

  lemma NextRight(stabs: seq<Stab>, kind: int, v: Vars)
    requires InRange(stabs, v) && v.l <= v.r
    requires var m := Probe(stabs, kind, v.l, v.r); m < v.l || stabs[m].value < v.addr
    ensures var w := NextVars(stabs, kind, v); w.addr == v.addr && w.l == Mid(v.l, v.r) + 1 && w.r == v.r
  {}

  lemma NextLeft(stabs: seq<Stab>, kind: int, v: Vars)
    requires InRange(stabs, v) && v.l <= v.r
    requires var m := Probe(stabs, kind, v.l, v.r); m >= v.l && stabs[m].value > v.addr
    ensures NextVars(stabs, kind, v) == v.(r := Probe(stabs, kind, v.l, v.r) - 1)
  {}

  /** Of entries of one type in increasing order, only one has a value. */
  lemma OnlyOne(stabs: seq<Stab>, lo: nat, hi: int, kind: int, l: nat, r: int, addr: int, at: int, m: int)
    requires hi < |stabs| && Increasing(stabs, lo, hi, kind) && lo <= l && r <= hi
    requires Hit(stabs, l, r, kind, addr, at) && l <= m <= r && stabs[m].kind == kind && stabs[m].value == addr
    ensures m == at
  {}

  lemma BoundGoesRight(stabs: seq<Stab>, lo: nat, hi: int, kind: int, v: Vars, at: int, far: int)
    requires InRange(stabs, v) && lo <= v.l <= v.r <= hi < |stabs| && Increasing(stabs, lo, hi, kind)
    requires Bound(stabs, kind, v.addr, v.l, v.r, at, far)
    requires var m := Probe(stabs, kind, v.l, v.r); m < v.l || stabs[m].value < v.addr
    ensures var w := NextVars(stabs, kind, v); w.addr == v.addr && Bound(stabs, kind, w.addr, w.l, w.r, at, far)
  {
    NextRight(stabs, kind, v);
    BoundRight(stabs, lo, hi, kind, v.addr, v.l, v.r, at, far);
  }

  lemma BoundGoesLeft(stabs: seq<Stab>, lo: nat, hi: int, kind: int, v: Vars, at: int, far: int)
    requires InRange(stabs, v) && lo <= v.l <= v.r <= hi < |stabs| && Increasing(stabs, lo, hi, kind)
    requires Bound(stabs, kind, v.addr, v.l, v.r, at, far)
    requires var m := Probe(stabs, kind, v.l, v.r); m >= v.l && stabs[m].value > v.addr
    ensures var w := NextVars(stabs, kind, v); w.addr == v.addr && Bound(stabs, kind, w.addr, w.l, w.r, at, far)
  {
    NextLeft(stabs, kind, v);
    BoundLeft(stabs, lo, hi, kind, v.addr, v.l, v.r, at, far);
  }

  lemma BoundNext(stabs: seq<Stab>, lo: nat, hi: int, kind: int, v: Vars, at: int, far: int)
    requires InRange(stabs, v) && lo <= v.l <= v.r <= hi < |stabs| && Increasing(stabs, lo, hi, kind)
    requires Bound(stabs, kind, v.addr, v.l, v.r, at, far)
    requires var m := Probe(stabs, kind, v.l, v.r); m < v.l || stabs[m].value != v.addr
    ensures var w := NextVars(stabs, kind, v); w.addr == v.addr && Bound(stabs, kind, w.addr, w.l, w.r, at, far)
  {
    var m := Probe(stabs, kind, v.l, v.r);
    if m < v.l || stabs[m].value < v.addr {
      BoundGoesRight(stabs, lo, hi, kind, v, at, far);
    } else {
      BoundGoesLeft(stabs, lo, hi, kind, v, at, far);
    }
  }

  /** The match happens, with `far` still in range. */
  lemma {:induction false} Matched(stabs: seq<Stab>, lo: nat, hi: int, kind: int, v: Vars, at: int, far: int)
    returns (r: int)
    requires InRange(stabs, v) && lo <= v.l && v.r <= hi < |stabs| && Increasing(stabs, lo, hi, kind)
    requires Bound(stabs, kind, v.addr, v.l, v.r, at, far)
    ensures at <= far <= r <= v.r
    ensures SearchFrom(stabs, kind, v) == SearchFrom(stabs, kind, Vars(Inc32(v.addr), at, at, r))
    decreases Rank(stabs, kind, v.addr, v.l, v.r)
  {
    var m := Probe(stabs, kind, v.l, v.r);
    if m >= v.l && stabs[m].value == v.addr {
      OnlyOne(stabs, lo, hi, kind, v.l, v.r, v.addr, at, m);
      r := v.r;
      assert NextVars(stabs, kind, v) == Vars(Inc32(v.addr), at, at, r);
    } else {
      BoundNext(stabs, lo, hi, kind, v, at, far);
      r := Matched(stabs, lo, hi, kind, NextVars(stabs, kind, v), at, far);
    }
  }

  /** Once addr has wrapped to 0, the largest entry is taken to lie above it. */
  lemma Wrapped(stabs: seq<Stab>, kind: int, at: nat, r: int)
    requires at <= r < |stabs| && stabs[at] == Stab(kind, WORD - 1) && NoneOf(stabs, at + 1, r, kind)
    ensures SearchFrom(stabs, kind, Vars(0, at, at, r)) == Vars(0, at, at, at - 1)
  {
    assert Probe(stabs, kind, at, r) == at;
    assert NextVars(stabs, kind, Vars(0, at, at, r)) == Vars(0, at, at, at - 1);
  }

  lemma NothingAbove(stabs: seq<Stab>, lo: nat, hi: int, kind: int, at: nat)
    requires lo <= at <= hi < |stabs| && Increasing(stabs, lo, hi, kind)
    requires stabs[at].kind == kind && stabs[at].value == WORD - 1
    ensures NoneOf(stabs, at + 1, hi, kind)
  {}

  /** What a round leaves when entry c is below addr and passed: c stays passed, or the next match wraps. */
  lemma BeyondNext(stabs: seq<Stab>, kind: int, v: Vars, c: nat)
    requires InRange(stabs, v) && v.l <= v.r && c < |stabs| && stabs[c].kind == kind && stabs[c].value < v.addr
    requires c <= v.l && c <= v.left
    ensures var w := NextVars(stabs, kind, v);
      && c <= w.l && c <= w.left && (c < w.l || c <= w.r)
      && (w.addr == v.addr || (w.addr == Inc32(v.addr) && c < w.l == w.left && stabs[w.l] == Stab(kind, v.addr)))
  {
    var m := Probe(stabs, kind, v.l, v.r);
    assert m == c ==> stabs[m].value < v.addr;
  }

  /** Past an entry c that addr has overtaken, the search never comes back before it. */
  lemma {:induction false} Beyond(stabs: seq<Stab>, lo: nat, hi: int, kind: int, v: Vars, c: nat)
    requires InRange(stabs, v) && lo <= v.l && v.r <= hi < |stabs| && Increasing(stabs, lo, hi, kind)
    requires c <= v.l && c <= v.left && c <= v.r && stabs[c].kind == kind && stabs[c].value < v.addr
    ensures var w := SearchFrom(stabs, kind, v); c <= w.left && c <= w.r
    decreases Rank(stabs, kind, v.addr, v.l, v.r)
  {
    if v.l <= v.r {
      BeyondNext(stabs, kind, v, c);
      var w := NextVars(stabs, kind, v);
      if w.addr != v.addr && w.addr == 0 {
        NothingAbove(stabs, lo, hi, kind, w.l);
        Wrapped(stabs, kind, w.l, w.r);
      } else {
        Beyond(stabs, lo, hi, kind, w, c);
      }
    }
  }

  /** What is returned when the main loop ends with v is right. */
  ghost predicate Judged(stabs: seq<Stab>, lo: nat, hi: int, kind: int, target: Addr, v: Vars)
    requires hi < |stabs| && v.r < |stabs|
  {
    v.left >= lo && Right(stabs, lo, hi, kind, target, Settle(stabs, v.left, v.r, kind), v.r)
  }

  /** The outcome of the search is right. */
  ghost predicate SearchRight(stabs: seq<Stab>, lo: nat, hi: int, kind: int, target: Addr)
    requires lo <= hi < |stabs|
  {
    Judged(stabs, lo, hi, kind, target, SearchFrom(stabs, kind, Vars(target, lo, lo, hi)))
  }

  /** addr and addr + 1 are neighbours, the latter the last address of all: then two wrongs make a right. */
  ghost predicate Lucky(stabs: seq<Stab>, kind: int, addr: int, l: nat, r: int)
    requires l - 1 <= r < |stabs|
  {
    addr + 2 == WORD && exists i :: Hit(stabs, l, r, kind, addr, i) && i < r && stabs[i + 1] == Stab(kind, WORD - 1)
  }

  lemma NotAllAbove(stabs: seq<Stab>, lo: nat, hi: int, kind: int, addr: nat, at: int, left: int, right: int)
    requires hi < |stabs| && Increasing(stabs, lo, hi, kind) && lo <= at && Hit(stabs, lo, hi, kind, addr, at)
    ensures !AllAbove(stabs, lo, hi, kind, addr, left, right)
  {}

  /** Looking up the last address of all, when it is there, misses it. */
  lemma LastAddressMissed(stabs: seq<Stab>, lo: nat, hi: int, kind: int, at: int)
    requires lo <= hi < |stabs| && Increasing(stabs, lo, hi, kind) && Hit(stabs, lo, hi, kind, WORD - 1, at)
    ensures !SearchRight(stabs, lo, hi, kind, WORD - 1)
  {
    var r := Matched(stabs, lo, hi, kind, Vars(WORD - 1, lo, lo, hi), at, at);
    NothingAbove(stabs, lo, hi, kind, at);
    Wrapped(stabs, kind, at, r);
    NotAllAbove(stabs, lo, hi, kind, WORD - 1, at, at - 1, at - 1);
  }

  /** Coming upon addr before addr + 1, the search ends on or after addr + 1, or wraps there. */
  lemma Overtaken(stabs: seq<Stab>, lo: nat, hi: int, kind: int, target: Addr, at: int, next: int) returns (v: Vars)
    requires lo <= hi < |stabs| && Increasing(stabs, lo, hi, kind) && target + 1 < WORD
    requires Hit(stabs, lo, hi, kind, target, at) && Hit(stabs, lo, hi, kind, target + 1, next)
    requires FirstProbe(stabs, kind, target, lo, hi) == at
    ensures v == SearchFrom(stabs, kind, Vars(target, lo, lo, hi)) && next <= v.left
    ensures if target + 2 == WORD then v.r == next - 1 else next <= v.r
  {
    var r := Matched(stabs, lo, hi, kind, Vars(target, lo, lo, hi), at, next);
    var r' := Matched(stabs, lo, hi, kind, Vars(target + 1, at, at, r), next, next);
    v := SearchFrom(stabs, kind, Vars(Inc32(target + 1), next, next, r'));
    if target + 2 == WORD {
      NothingAbove(stabs, lo, hi, kind, next);
      Wrapped(stabs, kind, next, r');
    } else {
      Beyond(stabs, lo, hi, kind, Vars(target + 2, next, next, r'), next);
    }
  }

  /** An outcome at or past the next entry is wrong. */
  lemma PastNext(stabs: seq<Stab>, lo: nat, hi: int, kind: int, addr: nat, at: int, next: int, left: int, right: int)
    requires hi < |stabs| && Increasing(stabs, lo, hi, kind) && next <= left
    requires Hit(stabs, lo, hi, kind, addr, at) && Hit(stabs, lo, hi, kind, addr + 1, next)
    ensures !Right(stabs, lo, hi, kind, addr, left, right)
  {
    NotAllAbove(stabs, lo, hi, kind, addr, at, left, right);
  }

  /** The outcome just before the next entry is right just when that is the entry looked for. */
  lemma BeforeNext(stabs: seq<Stab>, lo: nat, hi: int, kind: int, addr: nat, at: int, next: int)
    requires hi < |stabs| && Increasing(stabs, lo, hi, kind)
    requires Hit(stabs, lo, hi, kind, addr, at) && Hit(stabs, lo, hi, kind, addr + 1, next)
    ensures Right(stabs, lo, hi, kind, addr, next - 1, next - 1) <==> next == at + 1
  {
    NotAllAbove(stabs, lo, hi, kind, addr, at, next - 1, next - 1);
    assert stabs[at].value < stabs[next].value;
  }

  lemma JudgedNext(stabs: seq<Stab>, lo: nat, hi: int, kind: int, target: Addr, at: int, next: int, v: Vars)
    requires lo <= hi < |stabs| && Increasing(stabs, lo, hi, kind) && v.r < |stabs|
    requires Hit(stabs, lo, hi, kind, target, at) && Hit(stabs, lo, hi, kind, target + 1, next)
    requires next <= v.left && if target + 2 == WORD then v.r == next - 1 else next <= v.r
    ensures Judged(stabs, lo, hi, kind, target, v) <==> target + 2 == WORD && next == at + 1
  {
    if target + 2 == WORD {
      BeforeNext(stabs, lo, hi, kind, target, at, next);
    } else {
      PastNext(stabs, lo, hi, kind, target, at, next, Settle(stabs, v.left, v.r, kind), v.r);
    }
  }

  /** Then the outcome is right just when addr and the last address are neighbours. */
  lemma OvertakenIsWrong(stabs: seq<Stab>, lo: nat, hi: int, kind: int, target: Addr, at: int, next: int)
    requires lo <= hi < |stabs| && Increasing(stabs, lo, hi, kind) && target + 1 < WORD
    requires Hit(stabs, lo, hi, kind, target, at) && Hit(stabs, lo, hi, kind, target + 1, next)
    requires FirstProbe(stabs, kind, target, lo, hi) == at
    ensures SearchRight(stabs, lo, hi, kind, target) <==> target + 2 == WORD && next == at + 1
  {
    var v := Overtaken(stabs, lo, hi, kind, target, at, next);
    JudgedNext(stabs, lo, hi, kind, target, at, next, v);
  }

  lemma SureIsRight(stabs: seq<Stab>, lo: nat, hi: int, kind: int, target: Addr)
    requires lo <= hi < |stabs| && Increasing(stabs, lo, hi, kind) && !NoneOf(stabs, lo, hi, kind)
    requires Sure(stabs, kind, target, lo, hi)
    ensures SearchRight(stabs, lo, hi, kind, target)
  {
    var v := Vars(target, lo, lo, hi);
    SearchKeeps(stabs, lo, hi, kind, target, v);
    SearchedIsRight(stabs, lo, hi, kind, target, SearchFrom(stabs, kind, v));
  }

  lemma UnsureIsWrong(stabs: seq<Stab>, lo: nat, hi: int, kind: int, target: Addr)
    requires lo <= hi < |stabs| && Increasing(stabs, lo, hi, kind) && !Sure(stabs, kind, target, lo, hi)
    ensures SearchRight(stabs, lo, hi, kind, target) <==> Lucky(stabs, kind, target, lo, hi)
  {
    var at :| Hit(stabs, lo, hi, kind, target, at);
    if target + 1 == WORD {
      LastAddressMissed(stabs, lo, hi, kind, at);
    } else {
      var after := target + 1;
      var next :| Hit(stabs, lo, hi, kind, after, next);
      OnlyOne(stabs, lo, hi, kind, lo, hi, target, at, FirstProbe(stabs, kind, target, lo, hi));
      OvertakenIsWrong(stabs, lo, hi, kind, target, at, next);
    }
  }

  /** Exactly when stab_binsearch is right, over a region that holds the type in increasing order. */
  lemma RightExactly(stabs: seq<Stab>, lo: nat, hi: int, kind: int, target: Addr)
    requires lo <= hi < |stabs| && Increasing(stabs, lo, hi, kind) && !NoneOf(stabs, lo, hi, kind)
    ensures SearchRight(stabs, lo, hi, kind, target) <==>
      Sure(stabs, kind, target, lo, hi) || Lucky(stabs, kind, target, lo, hi)
  {
    if Sure(stabs, kind, target, lo, hi) {
      SureIsRight(stabs, lo, hi, kind, target);
    } else {
      UnsureIsWrong(stabs, lo, hi, kind, target);
    }
  }

  // ---- the code ----

  /** The backward scan. */
  method LastOfKind(stabs: seq<Stab>, l: nat, from: int, kind: int) returns (m: int)
    requires l - 1 <= from < |stabs|
    ensures m == Last(stabs, l, from, kind)
  {
    m := from;
    while m >= l && stabs[m].kind != kind
      invariant l - 1 <= m <= from
      invariant Last(stabs, l, m, kind) == Last(stabs, l, from, kind)
    {
      m := m - 1;
    }
  }

  /** The body of the main loop. */
  method SearchRound(stabs: seq<Stab>, kind: int, v: Vars) returns (m: int, w: Vars)
    requires InRange(stabs, v) && v.l <= v.r
    ensures m == Probe(stabs, kind, v.l, v.r) && w == NextVars(stabs, kind, v)
  {
    var trueM := (v.l + v.r) / 2;
    MidIs(v.l, v.r);
    m := LastOfKind(stabs, v.l, trueM, kind);
    w := Round(stabs, v, m, trueM);
  }

  /** A round that finds nothing of the type only moves l, past entries of other types. */
  lemma RoundLooks(stabs: seq<Stab>, kind: int, v: Vars)
    requires InRange(stabs, v) && v.l <= v.r
    ensures var w, m := NextVars(stabs, kind, v), Probe(stabs, kind, v.l, v.r);
      if m < v.l then w == v.(l := w.l) && NoneOf(stabs, v.l, w.l - 1, kind)
      else w.left == v.left || w.left == m
  {}

  /** The main loop. */
  method Search(stabs: seq<Stab>, regionLeft: nat, regionRight: int, kind: int, target: Addr)
    returns (v: Vars, anyMatches: bool)
    requires regionRight < |stabs|
    ensures regionLeft <= regionRight ==>
      v == SearchFrom(stabs, kind, Vars(target, regionLeft, regionLeft, regionRight))
    ensures regionLeft <= v.left && v.r <= regionRight
    ensures anyMatches <==> !NoneOf(stabs, regionLeft, regionRight, kind)
    ensures !anyMatches ==> v.left == regionLeft
  {
    v, anyMatches := Vars(target, regionLeft, regionLeft, regionRight), false;
    if regionRight < regionLeft {
      return;
    }
    ghost var start := v;
    while v.l <= v.r
      invariant InRange(stabs, v) && regionLeft <= v.l && regionLeft <= v.left && v.r <= regionRight
      invariant SearchFrom(stabs, kind, v) == SearchFrom(stabs, kind, start)
      invariant !anyMatches ==> v.left == regionLeft && v.r == regionRight && NoneOf(stabs, regionLeft, v.l - 1, kind)
      invariant anyMatches ==> !NoneOf(stabs, regionLeft, regionRight, kind)
      decreases Rank(stabs, kind, v.addr, v.l, v.r)
    {
      var m, w := SearchRound(stabs, kind, v);
      RoundLooks(stabs, kind, v);
      anyMatches, v := anyMatches || m >= v.l, w;
    }
  }

  /**
   stab_binsearch.  Over a region whose entries of the type increase, and which has
   one, the result is right exactly when the `addr++` does no harm, or twice.
   */
  method StabBinsearch(stabs: seq<Stab>, regionLeft: nat, regionRight: int, kind: int, target: Addr)
    returns (left: int, right: int)
    requires regionRight < |stabs|
    ensures NoneOf(stabs, regionLeft, regionRight, kind) ==> left == regionLeft && right == regionLeft - 1
    ensures Increasing(stabs, regionLeft, regionRight, kind) && !NoneOf(stabs, regionLeft, regionRight, kind) ==>
      (Right(stabs, regionLeft, regionRight, kind, target, left, right) <==>
       (Sure(stabs, kind, target, regionLeft, regionRight) || Lucky(stabs, kind, target, regionLeft, regionRight)))
  {
    var v, anyMatches := Search(stabs, regionLeft, regionRight, kind, target);
    if !anyMatches {
      return v.left, v.left - 1;
    }
    var l := v.r;
    while l > v.left && stabs[l].kind != kind
      invariant l <= v.r && Settle(stabs, v.left, l, kind) == Settle(stabs, v.left, v.r, kind)
    {
      l := l - 1;
    }
    left, right := l, v.r;
    if Increasing(stabs, regionLeft, regionRight, kind) {
      RightExactly(stabs, regionLeft, regionRight, kind, target);
    }
  }

  /** The two outcomes exclude each other and say whether anything of the type is at or below addr. */
  lemma OutcomesDecide(stabs: seq<Stab>, lo: nat, hi: int, kind: int, addr: nat, left: int, right: int)
    requires hi < |stabs| && Increasing(stabs, lo, hi, kind)
    ensures Brackets(stabs, lo, hi, kind, addr, left, right) ==>
      forall i :: lo <= i <= hi && stabs[i].kind == kind ==> (i <= left <==> stabs[i].value <= addr)
    ensures AllAbove(stabs, lo, hi, kind, addr, left, right) ==>
      forall i :: lo <= i <= hi && stabs[i].kind == kind ==> stabs[i].value > addr
  {}

  /** A region that does not hold both addr and addr + 1, nor the last address, is safe for every search order. */
  lemma SpacedIsSure(stabs: seq<Stab>, kind: int, addr: int, l: nat, r: int)
    requires l - 1 <= r < |stabs| && addr + 1 < WORD
    requires Occurs(stabs, l, r, kind, addr) ==> !Occurs(stabs, l, r, kind, addr + 1)
    ensures Sure(stabs, kind, addr, l, r)
  {}

  /** The smallest failure: looking up 5 among 5 and 6 comes upon 5 first and ends on 6. */
  lemma AdjacentValuesMislead()
    ensures var stabs := [Stab(0, 5), Stab(0, 6)];
      Increasing(stabs, 0, 1, 0) && FirstProbe(stabs, 0, 5, 0, 1) == 0 && !SearchRight(stabs, 0, 1, 0, 5)
  {
    var stabs := [Stab(0, 5), Stab(0, 6)];
    MidIs(0, 1);
    assert Hit(stabs, 0, 1, 0, 5, 0) && Hit(stabs, 0, 1, 0, 6, 1);
    assert Probe(stabs, 0, 0, 1) == 0;
    OvertakenIsWrong(stabs, 0, 1, 0, 5, 0, 1);
  }
}
