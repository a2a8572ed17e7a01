/**
 Delivery of a user page fault (kern/trap.c) and the return from it
 (lib/pfentry.S): the kernel pushes a UTrapframe on the exception stack, and the
 upcall unwinds it.  Memory is bytes, so that a stack pointer need not be aligned.
 */
module FaultFrames {
  const WORD := 0x1_0000_0000
  const UXSTACKTOP := 0xEEC0_0000
  const PGSIZE := 4096
  const FRAME := 52            // sizeof(struct UTrapframe)

  type byte = x: int | 0 <= x < 0x100

  type u32 = x: int | 0 <= x < 0x1_0000_0000

  type Mem = map<int, byte>

  function At(m: Mem, a: int): byte { if a in m then m[a] else 0 }

  /** The little-endian word at a. */
  function Little(m: Mem, a: int): u32 {
    At(m, a) + 0x100 * At(m, a + 1) + 0x1_0000 * At(m, a + 2) + 0x100_0000 * At(m, a + 3)
  }

  // The same word under a name that proofs see through only after `assert Bytes(4)`.
  predicate Bytes(n: nat) { true }

  predicate LoadsTo(m: Mem, a: int, w: u32) { forall n: nat {:trigger Bytes(n)} :: n == 4 ==> w == Little(m, a) }

  function Load(m: Mem, a: int): u32 {
    assert Bytes(4) && LoadsTo(m, a, Little(m, a));
    var w: u32 :| LoadsTo(m, a, w);
    w
  }

  lemma LoadIs(m: Mem, a: int)
    ensures Load(m, a) == Little(m, a)
  {
    assert Bytes(4);
  }

  /** Words whose bytes are the same are the same. */
  lemma SameBytes(m: Mem, m': Mem, a: int)
    requires At(m', a) == At(m, a) && At(m', a + 1) == At(m, a + 1) && At(m', a + 2) == At(m, a + 2)
      && At(m', a + 3) == At(m, a + 3)
    ensures Load(m', a) == Load(m, a)
  {
    LoadIs(m, a);
    LoadIs(m', a);
  }

  function PutBytes(m: Mem, a: int, w: u32): Mem {
    m[a := w % 0x100][a + 1 := w / 0x100 % 0x100][a + 2 := w / 0x1_0000 % 0x100][a + 3 := w / 0x100_0000]
  }

  lemma FourBytes(w: u32)
    ensures w == w % 0x100 + 0x100 * (w / 0x100 % 0x100) + 0x1_0000 * (w / 0x1_0000 % 0x100)
                 + 0x100_0000 * (w / 0x100_0000)
    ensures w / 0x100_0000 < 0x100
  {
    assert w / 0x100 / 0x100 == w / 0x1_0000 && w / 0x1_0000 / 0x100 == w / 0x100_0000;
  }

  function Put(m: Mem, a: int, w: u32): (r: Mem)
    ensures Load(r, a) == w
    ensures forall b: int :: b + 4 <= a || a + 4 <= b ==> Load(r, b) == Load(m, b)
    ensures forall b: int :: b < a || a + 4 <= b ==> At(r, b) == At(m, b)
  {
    FourBytes(w);
    var r := PutBytes(m, a, w);
    LoadIs(r, a);
    assert forall b: int :: b + 4 <= a || a + 4 <= b ==> Load(r, b) == Load(m, b) by {
      forall b: int | b + 4 <= a || a + 4 <= b ensures Load(r, b) == Load(m, b) { SameBytes(m, r, b); }
    }
    r
  }

  /** Words written one after the other. */
  function PutAll(m: Mem, a: int, ws: seq<u32>): (r: Mem)
    ensures forall b: int :: b + 4 <= a || a + 4 * |ws| <= b ==> Load(r, b) == Load(m, b)
    ensures forall b: int :: b < a || a + 4 * |ws| <= b ==> At(r, b) == At(m, b)
    decreases |ws|
  {
    if ws == [] then m else PutAll(Put(m, a, ws[0]), a + 4, ws[1..])
  }

  lemma {:induction false} LoadPutAll(m: Mem, a: int, ws: seq<u32>, i: nat)
    requires i < |ws|
    ensures Load(PutAll(m, a, ws), a + 4 * i) == ws[i]
    decreases |ws|
  {
    if i > 0 { LoadPutAll(Put(m, a, ws[0]), a + 4, ws[1..], i - 1); }
  }

  /** The registers a user instruction can see. */
  datatype Cpu = Cpu(edi: u32, esi: u32, ebp: u32, ebx: u32, edx: u32, ecx: u32, eax: u32,
                     eip: u32, eflags: u32, esp: u32)

  // ---- kern/trap.c: page_fault_handler ----

  predicate OnExceptionStack(esp: u32) { UXSTACKTOP - PGSIZE <= esp < UXSTACKTOP }

  /** Where the frame goes: below the interrupted exception stack with a blank word between, or at the top. */
  function FrameBase(esp: u32): u32 {
    if OnExceptionStack(esp) then esp - (FRAME + 4) else UXSTACKTOP - FRAME
  }

  /** A struct UTrapframe; oesp is the unused slot of PushRegs. */
  function Words(c: Cpu, va: u32, err: u32, oesp: u32): seq<u32> {
    [va, err, c.edi, c.esi, c.ebp, oesp, c.ebx, c.edx, c.ecx, c.eax, c.eip, c.eflags, c.esp]
  }

  function Pushed(m: Mem, c: Cpu, va: u32, err: u32, oesp: u32): Mem {
    PutAll(m, FrameBase(c.esp), Words(c, va, err, oesp))
  }

  /** The interrupted state a frame at `base` records. */
  function Recorded(m: Mem, base: int): Cpu {
    Cpu(Load(m, base + 8), Load(m, base + 12), Load(m, base + 16), Load(m, base + 24), Load(m, base + 28),
        Load(m, base + 32), Load(m, base + 36), Load(m, base + 40), Load(m, base + 44), Load(m, base + 48))
  }

  /** What the frame at `base` tells the user handler: utf_fault_va and utf_err. */
  predicate Tells(m: Mem, base: int, va: u32, err: u32) { Load(m, base) == va && Load(m, base + 4) == err }

  /** The frame the kernel pushes records the fault and the interrupted state, and only its bytes change. */
  lemma PushRecords(m: Mem, c: Cpu, va: u32, err: u32, oesp: u32)
    ensures Recorded(Pushed(m, c, va, err, oesp), FrameBase(c.esp)) == c
    ensures Tells(Pushed(m, c, va, err, oesp), FrameBase(c.esp), va, err)
    ensures forall a: int :: a < FrameBase(c.esp) || FrameBase(c.esp) + FRAME <= a ==>
      At(Pushed(m, c, va, err, oesp), a) == At(m, a)
  {
    var b, ws := FrameBase(c.esp), Words(c, va, err, oesp);
    LoadPutAll(m, b, ws, 0);
    LoadPutAll(m, b, ws, 1);
    LoadPutAll(m, b, ws, 2);
    LoadPutAll(m, b, ws, 3);
    LoadPutAll(m, b, ws, 4);
    LoadPutAll(m, b, ws, 6);
    LoadPutAll(m, b, ws, 7);
    LoadPutAll(m, b, ws, 8);
    LoadPutAll(m, b, ws, 9);
    LoadPutAll(m, b, ws, 10);
    LoadPutAll(m, b, ws, 11);
    LoadPutAll(m, b, ws, 12);
  }

  /**
   page_fault_handler from the point where the frame is built: memory and the stack pointer the upcall starts with.
   */
  method PageFaultHandler(m: Mem, c: Cpu, va: u32, err: u32, oesp: u32) returns (esp: u32, m': Mem)
    ensures esp == FrameBase(c.esp) && m' == Pushed(m, c, va, err, oesp) && Recorded(m', esp) == c
    ensures Load(m', esp) == va && Load(m', esp + 4) == err
    ensures esp + FRAME == if OnExceptionStack(c.esp) then c.esp - 4 else UXSTACKTOP
    ensures forall a: int :: a < esp || esp + FRAME <= a ==> At(m', a) == At(m, a)
  {
    if c.esp >= UXSTACKTOP - PGSIZE && c.esp < UXSTACKTOP {
      esp := c.esp - (FRAME + 4);
    } else {
      esp := UXSTACKTOP - FRAME;
    }
    PushRecords(m, c, va, err, oesp);
    m' := PutAll(m, esp, Words(c, va, err, oesp));
  }

  // ---- lib/pfentry.S: the return path ----

  /** 32-bit addition of a small constant. */
  function Add(x: u32, k: int): u32
    requires -64 <= k <= 64
  {
    if x + k < 0 then x + k + WORD else if x + k >= WORD then x + k - WORD else x + k
  }

  /** popl into a register is a load here and a step of %esp; pushl is the step and a store. */
  function Pop(c: Cpu): Cpu { c.(esp := Add(c.esp, 4)) }

  /** From `addl $8, %esp` to `movl %eax, %esp`: the trap-time eip goes on the trap-time stack. */
  function PlantEip(c0: Cpu, m0: Mem): (Cpu, Mem) {
    var c1 := c0.(esp := Add(c0.esp, 8));                          // addl $8, %esp
    var c2 := c1.(eax := c1.esp);                                  // movl %esp, %eax
    var c3 := c2.(esp := Add(c2.esp, 32));                         // addl $32, %esp
    var c4 := Pop(c3.(ebx := Load(m0, c3.esp)));                   // popl %ebx
    var c5 := c4.(esp := Add(c4.esp, 4));                          // addl $4, %esp
    var c6 := Pop(c5.(ecx := Load(m0, c5.esp)));                   // popl %ecx
    var c7 := c6.(ecx := Add(c6.ecx, -4));                         // subl $4, %ecx
    var c8 := c7.(esp := Add(c7.esp, -4));                         // pushl %ecx
    var m8 := Put(m0, c8.esp, c8.ecx);
    var c9 := c8.(esp := Load(m8, c8.esp));                        // popl %esp
    var c10 := c9.(esp := Add(c9.esp, 4));                         // addl $4, %esp
    var c11 := c10.(esp := Add(c10.esp, -4));                      // pushl %ebx
    var m11 := Put(m8, c11.esp, c11.ebx);
    (c11.(esp := c11.eax), m11)                                    // movl %eax, %esp
  }

  /** From popal to ret: the registers come back from the frame. */
  function PopFrame(c0: Cpu, m: Mem): Cpu {
    var p := c0.esp;                                               // popal
    var c1 := Cpu(Load(m, p), Load(m, Add(p, 4)), Load(m, Add(p, 8)), Load(m, Add(p, 16)), Load(m, Add(p, 20)),
                  Load(m, Add(p, 24)), Load(m, Add(p, 28)), c0.eip, c0.eflags, Add(p, 32));
    var c2 := c1.(esp := Add(c1.esp, 4));                          // addl $4, %esp
    var c3 := Pop(c2.(eflags := Load(m, c2.esp)));                 // popfl
    var c4 := c3.(esp := Load(m, c3.esp));                         // popl %esp
    Pop(c4.(eip := Load(m, c4.esp)))                               // ret
  }

  function Upcall(c0: Cpu, m0: Mem): (Cpu, Mem) {
    var (c, m) := PlantEip(c0, m0);
    (PopFrame(c, m), m)
  }

  // The instructions, too, are opened on demand only, by `assert Instructions(0)`.
  predicate Instructions(n: nat) { true }

  predicate UnwindsTo(c0: Cpu, m0: Mem, r: (Cpu, Mem)) {
    forall n: nat {:trigger Instructions(n)} :: n == 0 ==> r == Upcall(c0, m0)
  }

  /**
   _pgfault_upcall after the C handler has returned, instruction by instruction:
   entered with %esp at the frame and every other register arbitrary.
   */
  function Unwind(c0: Cpu, m0: Mem): (Cpu, Mem) {
    assert Instructions(0) && UnwindsTo(c0, m0, Upcall(c0, m0));
    var r :| UnwindsTo(c0, m0, r);
    r
  }

  /**
   The trap-time eip is left in the word below the interrupted stack, and the frame's own esp slot has dropped by 4.
   */
  function Unwound(m: Mem, base: int): Mem {
    var esp := Add(Load(m, base + 48), -4);
    Put(Put(m, base + 48, esp), esp, Load(m, base + 40))
  }

  /** A frame that does not run past the end of the address space. */
  predicate Room(base: u32) { base + FRAME + 4 <= WORD }

  lemma PlantEipIs(c0: Cpu, m0: Mem)
    requires Room(c0.esp)
    ensures PlantEip(c0, m0).0.esp == c0.esp + 8 && PlantEip(c0, m0).1 == Unwound(m0, c0.esp)
  {}

  lemma PopFrameIs(c0: Cpu, m: Mem, base: u32)
    requires Room(base) && c0.esp == base + 8
    ensures PopFrame(c0, m) == Recorded(m, base).(esp := Add(Load(m, base + 48), 4), eip := Load(m, Load(m, base + 48)))
  {}

  /** What the instructions come to: registers from the frame, then eip through the esp found there. */
  lemma UnwindIs(c0: Cpu, m0: Mem)
    requires Room(c0.esp)
    ensures var m := Unwound(m0, c0.esp);
            var esp := Load(m, c0.esp + 48);
            Unwind(c0, m0) == (Recorded(m, c0.esp).(esp := Add(esp, 4), eip := Load(m, esp)), m)
  {
    assert Instructions(0);
    PlantEipIs(c0, m0);
    var c, m := PlantEip(c0, m0).0, PlantEip(c0, m0).1;
    assert Unwind(c0, m0) == (PopFrame(c, m), m);
    PopFrameIs(c, m, c0.esp);
  }

  /** The word below the interrupted stack is clear of the frame. */
  predicate ClearOf(base: u32, esp: u32) { Add(esp, -4) + 4 <= base || base + FRAME <= Add(esp, -4) }

  /** Planting the eip leaves the frame's registers alone unless the word it goes to overlaps them. */
  lemma PlantedFrame(m: Mem, base: u32)
    requires Room(base) && (ClearOf(base, Load(m, base + 48)) || base + FRAME <= Load(m, base + 48))
    ensures var below := Add(Load(m, base + 48), -4);
            Recorded(Unwound(m, base), base) == Recorded(m, base).(esp := Load(Unwound(m, base), base + 48))
            && Load(Unwound(m, base), below) == Load(m, base + 40)
            && (ClearOf(base, Load(m, base + 48)) ==> Load(Unwound(m, base), base + 48) == below)
  {
    var below := Add(Load(m, base + 48), -4);
    var m1 := Put(m, base + 48, below);
    assert Recorded(m1, base) == Recorded(m, base).(esp := below);
  }

  /** If that word is clear of the frame, the instructions restore exactly the state the frame records. */
  lemma UnwindRestores(c0: Cpu, m0: Mem)
    requires Room(c0.esp) && ClearOf(c0.esp, Load(m0, c0.esp + 48))
    ensures Unwind(c0, m0) == (Recorded(m0, c0.esp), Unwound(m0, c0.esp))
  {
    UnwindIs(c0, m0);
    PlantedFrame(m0, c0.esp);
  }

  // ---- one fault ----

  /** The blank word, or the word below the user stack, overlaps the frame exactly for a stack pointer at its top. */
  predicate AtTop(esp: u32) { UXSTACKTOP <= esp < UXSTACKTOP + 4 }

  lemma ClearExactlyBelowTop(esp: u32)
    ensures ClearOf(FrameBase(esp), esp) <==> !AtTop(esp)
  {}

  /**
   A stack pointer d bytes above the top: the eip planted below it overwrites the 4 - d
   upper bytes of the frame's esp slot, and this says that they stay what they were.
   */
  predicate Survives(esp: u32, eip: u32)
    requires AtTop(esp)
  {
    match esp - UXSTACKTOP
    case 0 => eip == esp - 4
    case 1 => eip % 0x100_0000 == (esp - 4) / 0x100
    case 2 => eip % 0x1_0000 == (esp - 4) / 0x1_0000
    case _ => eip % 0x100 == (esp - 4) / 0x100_0000
  }

  /** The low bytes of a word. */
  lemma LowBytes(w: u32)
    ensures w % 0x1_0000 == w % 0x100 + 0x100 * (w / 0x100 % 0x100)
    ensures w % 0x100_0000 == w % 0x1_0000 + 0x1_0000 * (w / 0x1_0000 % 0x100)
  {
    FourBytes(w);
    var top := w / 0x100_0000;
    var low := w % 0x100 + 0x100 * (w / 0x100 % 0x100);
    var mid := w / 0x1_0000 % 0x100;
    assert w == 0x1_0000 * (mid + 0x100 * top) + low;
    assert w == 0x100_0000 * top + (0x1_0000 * mid + low);
  }

  /** Two words written d bytes apart: the d low bytes of the first are left below the second. */
  lemma Overlap(m: Mem, a: int, v: u32, w: u32)
    ensures Load(Put(Put(m, a, v), a + 1, w), a) == v % 0x100 + 0x100 * (w % 0x100_0000)
    ensures Load(Put(Put(m, a, v), a + 2, w), a) == v % 0x1_0000 + 0x1_0000 * (w % 0x1_0000)
    ensures Load(Put(Put(m, a, v), a + 3, w), a) == v % 0x100_0000 + 0x100_0000 * (w % 0x100)
  {
    LowBytes(v);
    LowBytes(w);
    LoadIs(Put(Put(m, a, v), a + 1, w), a);
    LoadIs(Put(Put(m, a, v), a + 2, w), a);
    LoadIs(Put(Put(m, a, v), a + 3, w), a);
  }

  lemma OverlapExactly(m: Mem, esp: u32, eip: u32)
    requires AtTop(esp)
    ensures Load(Put(Put(m, UXSTACKTOP - 4, esp - 4), esp - 4, eip), UXSTACKTOP - 4) == esp - 4 <==> Survives(esp, eip)
  {
    Overlap(m, UXSTACKTOP - 4, esp - 4, eip);
    assert esp == UXSTACKTOP || esp == UXSTACKTOP + 1 || esp == UXSTACKTOP + 2 || esp == UXSTACKTOP + 3;
  }

  /**
   Push, then unwind with nothing in between, from any stack pointer: the state comes
   back exactly unless the stack pointer is at the top of the exception stack, where the
   eip is written into the frame's own esp slot (and is harmless only if it fits there).
   */
  method RoundTrip(m0: Mem, c: Cpu, va: u32, err: u32, oesp: u32, scratch: Cpu) returns (r: Cpu, m: Mem)
    ensures r == c <==> !AtTop(c.esp) || Survives(c.esp, c.eip)
    ensures !AtTop(c.esp) ==> forall a: int ::
      (a < Add(c.esp, -4) || Add(c.esp, -4) + 4 <= a) && (a < FrameBase(c.esp) || FrameBase(c.esp) + FRAME <= a) ==>
        At(m, a) == At(m0, a)
  {
    ClearExactlyBelowTop(c.esp);
    var base, m1 := PageFaultHandler(m0, c, va, err, oesp);
    var u := Unwind(scratch.(esp := base), m1);
    r, m := u.0, u.1;
    if AtTop(c.esp) {
      UnwindIs(scratch.(esp := base), m1);
      PlantedFrame(m1, base);
      OverlapExactly(m1, c.esp, c.eip);
    } else {
      UnwindRestores(scratch.(esp := base), m1);
    }
  }

  // ---- faults inside handlers, to any depth ----

  /**
   What a handler does while its own frame is on the stack: stores, and page
   faults that are themselves handled.  `scratch` is whatever the registers hold
   when the inner handler returns.
   */
  datatype Activity =
    | Done
    | Store(a: int, w: u32, rest: Activity)
    | Fault(c: Cpu, va: u32, err: u32, oesp: u32, scratch: Cpu, inner: Activity, rest: Activity)

  /**
   The handler at `base` stores only below its frame or off the exception page, and its faults happen with room below.
   */
  ghost predicate Polite(base: u32, h: Activity) {
    match h
    case Done => true
    case Store(a, w, rest) => (a + 4 <= base || UXSTACKTOP <= a) && Polite(base, rest)
    case Fault(c, va, err, oesp, scratch, inner, rest) =>
      && c.esp <= base && UXSTACKTOP - PGSIZE <= FrameBase(c.esp) && OnExceptionStack(c.esp)
      && Polite(FrameBase(c.esp), inner) && Polite(base, rest)
  }

  /** Memory after the handler's activity, each inner fault pushed, handled and unwound. */
  ghost function After(m: Mem, base: u32, h: Activity): Mem
    requires Polite(base, h)
    decreases h
  {
    match h
    case Done => m
    case Store(a, w, rest) => After(Put(m, a, w), base, rest)
    case Fault(c, va, err, oesp, scratch, inner, rest) =>
      var m2 := After(Pushed(m, c, va, err, oesp), FrameBase(c.esp), inner);
      After(Unwind(scratch.(esp := FrameBase(c.esp)), m2).1, base, rest)
  }

  /** Every fault in h, at every depth, is returned from with exactly the state it interrupted. */
  ghost predicate AllRestored(m: Mem, base: u32, h: Activity)
    requires Polite(base, h)
    decreases h
  {
    match h
    case Done => true
    case Store(a, w, rest) => AllRestored(Put(m, a, w), base, rest)
    case Fault(c, va, err, oesp, scratch, inner, rest) =>
      var m1 := Pushed(m, c, va, err, oesp);
      var u := Unwind(scratch.(esp := FrameBase(c.esp)), After(m1, FrameBase(c.esp), inner));
      AllRestored(m1, FrameBase(c.esp), inner) && u.0 == c && AllRestored(u.1, base, rest)
  }

  /**
   Nested faults round-trip at any depth: each level's return instructions restore the
   state it interrupted, and nothing from the handler's own frame up to the top of the
   exception stack is disturbed, so no frame overlaps an outer one.
   */
  lemma {:induction false} NestedFaultsRestore(m: Mem, base: u32, h: Activity)
    requires Polite(base, h)
    ensures AllRestored(m, base, h)
    ensures SameAbove(m, After(m, base, h), base)
    decreases h
  {
    match h
    case Done =>
    case Store(a, w, rest) => NestedFaultsRestore(Put(m, a, w), base, rest);
    case Fault(c, va, err, oesp, scratch, inner, rest) =>
      var b, m1 := FrameBase(c.esp), Pushed(m, c, va, err, oesp);
      NestedFaultsRestore(m1, b, inner);
      var m2 := After(m1, b, inner);
      LevelRestores(m, m2, c, va, err, oesp, scratch, base);
      var m3 := Unwind(scratch.(esp := b), m2).1;
      NestedFaultsRestore(m3, base, rest);
      SameAboveTrans(m, m3, After(m3, base, rest), base);
  }

  /** Whenever the handler at `base` goes on, at every depth, its frame still tells it about its own fault. */
  ghost predicate AllTold(m: Mem, base: u32, va: u32, err: u32, h: Activity)
    requires Polite(base, h)
    decreases h
  {
    && Tells(m, base, va, err)
    && match h
       case Done => true
       case Store(a, w, rest) => AllTold(Put(m, a, w), base, va, err, rest)
       case Fault(c, va', err', oesp, scratch, inner, rest) =>
         var m1 := Pushed(m, c, va', err', oesp);
         var u := Unwind(scratch.(esp := FrameBase(c.esp)), After(m1, FrameBase(c.esp), inner));
         AllTold(m1, FrameBase(c.esp), va', err', inner) && AllTold(u.1, base, va, err, rest)
  }

  lemma TellsStill(m: Mem, m': Mem, base: u32, va: u32, err: u32)
    requires Tells(m, base, va, err) && base + 8 <= UXSTACKTOP && SameAbove(m, m', base)
    ensures Tells(m', base, va, err)
  {
    SameBytes(m, m', base);
    SameBytes(m, m', base + 4);
  }

  lemma {:induction false} NestedFaultsTell(m: Mem, base: u32, va: u32, err: u32, h: Activity)
    requires Polite(base, h) && Tells(m, base, va, err) && base + 8 <= UXSTACKTOP
    ensures AllTold(m, base, va, err, h)
    decreases h
  {
    match h
    case Done =>
    case Store(a, w, rest) =>
      TellsStill(m, Put(m, a, w), base, va, err);
      NestedFaultsTell(Put(m, a, w), base, va, err, rest);
    case Fault(c, va', err', oesp, scratch, inner, rest) =>
      var b, m1 := FrameBase(c.esp), Pushed(m, c, va', err', oesp);
      PushRecords(m, c, va', err', oesp);
      NestedFaultsTell(m1, b, va', err', inner);
      NestedFaultsRestore(m1, b, inner);
      LevelRestores(m, After(m1, b, inner), c, va', err', oesp, scratch, base);
      var m3 := Unwind(scratch.(esp := b), After(m1, b, inner)).1;
      TellsStill(m, m3, base, va, err);
      NestedFaultsTell(m3, base, va, err, rest);
  }

  /** m' agrees with m from `base` up to the top of the exception stack. */
  ghost predicate SameAbove(m: Mem, m': Mem, base: u32) {
    forall a: int :: base <= a < UXSTACKTOP ==> At(m', a) == At(m, a)
  }

  lemma SameAboveTrans(m: Mem, m1: Mem, m2: Mem, base: u32)
    requires SameAbove(m, m1, base) && SameAbove(m1, m2, base)
    ensures SameAbove(m, m2, base)
  {}

  /** A frame whose bytes are left alone records what it did. */
  lemma RecordedKept(m: Mem, m': Mem, base: u32)
    requires SameAbove(m, m', base) && base + FRAME <= UXSTACKTOP
    ensures Recorded(m', base) == Recorded(m, base)
  {
    forall i: nat | i < 13 ensures Load(m', base + 4 * i) == Load(m, base + 4 * i) { SameBytes(m, m', base + 4 * i); }
    assert forall i: nat {:trigger Slot(i)} :: i < 13 ==> Load(m', base + Slot(i)) == Load(m, base + Slot(i));
    assert Slot(2) == 8 && Slot(3) == 12 && Slot(4) == 16 && Slot(6) == 24 && Slot(7) == 28 && Slot(8) == 32;
    assert Slot(9) == 36 && Slot(10) == 40 && Slot(11) == 44 && Slot(12) == 48;
  }

  /** The offset of the i-th word of a frame. */
  function Slot(i: nat): nat { 4 * i }

  /**
   A level whose frame the inner handler left alone unwinds to the state it interrupted and disturbs nothing above.
   */
  lemma LevelRestores(m: Mem, m2: Mem, c: Cpu, va: u32, err: u32, oesp: u32, scratch: Cpu, base: u32)
    requires SameAbove(Pushed(m, c, va, err, oesp), m2, FrameBase(c.esp))
    requires OnExceptionStack(c.esp) && c.esp <= base
    ensures var u := Unwind(scratch.(esp := FrameBase(c.esp)), m2); u.0 == c && SameAbove(m, u.1, base)
  {
    var b := FrameBase(c.esp);
    PushRecords(m, c, va, err, oesp);
    RecordedKept(Pushed(m, c, va, err, oesp), m2, b);
    UnwindRestores(scratch.(esp := b), m2);
  }

  /**
   The outermost fault interrupts ordinary code, whose stack may be anywhere but on the exception page or at its top.
   */
  lemma FaultFromUserCode(m: Mem, c: Cpu, va: u32, err: u32, oesp: u32, scratch: Cpu, h: Activity)
    requires !OnExceptionStack(c.esp) && !AtTop(c.esp) && Polite(FrameBase(c.esp), h)
    ensures var m1 := Pushed(m, c, va, err, oesp);
            && AllRestored(m1, FrameBase(c.esp), h) && AllTold(m1, FrameBase(c.esp), va, err, h)
            && Unwind(scratch.(esp := FrameBase(c.esp)), After(m1, FrameBase(c.esp), h)).0 == c
  {
    var b, m1 := FrameBase(c.esp), Pushed(m, c, va, err, oesp);
    PushRecords(m, c, va, err, oesp);
    NestedFaultsRestore(m1, b, h);
    NestedFaultsTell(m1, b, va, err, h);
    RecordedKept(m1, After(m1, b, h), b);
    ClearExactlyBelowTop(c.esp);
    UnwindRestores(scratch.(esp := b), After(m1, b, h));
  }
}
