/** init_stack (lib/spawn.c): laying out argc, argv and the argument strings on a child's first stack page. */
module ArgvStack {
  const WORD := 0x1_0000_0000
  const PGSIZE := 4096
  const UTEMP := 0x40_0000
  const STACKBASE := 0xEEBF_D000   // USTACKTOP - PGSIZE, where the child sees the page

  type Bytes = seq<nat>

  /** A C string's characters: bytes other than NUL. */
  predicate Text(s: Bytes) { forall i :: 0 <= i < |s| ==> 0 < s[i] < 0x100 }

  function Total(argv: seq<Bytes>): nat {
    if argv == [] then 0 else |argv[0]| + 1 + Total(argv[1..])
  }

  // ---- words and slices of the page ----

  /** The n low bytes of w, least significant first. */
  function LE(w: nat, n: nat): (b: Bytes)
    ensures |b| == n
  {
    if n == 0 then [] else [w % 0x100] + LE(w / 0x100, n - 1)
  }

  function FromLE(b: Bytes): nat { if b == [] then 0 else b[0] + 0x100 * FromLE(b[1..]) }

  function Pow(n: nat): nat { if n == 0 then 1 else 0x100 * Pow(n - 1) }

  lemma {:induction false} FromLEInverts(w: nat, n: nat)
    requires w < Pow(n)
    ensures FromLE(LE(w, n)) == w
  {
    if n > 0 { FromLEInverts(w / 0x100, n - 1); }
  }

  /** Four bytes hold a word. */
  lemma WordFits()
    ensures Pow(4) == WORD
  {
    assert Pow(1) == 0x100 && Pow(2) == 0x1_0000 && Pow(3) == 0x100_0000;
  }

  function Bytes4(w: nat): (b: Bytes)
    ensures |b| == 4
  {
    LE(w, 4)
  }

  /** Overwrite bytes from offset o. */
  function Put(page: Bytes, o: nat, b: Bytes): (p: Bytes)
    requires o + |b| <= |page|
    ensures |p| == |page| && p[o..o + |b|] == b
    ensures forall i :: 0 <= i < |page| && (i < o || o + |b| <= i) ==> p[i] == page[i]
  {
    page[..o] + b + page[o + |b|..]
  }

  /** The bytes b stand at offset o. */
  predicate Stands(page: Bytes, o: int, b: Bytes) {
    0 <= o && o + |b| <= |page| && page[o..o + |b|] == b
  }

  lemma StandsAfterPut(page: Bytes, o: nat, b: Bytes, u: int, c: Bytes)
    requires o + |b| <= |page| && Stands(page, u, c) && (u + |c| <= o || o + |b| <= u)
    ensures Stands(Put(page, o, b), u, c)
  {
    var p := Put(page, o, b);
    forall i | 0 <= i < |c| ensures p[u..u + |c|][i] == c[i] {
      assert page[u..u + |c|][i] == c[i];
    }
  }

  // ---- where things go ----

  /** Offset of string i: the strings fill the page exactly to its end. */
  function TextAt(argv: seq<Bytes>, i: nat): int
    requires i <= |argv|
  {
    PGSIZE - Total(argv[i..])
  }

  /** Offset of argv[0]: below the strings, word-aligned, with a slot for each pointer and the null one. */
  function VectorAt(argv: seq<Bytes>): int {
    TextAt(argv, 0) / 4 * 4 - 4 * (|argv| + 1)
  }

  /** Bytes needed on the page, the words for argc and argv included. */
  function Demand(argv: seq<Bytes>): nat { PGSIZE - (VectorAt(argv) - 8) }

  lemma TextGrows(argv: seq<Bytes>, i: nat)
    requires i < |argv|
    ensures TextAt(argv, i + 1) == TextAt(argv, i) + |argv[i]| + 1
  {
    assert argv[i..][1..] == argv[i + 1..];
  }

  lemma {:induction false} TextOrdered(argv: seq<Bytes>, i: nat, j: nat)
    requires i < j <= |argv|
    ensures TextAt(argv, i) + |argv[i]| + 1 <= TextAt(argv, j) <= PGSIZE
    decreases j - i
  {
    TextGrows(argv, i);
    if i + 1 < j { TextOrdered(argv, i + 1, j); }
  }

  lemma LayoutBounds(argv: seq<Bytes>)
    ensures TextAt(argv, |argv|) == PGSIZE && TextAt(argv, 0) <= PGSIZE
    ensures VectorAt(argv) + 4 * (|argv| + 1) <= TextAt(argv, 0)
    ensures Demand(argv) <= PGSIZE <==> 8 <= VectorAt(argv)
  {
    assert argv[|argv|..] == [];
  }

  // ---- what a child sees ----

  /** The C string at offset o. */
  function CString(page: Bytes, o: nat): Bytes
    decreases |page| - o
  {
    if o >= |page| || page[o] == 0 then [] else [page[o]] + CString(page, o + 1)
  }

  lemma {:induction false} ReadsString(page: Bytes, o: nat, s: Bytes)
    requires Text(s) && Stands(page, o, s + [0])
    ensures CString(page, o) == s
    decreases |s|
  {
    assert page[o..o + |s| + 1][0] == (s + [0])[0];
    if s != [] {
      assert Stands(page, o + 1, s[1..] + [0]) by {
        assert s[1..] + [0] == (s + [0])[1..];
        assert page[o..o + |s| + 1][1..] == page[o + 1..o + 1 + |s|];
      }
      ReadsString(page, o + 1, s[1..]);
    }
  }

  /** The word at a child address. */
  function Word(page: Bytes, a: int): nat {
    if 0 <= a - STACKBASE && a - STACKBASE + 4 <= |page| then FromLE(page[a - STACKBASE..a - STACKBASE + 4]) else 0
  }

  lemma ReadsWord(page: Bytes, a: int, w: nat)
    requires w < WORD && Stands(page, a - STACKBASE, Bytes4(w))
    ensures Word(page, a) == w
  {
    WordFits();
    FromLEInverts(w, 4);
  }

  /** A word of the page has its low byte first, as the processor reads it. */
  lemma WordBytes(page: Bytes, a: int)
    requires 0 <= a - STACKBASE && a - STACKBASE + 4 <= |page|
    ensures var o := a - STACKBASE;
            Word(page, a) == page[o] + 0x100 * page[o + 1] + 0x1_0000 * page[o + 2] + 0x100_0000 * page[o + 3]
  {
    var b := page[a - STACKBASE..a - STACKBASE + 4];
    var c := b[1..];
    var d := c[1..];
    assert d[1..] == [d[1]] && FromLE([d[1]]) == d[1];
    assert FromLE(d) == d[0] + 0x100 * d[1] && FromLE(c) == c[0] + 0x100 * FromLE(d);
  }

  /** The word at a points to the string s. */
  ghost predicate PointsTo(page: Bytes, a: int, s: Bytes) {
    STACKBASE <= Word(page, a) && CString(page, Word(page, a) - STACKBASE) == s
  }

  /** A child starting with stack pointer esp finds argc, argv, a null-terminated vector and every string. */
  ghost predicate Decodes(page: Bytes, esp: int, argv: seq<Bytes>) {
    && Word(page, esp) == |argv|
    && HoldsVector(page, Word(page, esp + 4), argv)
  }

  ghost predicate HoldsVector(page: Bytes, vec: int, argv: seq<Bytes>) {
    && (forall i {:trigger argv[i]} :: 0 <= i < |argv| ==> PointsTo(page, vec + 4 * i, argv[i]))
    && Word(page, vec + 4 * |argv|) == 0
  }

  // ---- init_stack ----

  datatype Outcome =
    | NoMem                          // -E_NO_MEM
    | Overrun                        // the size check passed on a wrapped address: the stores leave the page
    | Ok(page: Bytes, esp: nat)

  /** Pointer i and string i are in place: the vector stands at v, string i at text. */
  ghost predicate Placed(page: Bytes, v: int, text: int, argv: seq<Bytes>, i: nat)
    requires i < |argv|
  {
    && 0 <= text
    && Stands(page, v + 4 * i, Bytes4(STACKBASE + text))
    && Stands(page, text, argv[i] + [0])
  }

  /** All pointers and strings, then the null pointer, argv and argc themselves. */
  ghost predicate Finished(page: Bytes, v: nat, texts: seq<int>, argv: seq<Bytes>) {
    && |page| == PGSIZE && |texts| == |argv|
    && (forall i :: 0 <= i < |argv| ==> Placed(page, v, texts[i], argv, i))
    && Stands(page, v + 4 * |argv|, Bytes4(0))
    && Stands(page, v - 4, Bytes4(STACKBASE + v))
    && Stands(page, v - 8, Bytes4(|argv|))
  }

  lemma ItemDecodes(page: Bytes, v: nat, text: int, argv: seq<Bytes>, i: nat)
    requires i < |argv| && Text(argv[i]) && |page| == PGSIZE && Placed(page, v, text, argv, i)
    ensures PointsTo(page, STACKBASE + v + 4 * i, argv[i])
  {
    ReadsWord(page, STACKBASE + v + 4 * i, STACKBASE + text);
    ReadsString(page, text, argv[i]);
  }

  lemma VectorDecodes(page: Bytes, v: nat, texts: seq<int>, argv: seq<Bytes>)
    requires Finished(page, v, texts, argv) && forall i :: 0 <= i < |argv| ==> Text(argv[i])
    ensures HoldsVector(page, STACKBASE + v, argv)
  {
    ReadsWord(page, STACKBASE + v + 4 * |argv|, 0);
    forall i {:trigger argv[i]} | 0 <= i < |argv| ensures PointsTo(page, STACKBASE + v + 4 * i, argv[i]) {
      ItemDecodes(page, v, texts[i], argv, i);
    }
  }

  lemma FinishedDecodes(page: Bytes, v: nat, texts: seq<int>, argv: seq<Bytes>)
    requires Finished(page, v, texts, argv) && forall i :: 0 <= i < |argv| ==> Text(argv[i])
    ensures Decodes(page, STACKBASE + v - 8, argv)
  {
    var esp := STACKBASE + v - 8;
    ReadsWord(page, esp, |argv|);
    ReadsWord(page, esp + 4, STACKBASE + v);
    VectorDecodes(page, v, texts, argv);
  }

  lemma PlacedAfterPut(page: Bytes, o: nat, b: Bytes, v: int, text: int, argv: seq<Bytes>, i: nat)
    requires i < |argv| && o + |b| <= |page| && Placed(page, v, text, argv, i)
    requires v + 4 * i + 4 <= o || o + |b| <= v + 4 * i
    requires text + |argv[i]| + 1 <= o || o + |b| <= text
    ensures Placed(Put(page, o, b), v, text, argv, i)
  {
    StandsAfterPut(page, o, b, v + 4 * i, Bytes4(STACKBASE + text));
    StandsAfterPut(page, o, b, text, argv[i] + [0]);
  }

  /** The first loop: the space the strings need, modulo 2^32. */
  method StringSize(argv: seq<Bytes>) returns (size: nat)
    ensures size == Total(argv) % WORD
  {
    size := 0;
    for i := 0 to |argv|
      invariant size == (Total(argv) - Total(argv[i..])) % WORD && Total(argv) >= Total(argv[i..])
    {
      TextGrows(argv, i);
      ModAdd(Total(argv) - Total(argv[i..]), |argv[i]| + 1);
      size := (size + |argv[i]| + 1) % WORD;
    }
    assert argv[|argv|..] == [];
  }

  lemma ModAdd(a: nat, b: nat)
    ensures (a % WORD + b) % WORD == (a + b) % WORD
  {
    var q := a / WORD;
    assert a == WORD * q + a % WORD;
    assert a + b == WORD * q + (a % WORD + b);
    ModShift(q, a % WORD + b);
  }

  lemma ModShift(q: nat, x: nat)
    ensures (WORD * q + x) % WORD == x % WORD
  {}

  /** One round of the copying loop: argv_store[j], then strcpy. */
  function Stored(page: Bytes, argv: seq<Bytes>, v: int, text: int, j: nat): (p: Bytes)
    requires |page| == PGSIZE && j < |argv| && 0 <= v && v + 4 * j + 4 <= text && text + |argv[j]| + 1 <= PGSIZE
    ensures |p| == PGSIZE && Placed(p, v, text, argv, j)
    ensures forall k :: 0 <= k < v ==> p[k] == page[k]
  {
    var q := Put(page, v + 4 * j, Bytes4(STACKBASE + text));
    StandsAfterPut(q, text, argv[j] + [0], v + 4 * j, Bytes4(STACKBASE + text));
    Put(q, text, argv[j] + [0])
  }

  /** Where string j goes, and that it fits there. */
  lemma TextFits(argv: seq<Bytes>, j: nat)
    requires j < |argv| && 8 <= VectorAt(argv)
    ensures VectorAt(argv) + 4 * j + 4 <= TextAt(argv, j) && TextAt(argv, j) + |argv[j]| + 1 <= PGSIZE
  {
    TextAboveVector(argv, j);
    TextOrdered(argv, j, |argv|);
  }

  /** Storing pointer and string j leaves an earlier one in place. */
  lemma StoredKeeps(page: Bytes, argv: seq<Bytes>, v: int, early: int, i: nat, text: int, j: nat)
    requires |page| == PGSIZE && i < j < |argv| && 0 <= v && v + 4 * j + 4 <= text && text + |argv[j]| + 1 <= PGSIZE
    requires v + 4 * j + 4 <= early && early + |argv[i]| + 1 <= text
    requires Placed(page, v, early, argv, i)
    ensures Placed(Stored(page, argv, v, text, j), v, early, argv, i)
  {
    var p := Put(page, v + 4 * j, Bytes4(STACKBASE + text));
    PlacedAfterPut(page, v + 4 * j, Bytes4(STACKBASE + text), v, early, argv, i);
    PlacedAfterPut(p, text, argv[j] + [0], v, early, argv, i);
  }

  /** Every string lies above the whole vector. */
  lemma TextAboveVector(argv: seq<Bytes>, i: nat)
    requires i <= |argv|
    ensures VectorAt(argv) + 4 * (|argv| + 1) <= TextAt(argv, i)
  {
    LayoutBounds(argv);
    if 0 < i { TextOrdered(argv, 0, i); }
  }

  /** The copying loop, on the freshly mapped (zero) page: string_store ends exactly at the page's end. */
  method CopyStrings(argv: seq<Bytes>, argvStore: int, stringStore: int) returns (page: Bytes, end: int)
    requires argvStore == UTEMP + VectorAt(argv) && stringStore == UTEMP + TextAt(argv, 0)
    requires 8 <= VectorAt(argv)
    ensures end == UTEMP + PGSIZE
    ensures |page| == PGSIZE && forall k :: 0 <= k < VectorAt(argv) ==> page[k] == 0
    ensures forall i :: 0 <= i < |argv| ==> Placed(page, VectorAt(argv), TextAt(argv, i), argv, i)
  {
    page, end := seq(PGSIZE, _ => 0), stringStore;
    for j := 0 to |argv|
      invariant end == UTEMP + TextAt(argv, j)
      invariant |page| == PGSIZE && forall k :: 0 <= k < VectorAt(argv) ==> page[k] == 0
      invariant forall i :: 0 <= i < j ==> Placed(page, VectorAt(argv), TextAt(argv, i), argv, i)
    {
      TextFits(argv, j);
      TextGrows(argv, j);
      ghost var was := page;
      page := Stored(page, argv, argvStore - UTEMP, end - UTEMP, j);
      forall i | 0 <= i < j ensures Placed(page, VectorAt(argv), TextAt(argv, i), argv, i) {
        TextAboveVector(argv, i);
        TextOrdered(argv, i, j);
        StoredKeeps(was, argv, VectorAt(argv), TextAt(argv, i), i, TextAt(argv, j), j);
      }
      end := end + |argv[j]| + 1;
    }
    LayoutBounds(argv);
  }

  /** The three words stored after the loop. */
  function WithHead(page: Bytes, v: nat, n: nat): (p: Bytes)
    requires |page| == PGSIZE && 8 <= v && v + 4 * n + 4 <= PGSIZE
    ensures |p| == PGSIZE
    ensures Stands(p, v + 4 * n, Bytes4(0)) && Stands(p, v - 4, Bytes4(STACKBASE + v)) && Stands(p, v - 8, Bytes4(n))
    ensures forall k :: 0 <= k < v - 8 ==> p[k] == page[k]
  {
    var p0 := Put(page, v + 4 * n, Bytes4(0));
    var p1 := Put(p0, v - 4, Bytes4(STACKBASE + v));
    StandsAfterPut(p0, v - 4, Bytes4(STACKBASE + v), v + 4 * n, Bytes4(0));
    StandsAfterPut(p1, v - 8, Bytes4(n), v + 4 * n, Bytes4(0));
    StandsAfterPut(p1, v - 8, Bytes4(n), v - 4, Bytes4(STACKBASE + v));
    Put(p1, v - 8, Bytes4(n))
  }

  lemma HeadKeeps(page: Bytes, argv: seq<Bytes>, v: nat, text: int, i: nat)
    requires |page| == PGSIZE && i < |argv| && 8 <= v && v + 4 * |argv| + 4 <= text <= PGSIZE
    requires Placed(page, v, text, argv, i)
    ensures Placed(WithHead(page, v, |argv|), v, text, argv, i)
  {
    var p0 := Put(page, v + 4 * |argv|, Bytes4(0));
    var p1 := Put(p0, v - 4, Bytes4(STACKBASE + v));
    PlacedAfterPut(page, v + 4 * |argv|, Bytes4(0), v, text, argv, i);
    PlacedAfterPut(p0, v - 4, Bytes4(STACKBASE + v), v, text, argv, i);
    PlacedAfterPut(p1, v - 8, Bytes4(|argv|), v, text, argv, i);
  }

  lemma HeadFinishes(page: Bytes, argv: seq<Bytes>)
    requires |page| == PGSIZE && 8 <= VectorAt(argv) && VectorAt(argv) + 4 * |argv| + 4 <= PGSIZE
    requires forall i :: 0 <= i < |argv| ==> Text(argv[i])
    requires forall i :: 0 <= i < |argv| ==> Placed(page, VectorAt(argv), TextAt(argv, i), argv, i)
    ensures Decodes(WithHead(page, VectorAt(argv), |argv|), STACKBASE + VectorAt(argv) - 8, argv)
  {
    var v := VectorAt(argv);
    var p := WithHead(page, v, |argv|);
    var texts := seq(|argv|, i requires 0 <= i < |argv| => TextAt(argv, i));
    forall i | 0 <= i < |argv| ensures Placed(p, v, texts[i], argv, i) {
      TextAboveVector(argv, i);
      TextOrdered(argv, i, |argv|);
      HeadKeeps(page, argv, v, TextAt(argv, i), i);
    }
    FinishedDecodes(p, v, texts, argv);
  }

  /** The rest of init_stack once the size check has passed. */
  method FillPage(argv: seq<Bytes>, stringStore: int) returns (r: Outcome)
    requires forall i :: 0 <= i < |argv| ==> Text(argv[i])
    requires stringStore == UTEMP + TextAt(argv, 0) && 8 <= VectorAt(argv)
    ensures r.Ok? && |r.page| == PGSIZE && Decodes(r.page, r.esp, argv)
    ensures r.esp == STACKBASE + PGSIZE - Demand(argv)
    ensures forall k :: 0 <= k < r.esp - STACKBASE ==> r.page[k] == 0
  {
    RoundWhole(TextAt(argv, 0), 0);
    LayoutBounds(argv);
    var v := stringStore / 4 * 4 - 4 * (|argv| + 1) - UTEMP;
    var page, end := CopyStrings(argv, UTEMP + v, stringStore);
    assert end == UTEMP + PGSIZE;
    HeadFinishes(page, argv);
    r := Ok(WithHead(page, v, |argv|), STACKBASE + v - 8);
  }

  /** The address the size check looks at, &argv_store[-2], as the 32-bit machine computes it. */
  function Lowest(argv: seq<Bytes>): (a: int)
    ensures 0 <= a < WORD
  {
    (UTEMP + PGSIZE - Demand(argv)) % WORD
  }

  /** The 32-bit computation of the lowest address, from the wrapped string size. */
  lemma LowestComputed(argv: seq<Bytes>, size: nat)
    requires size == Total(argv) % WORD
    ensures var stringStore := (UTEMP + PGSIZE - size) % WORD;
            (stringStore / 4 * 4 - 4 * (|argv| + 1) - 8) % WORD == Lowest(argv)
  {
    var x := UTEMP + TextAt(argv, 0);
    var y := x / 4 * 4 - 4 * (|argv| + 1) - 8;
    var m := Wraps(UTEMP + PGSIZE, Total(argv));
    assert argv[0..] == argv;
    RoundWhole(x, m);
    ModWhole(y, m);
    LowestIs(argv);
    assert (UTEMP + PGSIZE - size) % WORD == x + WORD * m;
  }

  /** The lowest address before wrapping, from where the strings start. */
  lemma LowestIs(argv: seq<Bytes>)
    ensures UTEMP + PGSIZE - Demand(argv) == (UTEMP + TextAt(argv, 0)) / 4 * 4 - 4 * (|argv| + 1) - 8
  {
    RoundWhole(TextAt(argv, 0), 0);
  }

  /** Wrapped subtraction is off by a whole number of words. */
  lemma Wraps(x: int, t: nat) returns (m: int)
    ensures (x - t % WORD) % WORD == x - t + WORD * m
  {
    m := t / WORD - (x - t % WORD) / WORD;
  }

  lemma Quarter(q: int, r: int)
    requires 0 <= r < 4
    ensures (4 * q + r) / 4 == q
  {}

  lemma RoundWhole(x: int, m: int)
    ensures (x + WORD * m) / 4 * 4 == x / 4 * 4 + WORD * m
    ensures (UTEMP + x) / 4 * 4 == UTEMP + x / 4 * 4
  {
    Quarter(x / 4 + WORD / 4 * m, x % 4);
    Quarter(x / 4 + UTEMP / 4, x % 4);
  }

  lemma Remainder(q: int, r: int)
    requires 0 <= r < WORD
    ensures (WORD * q + r) % WORD == r
  {
    assert (WORD * q + r) / WORD == q;
  }

  lemma ModWhole(x: int, q: int)
    ensures (x + WORD * q) % WORD == x % WORD
  {
    Remainder(x / WORD + q, x % WORD);
    assert x + WORD * q == WORD * (x / WORD + q) + x % WORD;
  }

  /** What the check sees of a demand that fits, and of one that does not but is not large enough to wrap. */
  lemma CheckSees(argv: seq<Bytes>)
    ensures Demand(argv) <= PGSIZE ==> Lowest(argv) == UTEMP + PGSIZE - Demand(argv) && Total(argv) < WORD
    ensures PGSIZE < Demand(argv) <= UTEMP + PGSIZE ==> Lowest(argv) < UTEMP
    ensures (STACKBASE + PGSIZE - Demand(argv)) % 4 == 0
  {
    LayoutBounds(argv);
    assert argv[0..] == argv;
    var d := UTEMP + PGSIZE - Demand(argv);
    if 0 <= d < WORD { Remainder(0, d); }
  }

  /** The size check of init_stack, on 32-bit addresses, and where the strings then start. */
  method SizeCheck(argv: seq<Bytes>) returns (passed: bool, stringStore: int)
    ensures passed <==> Lowest(argv) >= UTEMP
    ensures Demand(argv) <= PGSIZE ==> stringStore == UTEMP + TextAt(argv, 0)
  {
    var size := StringSize(argv);
    LowestComputed(argv, size);
    CheckSees(argv);
    stringStore := (UTEMP + PGSIZE - size) % WORD;
    passed := (stringStore / 4 * 4 - 4 * (|argv| + 1) - 8) % WORD >= UTEMP;
    if Demand(argv) <= PGSIZE {
      assert argv[0..] == argv;
      LayoutBounds(argv);
      Remainder(0, Total(argv));
      Remainder(0, UTEMP + PGSIZE - size);
    }
  }

  /**
   * init_stack up to mapping the page into the child. It succeeds exactly when everything fits in one page. The check
   * that refuses the rest works on 32-bit addresses: it refuses every demand up to UTEMP + PGSIZE, and beyond that
   * exactly the ones whose wrapped address still falls below UTEMP.
   */
  method InitStack(argv: seq<Bytes>) returns (r: Outcome)
    requires forall i :: 0 <= i < |argv| ==> Text(argv[i])
    ensures r.Ok? <==> Demand(argv) <= PGSIZE
    ensures r.NoMem? <==> Lowest(argv) < UTEMP
    ensures PGSIZE < Demand(argv) <= UTEMP + PGSIZE ==> r.NoMem?
    ensures r.Ok? ==> |r.page| == PGSIZE && Decodes(r.page, r.esp, argv)
    ensures r.Ok? ==> r.esp == STACKBASE + PGSIZE - Demand(argv) && r.esp % 4 == 0
    ensures r.Ok? ==> forall k :: 0 <= k < r.esp - STACKBASE ==> r.page[k] == 0
  {
    LayoutBounds(argv);
    CheckSees(argv);
    var passed, stringStore := SizeCheck(argv);
    if !passed {
      return NoMem;
    }
    if Demand(argv) > PGSIZE {
      return Overrun;
    }
    r := FillPage(argv, stringStore);
  }

  /** The refusal is not complete: one argument of a little over four megabytes wraps the address past the check. */
  lemma OversizeAccepted(argv: seq<Bytes>)
    requires |argv| == 1 && |argv[0]| == UTEMP + PGSIZE - 13
    ensures Demand(argv) > PGSIZE && Lowest(argv) >= UTEMP
  {
    assert argv[0..] == argv && Total(argv[1..]) == 0;
    assert TextAt(argv, 0) == -UTEMP + 12;
  }
}
