/** Disk blocks as bytes: little-endian words, bits of the free-block bitmap, and copying into a block. */
module Blocks {
  const BLKSIZE := 4096
  const BLKWORDS := 1024       // NINDIRECT
  const BLKBITS := 32768       // BLKBITSIZE
  const WORD := 0x1_0000_0000

  newtype byte = x: int | 0 <= x < 0x100

  type Block = b: seq<byte> | |b| == BLKSIZE witness seq(BLKSIZE, _ => 0)

  function Zeros(): Block { seq(BLKSIZE, _ => 0) }

  // ---- words ----

  function Pow256(n: nat): nat { if n == 0 then 1 else 0x100 * Pow256(n - 1) }

  lemma FourBytes()
    ensures Pow256(4) == WORD
  {
    assert Pow256(1) == 0x100 && Pow256(2) == 0x1_0000 && Pow256(3) == 0x100_0000;
  }

  /** The n-byte little-endian number at offset o. */
  function Load(b: Block, o: nat, n: nat): (w: nat)
    requires o + n <= BLKSIZE
    ensures w < Pow256(n)
    decreases n
  {
    if n == 0 then 0 else b[o] as int + 0x100 * Load(b, o + 1, n - 1)
  }

  function Store(b: Block, o: nat, n: nat, w: nat): (r: Block)
    requires o + n <= BLKSIZE
    ensures forall i :: 0 <= i < BLKSIZE && (i < o || o + n <= i) ==> r[i] == b[i]
    decreases n
  {
    if n == 0 then b else Store(b[o := (w % 0x100) as byte], o + 1, n - 1, w / 0x100)
  }

  lemma {:induction false} LoadFrame(b: Block, c: Block, o: nat, n: nat)
    requires o + n <= BLKSIZE && forall i :: o <= i < o + n ==> b[i] == c[i]
    ensures Load(b, o, n) == Load(c, o, n)
    decreases n
  {
    if n > 0 { LoadFrame(b, c, o + 1, n - 1); }
  }

  lemma {:induction false} LoadStored(b: Block, o: nat, n: nat, w: nat)
    requires o + n <= BLKSIZE && w < Pow256(n)
    ensures Load(Store(b, o, n, w), o, n) == w
    decreases n
  {
    if n > 0 {
      var c: Block := b[o := (w % 0x100) as byte];
      LoadStored(c, o + 1, n - 1, w / 0x100);
      assert Store(b, o, n, w) == Store(c, o + 1, n - 1, w / 0x100);
      assert Store(b, o, n, w)[o] == c[o];
    }
  }

  // A word is the number its four bytes load to, stated so that proofs about words open the bytes only on demand.
  predicate Bytes(n: nat) { true }

  predicate LoadsTo(b: Block, i: nat, w: nat)
    requires i < BLKWORDS
  {
    forall n: nat {:trigger Bytes(n)} :: n == 4 ==> Load(b, 4 * i, n) == w
  }

  function Word(b: Block, i: nat): (w: nat)
    requires i < BLKWORDS
    ensures w < WORD
  {
    FourBytes();
    assert Bytes(4) && LoadsTo(b, i, Load(b, 4 * i, 4));
    var w: nat :| LoadsTo(b, i, w);
    w
  }

  lemma WordIs(b: Block, i: nat)
    requires i < BLKWORDS
    ensures Word(b, i) == Load(b, 4 * i, 4)
  {
    assert Bytes(4);
  }

  function SetWord(b: Block, i: nat, w: nat): (r: Block)
    requires i < BLKWORDS && w < WORD
    ensures Word(r, i) == w
    ensures forall j :: 0 <= j < BLKWORDS && j != i ==> Word(r, j) == Word(b, j)
    ensures forall k :: 0 <= k < BLKSIZE && (k < 4 * i || 4 * i + 4 <= k) ==> r[k] == b[k]
  {
    FourBytes();
    LoadStored(b, 4 * i, 4, w);
    var r := Store(b, 4 * i, 4, w);
    WordIs(r, i);
    WordsFrame(b, r, 4 * i, 4 * i + 4);
    r
  }

  /** Words outside the changed bytes are unchanged. */
  lemma WordsFrame(b: Block, c: Block, lo: nat, hi: nat)
    requires forall k :: 0 <= k < BLKSIZE && (k < lo || hi <= k) ==> b[k] == c[k]
    ensures forall j :: 0 <= j < BLKWORDS && (4 * j + 4 <= lo || hi <= 4 * j) ==> Word(c, j) == Word(b, j)
  {
    forall j | 0 <= j < BLKWORDS && (4 * j + 4 <= lo || hi <= 4 * j) ensures Word(c, j) == Word(b, j) {
      WordIs(b, j);
      WordIs(c, j);
      LoadFrame(b, c, 4 * j, 4);
    }
  }

  // ---- bits ----

  function Bit(w: nat, k: nat): bool { if k == 0 then w % 2 == 1 else Bit(w / 2, k - 1) }

  function Pow2(k: nat): (r: nat)
    ensures r > 0
  {
    if k == 0 then 1 else 2 * Pow2(k - 1)
  }

  /** w | 1 << k, or w & ~(1 << k). */
  function PutBit(w: nat, k: nat, on: bool): (r: nat)
    decreases k
  {
    if k == 0 then w / 2 * 2 + (if on then 1 else 0) else PutBit(w / 2, k - 1, on) * 2 + w % 2
  }

  lemma {:induction false} PutBitBits(w: nat, k: nat, on: bool, j: nat)
    ensures Bit(PutBit(w, k, on), j) == if j == k then on else Bit(w, j)
    decreases k
  {
    var r := PutBit(w, k, on);
    if k == 0 {
      assert r / 2 == w / 2;
    } else {
      assert r / 2 == PutBit(w / 2, k - 1, on) && r % 2 == w % 2;
      if j > 0 { PutBitBits(w / 2, k - 1, on, j - 1); }
    }
  }

  lemma {:induction false} PutBitFits(w: nat, k: nat, on: bool, n: nat)
    requires w < Pow2(n) && k < n
    ensures PutBit(w, k, on) < Pow2(n)
    decreases n
  {
    if k > 0 { PutBitFits(w / 2, k - 1, on, n - 1); }
  }

  lemma WordBits()
    ensures Pow2(32) == WORD
  {
    assert Pow2(8) == 0x100 && Pow2(16) == 0x1_0000 && Pow2(24) == 0x100_0000;
  }

  /** Bit c of the bitmap words from word `from` on. */
  function BitFrom(b: Block, from: nat, c: nat): bool
    decreases c
  {
    if from >= BLKWORDS then false
    else if c < 32 then Bit(Word(b, from), c)
    else BitFrom(b, from + 1, c - 32)
  }

  predicate BitAt(b: Block, c: nat) { BitFrom(b, 0, c) }

  lemma {:induction false} BitFromIs(b: Block, from: nat, c: nat)
    requires from + c / 32 < BLKWORDS
    ensures BitFrom(b, from, c) == Bit(Word(b, from + c / 32), c % 32)
    decreases c
  {
    if c >= 32 {
      assert (c - 32) / 32 == c / 32 - 1 && (c - 32) % 32 == c % 32;
      BitFromIs(b, from + 1, c - 32);
    }
  }

  /** The code's test bitmap[c / 32] & (1 << (c % 32)). */
  lemma BitAtIs(b: Block, c: nat)
    requires c < BLKBITS
    ensures BitAt(b, c) == Bit(Word(b, c / 32), c % 32)
  {
    BitFromIs(b, 0, c);
  }

  /** The low m bits of a number, and those above them. */
  lemma {:induction false} BitsSplit(x: nat, y: nat, m: nat, k: nat)
    requires x < Pow2(m)
    ensures Bit(x + Pow2(m) * y, k) == if k < m then Bit(x, k) else Bit(y, k - m)
    decreases m
  {
    if m > 0 {
      var high := Pow2(m - 1) * y;
      assert Pow2(m) * y == 2 * high;
      assert (x + 2 * high) % 2 == x % 2 && (x + 2 * high) / 2 == x / 2 + high;
      if k > 0 { BitsSplit(x / 2, y, m - 1, k - 1); }
    }
  }

  lemma {:induction false} LoadBits(b: Block, o: nat, n: nat, k: nat)
    requires o + n <= BLKSIZE && k < 8 * n
    ensures Bit(Load(b, o, n), k) == Bit(b[o + k / 8] as int, k % 8)
    decreases n
  {
    assert Pow2(4) == 16 && Pow2(8) == 0x100;
    BitsSplit(b[o] as int, Load(b, o + 1, n - 1), 8, k);
    if k >= 8 { LoadBits(b, o + 1, n - 1, k - 8); }
  }

  lemma Eighths(w: nat, k: nat)
    requires k < 32
    ensures (32 * w + k) / 8 == 4 * w + k / 8 && (32 * w + k) % 8 == k % 8
  {}

  /** On the disk, bit c of the bitmap is bit c % 8 of byte c / 8. */
  lemma BitOnDisk(b: Block, c: nat)
    requires c < BLKBITS
    ensures BitAt(b, c) <==> Bit(b[c / 8] as int, c % 8)
  {
    Eighths(c / 32, c % 32);
    BitAtIs(b, c);
    WordIs(b, c / 32);
    LoadBits(b, 4 * (c / 32), 4, c % 32);
  }

  /** Setting a bit adds its power of two, and clearing it takes that away. */
  lemma {:induction false} PutBitValue(w: nat, k: nat, on: bool)
    ensures PutBit(w, k, on) + (if Bit(w, k) then Pow2(k) else 0) == w + (if on then Pow2(k) else 0)
  {
    if k > 0 { PutBitValue(w / 2, k - 1, on); }
  }

  /** A word on the disk has its low byte first. */
  lemma WordOnDisk(b: Block, i: nat)
    requires i < BLKWORDS
    ensures Word(b, i) == b[4 * i] as int + 0x100 * b[4 * i + 1] as int + 0x1_0000 * b[4 * i + 2] as int
      + 0x100_0000 * b[4 * i + 3] as int
  {
    WordIs(b, i);
    assert Load(b, 4 * i + 3, 1) == b[4 * i + 3] as int;
    assert Load(b, 4 * i + 2, 2) == b[4 * i + 2] as int + 0x100 * b[4 * i + 3] as int;
  }

  function SetBitAt(b: Block, c: nat, on: bool): (r: Block)
    requires c < BLKBITS
    ensures forall d: nat :: d < BLKBITS ==> BitAt(r, d) == if d == c then on else BitAt(b, d)
  {
    WordBits();
    PutBitFits(Word(b, c / 32), c % 32, on, 32);
    BitsPut(b, c, on);
    SetWord(b, c / 32, PutBit(Word(b, c / 32), c % 32, on))
  }

  lemma BitsPut(b: Block, c: nat, on: bool)
    requires c < BLKBITS && PutBit(Word(b, c / 32), c % 32, on) < WORD
    ensures var r := SetWord(b, c / 32, PutBit(Word(b, c / 32), c % 32, on));
            forall d: nat :: d < BLKBITS ==> BitAt(r, d) == if d == c then on else BitAt(b, d)
  {
    var r := SetWord(b, c / 32, PutBit(Word(b, c / 32), c % 32, on));
    forall d: nat | d < BLKBITS ensures BitAt(r, d) == if d == c then on else BitAt(b, d) {
      BitPut(b, c, on, r, d);
    }
  }

  lemma BitPut(b: Block, c: nat, on: bool, r: Block, d: nat)
    requires c < BLKBITS && d < BLKBITS
    requires Word(r, c / 32) == PutBit(Word(b, c / 32), c % 32, on)
    requires forall j :: 0 <= j < BLKWORDS && j != c / 32 ==> Word(r, j) == Word(b, j)
    ensures BitAt(r, d) == if d == c then on else BitAt(b, d)
  {
    BitAtIs(r, d);
    BitAtIs(b, d);
    if d / 32 == c / 32 { PutBitBits(Word(b, c / 32), c % 32, on, d % 32); }
  }

  // ---- copying ----

  /** memmove into a block. */
  function Splice(b: Block, o: nat, s: seq<byte>): (r: Block)
    requires o + |s| <= BLKSIZE
    ensures r[o..o + |s|] == s
    ensures forall k :: 0 <= k < BLKSIZE ==> r[k] == if o <= k < o + |s| then s[k - o] else b[k]
    ensures forall j :: 0 <= j < BLKWORDS && (4 * j + 4 <= o || o + |s| <= 4 * j) ==> Word(r, j) == Word(b, j)
  {
    var r: Block := b[..o] + s + b[o + |s|..];
    WordsFrame(b, r, o, o + |s|);
    r
  }

  lemma ZeroWord(i: nat)
    requires i < BLKWORDS
    ensures Word(Zeros(), i) == 0
  {
    WordIs(Zeros(), i);
    assert Load(Zeros(), 4 * i + 3, 1) == 0;
    assert Load(Zeros(), 4 * i + 2, 2) == 0;
  }

  // ---- a block of ones ----

  function Ones(): Block { seq(BLKSIZE, _ => 0xFF) }

  lemma {:induction false} OnesLoad(o: nat, n: nat)
    requires o + n <= BLKSIZE
    ensures Load(Ones(), o, n) == Pow256(n) - 1
    decreases n
  {
    if n > 0 { OnesLoad(o + 1, n - 1); }
  }

  lemma {:induction false} OnesBit(n: nat, k: nat)
    requires k < n
    ensures Bit(Pow2(n) - 1, k)
    decreases n
  {
    assert Pow2(n) - 1 == 2 * (Pow2(n - 1) - 1) + 1;
    assert (Pow2(n) - 1) / 2 == Pow2(n - 1) - 1;
    if k > 0 { OnesBit(n - 1, k - 1); }
  }

  lemma OnesBits(c: nat)
    requires c < BLKBITS
    ensures BitAt(Ones(), c)
  {
    BitAtIs(Ones(), c);
    WordIs(Ones(), c / 32);
    OnesLoad(4 * (c / 32), 4);
    FourBytes();
    WordBits();
    OnesBit(32, c % 32);
  }
}
