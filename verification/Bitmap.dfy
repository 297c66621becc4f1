/** The free-block bitmap: block_layer::alloc_block and block_layer::free_block on disk images. */
module Bitmap {
  import opened Layout
  import opened DiskImage

  const NO_BLOCK: u32 := 0xFFFF_FFFF

  // ---- one byte -------------------------------------------------------------------------------------------

  function Mask(k: nat): bv8
    requires k < 8
  {
    1 << k
  }

  predicate BitSet(b: byte, k: nat)
    requires k < 8
  {
    b as bv8 & Mask(k) != 0
  }

  function FlipBit(b: byte, k: nat): byte
    requires k < 8
  {
    (b as bv8 ^ Mask(k)) as byte
  }

  function ClearBit(b: byte, k: nat): byte
    requires k < 8
  {
    (b as bv8 & !Mask(k)) as byte
  }

  lemma MaskBits(k: nat, j: nat)
    requires k < 8 && j < 8
    ensures !Mask(k) & Mask(j) == if j == k then 0 else Mask(j)
  {
    if k == 0 {} else if k == 1 {} else if k == 2 {} else if k == 3 {}
    else if k == 4 {} else if k == 5 {} else if k == 6 {} else {}
  }

  lemma FlipVector(v: bv8, k: nat, j: nat)
    requires k < 8 && j < 8
    ensures ((v ^ Mask(k)) & Mask(j) != 0) == if j == k then v & Mask(j) == 0 else v & Mask(j) != 0
  {
    if k == 0 {} else if k == 1 {} else if k == 2 {} else if k == 3 {}
    else if k == 4 {} else if k == 5 {} else if k == 6 {} else {}
  }

  lemma AndAssociative(a: bv8, b: bv8, c: bv8)
    ensures (a & b) & c == a & (b & c)
  {
  }

  lemma VectorRoundTrip(v: bv8)
    ensures v as byte as bv8 == v
  {
  }

  lemma BitsOfFlip(b: byte, k: nat, j: nat)
    requires k < 8 && j < 8
    ensures BitSet(FlipBit(b, k), j) == if j == k then !BitSet(b, j) else BitSet(b, j)
  {
    FlipVector(b as bv8, k, j);
    VectorRoundTrip(b as bv8 ^ Mask(k));
  }

  lemma BitsOfClear(b: byte, k: nat, j: nat)
    requires k < 8 && j < 8
    ensures BitSet(ClearBit(b, k), j) == (j != k && BitSet(b, j))
  {
    MaskBits(k, j);
    AndAssociative(b as bv8, !Mask(k), Mask(j));
    VectorRoundTrip(b as bv8 & !Mask(k));
  }

  /** Binary digit k of n. */
  predicate Digit(n: nat, k: nat) {
    if k == 0 then n % 2 == 1 else Digit(n / 2, k - 1)
  }

  lemma VectorHalf(v: bv8)
    ensures (v >> 1) as nat == v as nat / 2 && (v & 1 != 0 <==> v as nat % 2 == 1)
  {
  }

  lemma ShiftBit(v: bv8, k: nat)
    requires 0 < k < 8
    ensures v & Mask(k) != 0 <==> (v >> 1) & Mask(k - 1) != 0
  {
    if k == 1 {} else if k == 2 {} else if k == 3 {} else if k == 4 {}
    else if k == 5 {} else if k == 6 {} else {}
  }

  lemma {:induction false} VectorDigit(v: bv8, k: nat)
    requires k < 8
    ensures v & Mask(k) != 0 <==> Digit(v as nat, k)
    decreases k
  {
    VectorHalf(v);
    if k > 0 {
      ShiftBit(v, k);
      VectorDigit(v >> 1, k - 1);
    }
  }

  lemma NextVector(v: bv8)
    requires v != 255
    ensures (v + 1) as nat == v as nat + 1
  {
  }

  /** Every byte is the value of some vector. */
  lemma {:induction false} ByteVector(b: byte) returns (v: bv8)
    ensures v as nat == b
    decreases b
  {
    if b == 0 {
      v := 0;
    } else {
      v := ByteVector(b - 1);
      NextVector(v);
      v := v + 1;
    }
  }

  /** The bit order: bit k of a byte is its binary digit k. */
  lemma BitIsDigit(b: byte, k: nat)
    requires k < 8
    ensures BitSet(b, k) <==> Digit(b, k)
  {
    var v := ByteVector(b);
    VectorRoundTrip(v);
    VectorDigit(v, k);
  }

  // ---- the bitmap region ----------------------------------------------------------------------------------

  function ByteOf(id: nat): nat {
    id % BITS_PER_BLOCK / 8
  }

  /** The allocation bit of block id. */
  predicate Allocated(d: Image, id: nat)
    requires id < BLOCK_NUM
  {
    BitSet(d[BitmapBlock(id)][ByteOf(id)], id % BITS_PER_BLOCK % 8)
  }

  function ClearInBlock(b: Block, id: nat): Block {
    b[ByteOf(id) := ClearBit(b[ByteOf(id)], id % BITS_PER_BLOCK % 8)]
  }

  function FlipInBlock(b: Block, id: nat): Block {
    b[ByteOf(id) := FlipBit(b[ByteOf(id)], id % BITS_PER_BLOCK % 8)]
  }

  /**
   * free_block.  For an id past the disk the bitmap block may be any block of the disk, or none: the
   * code then clears a bit of that block, or does nothing, and so does this function.
   */
  function FreeBlock(d: Image, id: u32): Image {
    Store(d, BitmapBlock(id), ClearInBlock(Fetch(d, BitmapBlock(id), ZeroBlock()), id))
  }

  /** The least id in from..BLOCK_NUM whose bit is clear, or BLOCK_NUM. */
  function FirstFree(d: Image, from: nat): nat
    requires from <= BLOCK_NUM
    decreases |d| - from
  {
    if from == BLOCK_NUM || !Allocated(d, from) then from else FirstFree(d, from + 1)
  }

  /** alloc_block: the new image and the id, or NO_BLOCK (the code's -1) when no data block is free. */
  function AllocBlock(d: Image): (Image, u32) {
    var id := FirstFree(d, FIRST_DATA);
    if id >= BLOCK_NUM then (d, NO_BLOCK)
    else (d[BitmapBlock(id) := FlipInBlock(d[BitmapBlock(id)], id)], id)
  }

  /** Ids of the data area whose allocation bit is set. */
  ghost function Used(d: Image): set<nat> {
    set id: nat | FIRST_DATA <= id < BLOCK_NUM && Allocated(d, id)
  }

  /** Changing one byte of one bitmap block moves no other bit. */
  lemma OtherBitUnmoved(d: Image, id: nat, v: byte, j: nat)
    requires id < BLOCK_NUM && j < BLOCK_NUM
    requires BitmapBlock(id) != BitmapBlock(j) || ByteOf(id) != ByteOf(j)
    ensures Allocated(d[BitmapBlock(id) := d[BitmapBlock(id)][ByteOf(id) := v]], j) == Allocated(d, j)
  {
  }

  lemma BitsAfterFree(d: Image, id: nat, j: nat)
    requires id < BLOCK_NUM && j < BLOCK_NUM
    ensures Allocated(FreeBlock(d, id), j) == (j != id && Allocated(d, j))
  {
    var v := ClearBit(d[BitmapBlock(id)][ByteOf(id)], id % BITS_PER_BLOCK % 8);
    if BitmapBlock(id) != BitmapBlock(j) || ByteOf(id) != ByteOf(j) {
      OtherBitUnmoved(d, id, v, j);
    } else {
      BitsOfClear(d[BitmapBlock(id)][ByteOf(id)], id % BITS_PER_BLOCK % 8, j % BITS_PER_BLOCK % 8);
      SameByte(id, j);
    }
  }

  lemma SameByte(a: nat, b: nat)
    requires BitmapBlock(a) == BitmapBlock(b) && ByteOf(a) == ByteOf(b)
    ensures a == b <==> a % BITS_PER_BLOCK % 8 == b % BITS_PER_BLOCK % 8
  {
  }

  lemma BitsAfterFlip(d: Image, id: nat, j: nat)
    requires id < BLOCK_NUM && j < BLOCK_NUM && !Allocated(d, id)
    ensures Allocated(d[BitmapBlock(id) := FlipInBlock(d[BitmapBlock(id)], id)], j) == (j == id || Allocated(d, j))
  {
    var v := FlipBit(d[BitmapBlock(id)][ByteOf(id)], id % BITS_PER_BLOCK % 8);
    if BitmapBlock(id) != BitmapBlock(j) || ByteOf(id) != ByteOf(j) {
      OtherBitUnmoved(d, id, v, j);
    } else {
      BitsOfFlip(d[BitmapBlock(id)][ByteOf(id)], id % BITS_PER_BLOCK % 8, j % BITS_PER_BLOCK % 8);
      SameByte(id, j);
    }
  }

  lemma FirstFreeIsLeast(d: Image, from: nat)
    requires from <= BLOCK_NUM
    ensures from <= FirstFree(d, from) <= BLOCK_NUM
    ensures FirstFree(d, from) < BLOCK_NUM ==> !Allocated(d, FirstFree(d, from))
    ensures forall id :: from <= id < FirstFree(d, from) ==> Allocated(d, id)
    decreases BLOCK_NUM - from
  {
    if from < BLOCK_NUM && Allocated(d, from) {
      FirstFreeIsLeast(d, from + 1);
    }
  }

  // ---- the bitmap on the disk -----------------------------------------------------------------------------

  /** Bit q of block b. */
  predicate DiskBit(d: Image, b: nat, q: nat)
    requires b < BLOCK_NUM && q < BITS_PER_BLOCK
  {
    Digit(d[b][q / 8], q % 8)
  }

  lemma BitPosition(id: nat, b: nat, q: nat)
    requires q < BITS_PER_BLOCK
    ensures id == BITS_PER_BLOCK * (b - 1) + q <==> BitmapBlock(id) == b && id % BITS_PER_BLOCK == q
    ensures id % BITS_PER_BLOCK == q <==> ByteOf(id) == q / 8 && id % BITS_PER_BLOCK % 8 == q % 8
  {
  }

  /**
   * free_block clears one bit, that of position id counted from the start of block 1, and changes nothing else;
   * an id past the disk clears a bit of whatever block lies there, and one far enough past it clears none.
   */
  lemma FreeClearsOneBit(d: Image, id: u32, b: nat, q: nat)
    requires b < BLOCK_NUM && q < BITS_PER_BLOCK
    ensures DiskBit(FreeBlock(d, id), b, q) <==> DiskBit(d, b, q) && id != BITS_PER_BLOCK * (b - 1) + q
  {
    var v := FreeBlock(d, id)[b][q / 8];
    BitPosition(id, b, q);
    BitIsDigit(d[b][q / 8], q % 8);
    BitIsDigit(v, q % 8);
    if BitmapBlock(id) == b && ByteOf(id) == q / 8 {
      BitsOfClear(d[b][q / 8], id % BITS_PER_BLOCK % 8, q % 8);
    }
  }

  /** alloc_block sets one bit, that of position id counted from the start of block 1, or none if it returns -1. */
  lemma AllocSetsOneBit(d: Image, b: nat, q: nat)
    requires b < BLOCK_NUM && q < BITS_PER_BLOCK
    ensures var (d', id) := AllocBlock(d);
            DiskBit(d', b, q) <==> DiskBit(d, b, q) || (id != NO_BLOCK && id == BITS_PER_BLOCK * (b - 1) + q)
  {
    var id := FirstFree(d, FIRST_DATA);
    FirstFreeIsLeast(d, FIRST_DATA);
    if id < BLOCK_NUM {
      FlipSetsOneBit(d, id, b, q);
    }
  }

  lemma FlipSetsOneBit(d: Image, id: nat, b: nat, q: nat)
    requires b < BLOCK_NUM && q < BITS_PER_BLOCK && id < BLOCK_NUM && !Allocated(d, id)
    ensures DiskBit(d[BitmapBlock(id) := FlipInBlock(d[BitmapBlock(id)], id)], b, q) <==>
            DiskBit(d, b, q) || id == BITS_PER_BLOCK * (b - 1) + q
  {
    var d' := d[BitmapBlock(id) := FlipInBlock(d[BitmapBlock(id)], id)];
    BitPosition(id, b, q);
    BitIsDigit(d[b][q / 8], q % 8);
    BitIsDigit(d'[b][q / 8], q % 8);
    if BitmapBlock(id) == b && ByteOf(id) == q / 8 {
      BitsOfFlip(d[b][q / 8], id % BITS_PER_BLOCK % 8, q % 8);
    }
  }

  // ---- the bitmap as a set --------------------------------------------------------------------------------

  /** free_block removes its own id from the allocated set and touches nothing past the bitmap. */
  lemma FreeRefinesRemove(d: Image, id: nat)
    requires id < BLOCK_NUM
    ensures Used(FreeBlock(d, id)) == Used(d) - {id}
    ensures forall b :: 9 <= b < BLOCK_NUM ==> FreeBlock(d, id)[b] == d[b]
    ensures forall j :: 0 <= j < BLOCK_NUM && j != id ==> Allocated(FreeBlock(d, id), j) == Allocated(d, j)
  {
    forall j | 0 <= j < BLOCK_NUM
      ensures Allocated(FreeBlock(d, id), j) == (j != id && Allocated(d, j))
    {
      BitsAfterFree(d, id, j);
    }
    assert 1 <= BitmapBlock(id) <= 8;
  }

  /** free_block of any number allocates nothing. */
  lemma UsedShrinks(d: Image, id: u32)
    ensures Used(FreeBlock(d, id)) <= Used(d)
  {
    forall j: nat | j < BLOCK_NUM && Allocated(FreeBlock(d, id), j)
      ensures Allocated(d, j)
    {
      var v := d[BitmapBlock(j)][ByteOf(j)];
      if BitmapBlock(id) == BitmapBlock(j) && ByteOf(id) == ByteOf(j) {
        BitsOfClear(v, id % BITS_PER_BLOCK % 8, j % BITS_PER_BLOCK % 8);
      }
    }
  }

  lemma FlipRefinesAdd(d: Image, id: nat)
    requires FIRST_DATA <= id < BLOCK_NUM && !Allocated(d, id)
    ensures var d' := d[BitmapBlock(id) := FlipInBlock(d[BitmapBlock(id)], id)];
            && Used(d') == Used(d) + {id}
            && (forall b :: 9 <= b < BLOCK_NUM ==> d'[b] == d[b])
            && (forall j :: 0 <= j < BLOCK_NUM && j != id ==> Allocated(d', j) == Allocated(d, j))
  {
    var d' := d[BitmapBlock(id) := FlipInBlock(d[BitmapBlock(id)], id)];
    forall j | 0 <= j < BLOCK_NUM
      ensures Allocated(d', j) == (j == id || Allocated(d, j))
    {
      BitsAfterFlip(d, id, j);
    }
    assert 1 <= BitmapBlock(id) <= 8;
  }

  /** alloc_block adds the least free data block, or reports that there is none. */
  lemma AllocRefinesLeastFree(d: Image)
    ensures var (d', id) := AllocBlock(d);
            && (id == NO_BLOCK <==> Used(d) == DataIds())
            && (id == NO_BLOCK ==> d' == d)
            && (id != NO_BLOCK ==>
                  && FIRST_DATA <= id < BLOCK_NUM
                  && id !in Used(d)
                  && (forall j :: FIRST_DATA <= j < id ==> j in Used(d))
                  && Used(d') == Used(d) + {id}
                  && (forall b :: 9 <= b < BLOCK_NUM ==> d'[b] == d[b])
                  && (forall j :: 0 <= j < BLOCK_NUM && j != id ==> Allocated(d', j) == Allocated(d, j)))
  {
    var id := FirstFree(d, FIRST_DATA);
    FirstFreeIsLeast(d, FIRST_DATA);
    if id < BLOCK_NUM {
      FlipRefinesAdd(d, id);
      assert id in DataIds() && id !in Used(d);
    }
  }

  predicate InRange(lo: nat, id: nat) {
    lo <= id
  }

  ghost function DataIds(): set<nat> {
    Interval(FIRST_DATA, BLOCK_NUM)
  }

  ghost function Interval(lo: nat, hi: nat): set<nat> {
    set id: nat | id < hi && InRange(lo, id)
  }

  lemma IntervalSize(lo: nat, hi: nat)
    requires lo <= hi
    ensures |Interval(lo, hi)| == hi - lo
    decreases hi - lo
  {
    if lo < hi {
      IntervalSize(lo + 1, hi);
      assert Interval(lo, hi) == {lo} + Interval(lo + 1, hi);
    } else {
      assert Interval(lo, hi) == {};
    }
  }

  lemma SubsetSize<T>(a: set<T>, b: set<T>)
    requires a <= b
    ensures |a| <= |b|
    ensures |a| == |b| ==> a == b
  {
    assert b == a + (b - a);
    assert |b| == |a| + |b - a|;
    if |a| == |b| {
      assert b - a == {};
    }
  }

  /** There are 32645 data blocks; the disk is full exactly when that many are allocated. */
  lemma FullMeansAllUsed(d: Image)
    ensures |Used(d)| <= DATA_BLOCKS
    ensures |Used(d)| == DATA_BLOCKS <==> Used(d) == DataIds()
  {
    IntervalSize(FIRST_DATA, BLOCK_NUM);
    SubsetSize(Used(d), DataIds());
  }
}
