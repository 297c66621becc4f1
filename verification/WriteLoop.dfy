/** The loop of write_file, iteration by iteration, on the writes for which it works. */
module WriteLoop {
  import opened Layout
  import opened DiskImage
  import opened Bitmap
  import opened InodeTable
  import opened FileOps
  import opened Ownership

  // ---- arithmetic of the loop's decisions -----------------------------------------------------------------

  /** Bytes in the last block of a file of s > 0 bytes. */
  function LastBytes(s: nat): int {
    s - BLOCK_SIZE * (BlocksFor(s) - 1)
  }

  /** The sizes for which the lagging counter sends block 8 to the direct section. */
  predicate Misplaced(s: nat) {
    DIRECT_BYTES < s < DIRECT_BYTES + BLOCK_SIZE
  }

  /**
   * Slot agreement, exact: writer and reader agree on direct or indirect for every block of the file
   * if and only if the size is not in 4097..4607.
   */
  lemma SlotAgreement(s: nat)
    ensures (forall k: nat :: k < BlocksFor(s) ==> WritesDirect(s, k) == ReadsDirect(k)) <==> !Misplaced(s)
  {
    if Misplaced(s) {
      assert BlocksFor(s) == NDIRECT + 1;
      assert WritesDirect(s, NDIRECT) && !ReadsDirect(NDIRECT);
    } else {
      forall k: nat | k < BlocksFor(s)
        ensures WritesDirect(s, k) == ReadsDirect(k)
      {
      }
    }
  }

  /** The one growth for which the last block is wrongly taken to be there already. */
  predicate GrowsShort(o: nat, s: nat) {
    BlocksFor(s) == BlocksFor(o) + 1 && LastBytes(s) < LastBytes(o)
  }

  /**
   * Reuse decision, exact: growing a file that already has an indirect block, iteration k allocates
   * precisely when the old file has no block k, except at the last block of a short growth.
   */
  lemma ReuseDecision(o: nat, s: nat, k: nat)
    requires DIRECT_BYTES < o <= s && k < BlocksFor(s)
    ensures (Written(s, k) >= o <==> k >= BlocksFor(o)) <==> !(GrowsShort(o, s) && k == BlocksFor(o))
  {
  }

  /** Blocks that the trailing loop frees when a file shrinks from o to s bytes. */
  function FreedOnShrink(o: nat, s: nat): nat
  {
    BlocksFor(o - s)
  }

  /** Shrink accounting, exact: one block too many is freed precisely when the old last block held more bytes. */
  lemma ShrinkAccounting(o: nat, s: nat)
    requires 0 < s < o
    ensures FreedOnShrink(o, s) == BlocksFor(o) - BlocksFor(s) || FreedOnShrink(o, s) == BlocksFor(o) - BlocksFor(s) + 1
    ensures FreedOnShrink(o, s) == BlocksFor(o) - BlocksFor(s) <==> LastBytes(o) <= LastBytes(s)
  {
  }

  /** need_to_overwrite_indirect is set by the loop precisely for sizes from 4608 on. */
  lemma IndirectFlag(s: nat, k: nat)
    requires k <= BlocksFor(s)
    ensures WroteIndirect(s, k) <==> exists j: nat :: j < k && !WritesDirect(s, j)
    ensures WroteIndirect(s, BlocksFor(s)) <==> s >= DIRECT_BYTES + BLOCK_SIZE
  {
    if WroteIndirect(s, k) {
      assert !WritesDirect(s, k - 1);
    }
  }

  /** A write from o to s bytes whose size arithmetic works out. */
  predicate SizesFit(o: nat, s: nat) {
    && s <= MAX_BYTES
    && !Misplaced(s)
    && Min(BlocksFor(o), NDIRECT) <= Min(BlocksFor(s), NDIRECT)
    && (BlocksFor(o) > NDIRECT ==> BlocksFor(s) > NDIRECT)
    && (o > DIRECT_BYTES && s < o ==> LastBytes(o) <= LastBytes(s))
    && (o > DIRECT_BYTES ==> !GrowsShort(o, s))
  }

  /** The first k iterations make the right decisions. */
  predicate LoopFits(o: nat, s: nat, k: nat) {
    && s <= MAX_BYTES && k <= BlocksFor(s)
    && !Misplaced(s)
    && (o > DIRECT_BYTES && GrowsShort(o, s) ==> k <= BlocksFor(o))
  }

  /** What iteration k then does: one of four cases, told apart by k and the old block count. */
  lemma StepKind(o: nat, s: nat, k: nat)
    requires LoopFits(o, s, k + 1)
    ensures WritesDirect(s, k) <==> k < NDIRECT
    ensures NDIRECT <= k && BlocksFor(o) <= NDIRECT ==> s >= o && o <= DIRECT_BYTES
    ensures NDIRECT <= k && BlocksFor(o) > NDIRECT && k >= BlocksFor(o) ==>
              s >= o > DIRECT_BYTES && Written(s, k) >= o
    ensures NDIRECT <= k && k < BlocksFor(o) ==> s < o || (o > DIRECT_BYTES && Written(s, k) < o)
  {
    if o > DIRECT_BYTES && s >= o {
      ReuseDecision(o, s, k);
    }
  }

  // ---- the state of the loop ------------------------------------------------------------------------------

  /**
   * A write under way: the disk and its owners before the write, the inode's number and old record, its old
   * indirect block, and the new contents.
   */
  datatype Job = Job(d0: Image, ow0: Owners, i: nat, x: Inode, prev: Block, data: seq<byte>, g: Garbage) {
    ghost predicate Valid() {
      && BlocksFor(|data|) <= MAX_BLOCKS
      && (forall b :: b in ow0 ==> FIRST_DATA <= b < BLOCK_NUM)
    }

    /** Blocks of the old and of the new contents. */
    function OldBlocks(): nat {
      BlocksFor(x.size)
    }

    function NewBlocks(): nat {
      BlocksFor(|data|)
    }
  }

  /** Slot j belongs to the file after k iterations, when it had n blocks before. */
  predicate HoldsSlot(n: nat, k: nat, j: nat) {
    || (j < NDIRECT && j < k)
    || (NDIRECT <= j < INDIRECT_SLOT && j < Max(k, n))
    || (j == INDIRECT_SLOT && Max(k, n) > NDIRECT)
  }

  function HeldCount(n: nat, k: nat): nat {
    Min(k, NDIRECT) + if Max(k, n) > NDIRECT then Max(k, n) - NDIRECT + 1 else 0
  }

  /** The block that slot j refers to: new pointers are in memory, old ones in the indirect block `prev`. */
  function HeldId(c: Cursor, prev: Block, k: nat, j: nat): u32
    requires ValidCursor(c)
  {
    if j < NDIRECT then c.blocks[j]
    else if j >= INDIRECT_SLOT then c.blocks[NDIRECT]
    else if j < k then Word(c.final, j - NDIRECT)
    else Word(prev, j - NDIRECT)
  }

  ghost function Held(c: Cursor, prev: Block, n: nat, k: nat): map<nat, nat>
    requires ValidCursor(c)
  {
    map j: nat | j <= INDIRECT_SLOT && HoldsSlot(n, k, j) :: HeldId(c, prev, k, j)
  }

  /** Pointers that the first k iterations have not touched. */
  predicate PointersKept(c: Cursor, x: Inode, k: nat)
    requires ValidCursor(c)
  {
    && (forall j :: k <= j < NDIRECT ==> c.blocks[j] == x.blocks[j])
    && (k <= NDIRECT || BlocksFor(x.size) > NDIRECT ==> c.blocks[NDIRECT] == x.blocks[NDIRECT])
  }

  /** Slots filled by the first k iterations hold the new contents. */
  ghost predicate DataPlaced(c: Cursor, k: nat, w: Job)
    requires ValidCursor(c) && k <= w.NewBlocks()
  {
    forall j: nat :: j < k ==> Fetch(c.d, HeldId(c, w.prev, k, j), ZeroBlock()) == Chunk(w.data, j, w.g.fill(j))
  }

  /** Ownership while the write is under way. */
  ghost predicate Mid(c: Cursor, ow: Owners, k: nat, w: Job) {
    && ValidCursor(c)
    && (forall b :: b in ow ==> FIRST_DATA <= b < BLOCK_NUM)
    && OthersKept(w.d0, w.ow0, c.d, ow, w.i)
    && Owns(ow, w.i, Held(c, w.prev, w.OldBlocks(), k))
    && PointersKept(c, w.x, k)
    && (w.OldBlocks() > NDIRECT ==> Fetch(c.d, w.x.blocks[NDIRECT], ZeroBlock()) == w.prev)
  }

  /** The loop invariant after k iterations. */
  ghost predicate LoopInv(c: Cursor, ow: Owners, k: nat, w: Job) {
    w.Valid() && k <= w.NewBlocks() && Mid(c, ow, k, w) && DataPlaced(c, k, w)
  }

  /** The allocated set after k iterations; `base` counts the blocks of the other files. */
  ghost predicate Counted(used: set<nat>, ow: Owners, n: nat, k: nat, base: int) {
    used == ow.Keys && |used| == base + HeldCount(n, k)
  }

  // ---- one slot at a time ---------------------------------------------------------------------------------

  /** d' differs from d at most in block id of the data area. */
  ghost predicate OnlyBlock(d: Image, d': Image, id: nat) {
    forall b :: FIRST_DATA <= b < BLOCK_NUM && b != id ==> d'[b] == d[b]
  }

  /** f' is f with entry v replaced by id. */
  ghost predicate EntryReplaced(f: Block, f': Block, v: nat, id: u32) {
    forall u: nat :: u < NINDIRECT ==> Word(f', u) == if u == v then id else Word(f, u)
  }

  lemma SetWordReplaces(f: Block, v: nat, id: u32)
    requires v < NINDIRECT
    ensures EntryReplaced(f, SetWord(f, v, id), v, id)
  {
    forall u: nat | u < NINDIRECT
      ensures Word(SetWord(f, v, id), u) == if u == v then id else Word(f, u)
    {
      WordOfSetWord(f, v, id, u);
    }
  }

  /** Another owner's block is neither fresh nor one of inode i's. */
  lemma OthersKeptStep(d0: Image, ow0: Owners, d: Image, ow: Owners, i: nat, d': Image, id: nat, k: nat)
    requires OthersKept(d0, ow0, d, ow, i) && OnlyBlock(d, d', id)
    requires forall b :: b in ow0 ==> FIRST_DATA <= b < BLOCK_NUM
    requires id !in ow || ow[id].i == i
    ensures OthersKept(d0, ow0, d', ow[id := Slot(i, k)], i)
  {
  }

  lemma HeldAfterDirect(c: Cursor, c': Cursor, prev: Block, n: nat, k: nat, id: u32)
    requires ValidCursor(c) && k < NDIRECT && c'.blocks == c.blocks[k := id] && c'.final == c.final
    ensures Held(c', prev, n, k + 1) == Held(c, prev, n, k)[k := id as nat]
    ensures k !in Held(c, prev, n, k)
  {
  }

  lemma HeldAfterPointer(c: Cursor, c': Cursor, prev: Block, n: nat, k: nat, id: u32)
    requires ValidCursor(c) && ValidCursor(c') && NDIRECT <= k < MAX_BLOCKS
    requires n > NDIRECT || k > NDIRECT
    requires c'.blocks == c.blocks && EntryReplaced(c.final, c'.final, k - NDIRECT, id)
    requires k < n ==> id == Word(prev, k - NDIRECT)
    ensures Held(c', prev, n, k + 1) == Held(c, prev, n, k)[k := id as nat]
    ensures k in Held(c, prev, n, k) <==> k < n
  {
    var h, h' := Held(c, prev, n, k)[k := id as nat], Held(c', prev, n, k + 1);
    forall j: nat
      ensures j in h <==> j in h'
    {
    }
    forall j: nat | j in h
      ensures h'[j] == h[j]
    {
      if NDIRECT <= j < INDIRECT_SLOT {
        assert Word(c'.final, j - NDIRECT) == if j == k then id else Word(c.final, j - NDIRECT);
      }
    }
  }

  lemma HeldAfterFirstPointer(c: Cursor, c': Cursor, prev: Block, n: nat, ind: u32, id: u32)
    requires ValidCursor(c) && ValidCursor(c') && n <= NDIRECT
    requires c'.blocks == c.blocks[NDIRECT := ind] && EntryReplaced(c.final, c'.final, 0, id)
    ensures Held(c', prev, n, NDIRECT + 1) ==
            Held(c, prev, n, NDIRECT)[INDIRECT_SLOT := ind as nat][NDIRECT := id as nat]
    ensures NDIRECT !in Held(c, prev, n, NDIRECT) && INDIRECT_SLOT !in Held(c, prev, n, NDIRECT)
  {
  }

  lemma HeldIdsAfterPointer(c: Cursor, c': Cursor, prev: Block, k: nat, id: u32)
    requires ValidCursor(c) && ValidCursor(c') && NDIRECT <= k < MAX_BLOCKS
    requires forall j :: 0 <= j < NDIRECT ==> c'.blocks[j] == c.blocks[j]
    requires EntryReplaced(c.final, c'.final, k - NDIRECT, id)
    ensures forall j: nat :: j < k ==> HeldId(c', prev, k + 1, j) == HeldId(c, prev, k, j)
    ensures HeldId(c', prev, k + 1, k) == id
  {
    forall j: nat | j < k
      ensures HeldId(c', prev, k + 1, j) == HeldId(c, prev, k, j)
    {
      if NDIRECT <= j {
        assert Word(c'.final, j - NDIRECT) == Word(c.final, j - NDIRECT);
      }
    }
  }

  /** A block written for slot k < 136 of the file is not its indirect block. */
  lemma PrevKept(c: Cursor, c': Cursor, ow: Owners, k: nat, w: Job, id: nat)
    requires Mid(c, ow, k, w) && OnlyBlock(c.d, c'.d, id)
    requires id in ow ==> ow[id] == Slot(w.i, k) && k < INDIRECT_SLOT
    ensures w.OldBlocks() > NDIRECT ==> Fetch(c'.d, w.x.blocks[NDIRECT], ZeroBlock()) == w.prev
  {
    var n := w.OldBlocks();
    if n > NDIRECT {
      var h := Held(c, w.prev, n, k);
      assert HoldsSlot(n, k, INDIRECT_SLOT) && INDIRECT_SLOT in h;
      assert h[INDIRECT_SLOT] == w.x.blocks[NDIRECT];
      assert ow[w.x.blocks[NDIRECT] as nat] == Slot(w.i, INDIRECT_SLOT);
    }
  }

  lemma OwnsAfterDirect(c: Cursor, c': Cursor, ow: Owners, k: nat, w: Job, id: u32)
    requires ValidCursor(c) && Owns(ow, w.i, Held(c, w.prev, w.OldBlocks(), k)) && k < NDIRECT && id !in ow
    requires c'.blocks == c.blocks[k := id] && c'.final == c.final
    ensures Owns(ow[id as nat := Slot(w.i, k)], w.i, Held(c', w.prev, w.OldBlocks(), k + 1))
  {
    HeldAfterDirect(c, c', w.prev, w.OldBlocks(), k, id);
    AddOwner(ow, w.i, Held(c, w.prev, w.OldBlocks(), k), k, id);
  }

  lemma MidAfterDirect(c: Cursor, c': Cursor, ow: Owners, k: nat, w: Job, id: u32)
    requires Mid(c, ow, k, w) && w.Valid() && k < NDIRECT
    requires id !in ow && FIRST_DATA <= id < BLOCK_NUM && OnlyBlock(c.d, c'.d, id)
    requires c'.blocks == c.blocks[k := id] && c'.final == c.final
    ensures Mid(c', ow[id as nat := Slot(w.i, k)], k + 1, w)
  {
    OwnsAfterDirect(c, c', ow, k, w, id);
    OthersKeptStep(w.d0, w.ow0, c.d, ow, w.i, c'.d, id, k);
    PrevKept(c, c', ow, k, w, id);
  }

  lemma MidAfterPointer(c: Cursor, c': Cursor, ow: Owners, k: nat, w: Job, id: u32)
    requires Mid(c, ow, k, w) && w.Valid() && NDIRECT <= k < MAX_BLOCKS
    requires w.OldBlocks() > NDIRECT || k > NDIRECT
    requires FIRST_DATA <= id < BLOCK_NUM && OnlyBlock(c.d, c'.d, id)
    requires if k < w.OldBlocks() then id == Word(w.prev, k - NDIRECT) else id !in ow
    requires c'.blocks == c.blocks && EntryReplaced(c.final, c'.final, k - NDIRECT, id)
    ensures Mid(c', ow[id as nat := Slot(w.i, k)], k + 1, w)
    ensures k < w.OldBlocks() ==> ow[id as nat := Slot(w.i, k)] == ow
  {
    OwnsAfterPointer(c, c', ow, k, w, id);
    OthersKeptStep(w.d0, w.ow0, c.d, ow, w.i, c'.d, id, k);
    PrevKept(c, c', ow, k, w, id);
  }

  lemma OwnsAfterPointer(c: Cursor, c': Cursor, ow: Owners, k: nat, w: Job, id: u32)
    requires ValidCursor(c) && NDIRECT <= k < MAX_BLOCKS && (w.OldBlocks() > NDIRECT || k > NDIRECT)
    requires Owns(ow, w.i, Held(c, w.prev, w.OldBlocks(), k))
    requires if k < w.OldBlocks() then id == Word(w.prev, k - NDIRECT) else id !in ow
    requires c'.blocks == c.blocks && EntryReplaced(c.final, c'.final, k - NDIRECT, id)
    ensures Owns(ow[id as nat := Slot(w.i, k)], w.i, Held(c', w.prev, w.OldBlocks(), k + 1))
    ensures k < w.OldBlocks() ==> id in ow && ow[id as nat] == Slot(w.i, k) && ow[id as nat := Slot(w.i, k)] == ow
  {
    var h := Held(c, w.prev, w.OldBlocks(), k);
    HeldAfterPointer(c, c', w.prev, w.OldBlocks(), k, id);
    if k < w.OldBlocks() {
      assert h[k] == id && ow[id as nat] == Slot(w.i, k);
      assert h[k := id as nat] == h;
      assert ow[id as nat := Slot(w.i, k)] == ow;
    } else {
      AddOwner(ow, w.i, h, k, id);
    }
  }

  lemma MidAfterFirstPointer(c: Cursor, c': Cursor, ow: Owners, w: Job, ind: u32, id: u32)
    requires Mid(c, ow, NDIRECT, w) && w.Valid() && w.OldBlocks() <= NDIRECT
    requires FIRST_DATA <= ind < BLOCK_NUM && FIRST_DATA <= id < BLOCK_NUM && OnlyBlock(c.d, c'.d, id)
    requires ind !in ow && id !in ow && id != ind
    requires c'.blocks == c.blocks[NDIRECT := ind] && EntryReplaced(c.final, c'.final, 0, id)
    ensures Mid(c', ow[ind as nat := Slot(w.i, INDIRECT_SLOT)][id as nat := Slot(w.i, NDIRECT)], NDIRECT + 1, w)
  {
    var n := w.OldBlocks();
    var h := Held(c, w.prev, n, NDIRECT);
    var ow1 := ow[ind as nat := Slot(w.i, INDIRECT_SLOT)];
    HeldAfterFirstPointer(c, c', w.prev, n, ind, id);
    AddOwner(ow, w.i, h, INDIRECT_SLOT, ind);
    AddOwner(ow1, w.i, h[INDIRECT_SLOT := ind as nat], NDIRECT, id);
    OthersKeptStep(w.d0, w.ow0, c.d, ow, w.i, c.d, ind, INDIRECT_SLOT);
    OthersKeptStep(w.d0, w.ow0, c.d, ow1, w.i, c'.d, id, NDIRECT);
  }

  /** Filling slot k keeps the contents of the slots filled before. */
  lemma DataAfterStep(c: Cursor, c': Cursor, ow: Owners, k: nat, w: Job, id: u32)
    requires Mid(c, ow, k, w) && ValidCursor(c')
    requires k < w.NewBlocks() && k < MAX_BLOCKS && DataPlaced(c, k, w)
    requires OnlyBlock(c.d, c'.d, id) && (id in ow ==> ow[id as nat] == Slot(w.i, k))
    requires forall j: nat :: j < k ==> HeldId(c', w.prev, k + 1, j) == HeldId(c, w.prev, k, j)
    requires HeldId(c', w.prev, k + 1, k) == id && Fetch(c'.d, id, ZeroBlock()) == Chunk(w.data, k, w.g.fill(k))
    ensures DataPlaced(c', k + 1, w)
  {
    forall j: nat | j < k
      ensures Fetch(c'.d, HeldId(c', w.prev, k + 1, j), ZeroBlock()) == Chunk(w.data, j, w.g.fill(j))
    {
      var n := w.OldBlocks();
      var h := Held(c, w.prev, n, k);
      assert HoldsSlot(n, k, j) && j in h && h[j] in ow && ow[h[j]] == Slot(w.i, j);
    }
  }

  // ---- one iteration: ownership and contents --------------------------------------------------------------

  /** Block id now holds block k of the new contents, and nothing else in the data area changed. */
  ghost predicate Placed(c: Cursor, c': Cursor, id: u32, k: nat, w: Job)
    requires k < w.NewBlocks()
  {
    && FIRST_DATA <= id < BLOCK_NUM && OnlyBlock(c.d, c'.d, id)
    && c'.d[id] == Chunk(w.data, k, w.g.fill(k))
  }

  lemma LoopDirect(c: Cursor, c': Cursor, ow: Owners, k: nat, w: Job, id: u32)
    requires LoopInv(c, ow, k, w)
    requires k < w.NewBlocks() && k < NDIRECT && id !in ow && Placed(c, c', id, k, w)
    requires c'.blocks == c.blocks[k := id] && c'.final == c.final
    ensures LoopInv(c', ow[id as nat := Slot(w.i, k)], k + 1, w)
  {
    MidAfterDirect(c, c', ow, k, w, id);
    DataAfterStep(c, c', ow, k, w, id);
  }

  lemma LoopPointer(c: Cursor, c': Cursor, ow: Owners, k: nat, w: Job, id: u32)
    requires LoopInv(c, ow, k, w)
    requires NDIRECT <= k < w.NewBlocks() && (w.OldBlocks() > NDIRECT || k > NDIRECT)
    requires if k < w.OldBlocks() then id == Word(w.prev, k - NDIRECT) && id in ow && ow[id as nat] == Slot(w.i, k)
             else id !in ow
    requires Placed(c, c', id, k, w)
    requires c'.blocks == c.blocks && EntryReplaced(c.final, c'.final, k - NDIRECT, id)
    ensures LoopInv(c', ow[id as nat := Slot(w.i, k)], k + 1, w)
    ensures k < w.OldBlocks() ==> ow[id as nat := Slot(w.i, k)] == ow
  {
    MidAfterPointer(c, c', ow, k, w, id);
    HeldIdsAfterPointer(c, c', w.prev, k, id);
    DataAfterStep(c, c', ow, k, w, id);
  }

  lemma LoopFirstPointer(c: Cursor, c': Cursor, ow: Owners, w: Job, ind: u32, id: u32)
    requires LoopInv(c, ow, NDIRECT, w)
    requires NDIRECT < w.NewBlocks() && w.OldBlocks() <= NDIRECT
    requires ind !in ow && id !in ow && id != ind && FIRST_DATA <= ind < BLOCK_NUM
    requires Placed(c, c', id, NDIRECT, w)
    requires c'.blocks == c.blocks[NDIRECT := ind] && EntryReplaced(c.final, c'.final, 0, id)
    ensures LoopInv(c', ow[ind as nat := Slot(w.i, INDIRECT_SLOT)][id as nat := Slot(w.i, NDIRECT)], NDIRECT + 1, w)
  {
    MidAfterFirstPointer(c, c', ow, w, ind, id);
    HeldIdsAfterPointer(c, c', w.prev, NDIRECT, id);
    DataAfterStep(c, c', ow, NDIRECT, w, id);
  }

  lemma CountAdd(used: set<nat>, ow: Owners, n: nat, k: nat, base: int, id: nat, slot: Slot, used': set<nat>)
    requires Counted(used, ow, n, k, base) && id !in used && used' == used + {id}
    requires k < NDIRECT || (k >= n && Max(k, n) > NDIRECT)
    ensures Counted(used', ow[id := slot], n, k + 1, base)
  {
  }

  lemma CountAddTwo(used: set<nat>, ow: Owners, n: nat, base: int, ind: nat, id: nat, slot1: Slot, slot2: Slot)
    requires Counted(used, ow, n, NDIRECT, base) && n <= NDIRECT
    requires ind !in used && id !in used && id != ind
    ensures Counted(used + {ind} + {id}, ow[ind := slot1][id := slot2], n, NDIRECT + 1, base)
  {
    assert |used + {ind}| == |used| + 1;
  }

  // ---- one iteration on the disk --------------------------------------------------------------------------

  /** PlaceFresh on a disk that is not full. */
  lemma PlaceFrame(d: Image, b: Block) returns (d': Image, id: nat)
    requires |Used(d)| < DATA_BLOCKS
    ensures PlaceFresh(d, b) == (d', id) && id !in Used(d) && FIRST_DATA <= id < BLOCK_NUM
    ensures Used(d') == Used(d) + {id} && |Used(d')| == |Used(d)| + 1
    ensures Table(d') == Table(d)
    ensures d'[id] == b && OnlyBlock(d, d', id)
  {
    var d1;
    d1, id := AllocFrame(d);
    d' := StoreFrame(d1, id, b);
    OnlyBlockAfter(d, d1, d', id);
  }

  lemma OnlyBlockAfter(d: Image, d1: Image, d': Image, id: nat)
    requires SameData(d, d1) && OnlyBlock(d1, d', id)
    ensures OnlyBlock(d, d', id)
  {
  }

  lemma StoreFrame(d: Image, id: nat, b: Block) returns (d': Image)
    requires FIRST_DATA <= id < BLOCK_NUM
    ensures d' == Store(d, id, b) && d'[id] == b && OnlyBlock(d, d', id)
    ensures Used(d') == Used(d) && Table(d') == Table(d)
  {
    StoreKeepsMetadata(d, id, b);
    d' := Store(d, id, b);
  }

  ghost predicate CountedOn(c: Cursor, ow: Owners, k: nat, w: Job, base: int) {
    Counted(Used(c.d), ow, w.OldBlocks(), k, base) && Table(c.d) == Table(w.d0)
  }

  /** The loop invariant together with the disk's metadata. */
  ghost predicate RunningWith(c: Cursor, ow: Owners, k: nat, w: Job, base: int) {
    LoopInv(c, ow, k, w) && CountedOn(c, ow, k, w, base)
  }

  /** The same, for some owner map. */
  ghost predicate Running(c: Cursor, k: nat, w: Job, base: int) {
    exists ow :: RunningWith(c, ow, k, w, base)
  }

  lemma RunningAfterDirect(c: Cursor, c': Cursor, ow: Owners, k: nat, w: Job, id: u32, base: int)
    requires LoopInv(c, ow, k, w)
    requires k < w.NewBlocks() && k < NDIRECT && id !in ow && Placed(c, c', id, k, w)
    requires c'.blocks == c.blocks[k := id] && c'.final == c.final
    requires CountedOn(c', ow[id as nat := Slot(w.i, k)], k + 1, w, base)
    ensures Running(c', k + 1, w, base)
  {
    LoopDirect(c, c', ow, k, w, id);
    assert RunningWith(c', ow[id as nat := Slot(w.i, k)], k + 1, w, base);
  }

  lemma RunningAfterPointer(c: Cursor, c': Cursor, ow: Owners, k: nat, w: Job, id: u32, base: int)
    requires LoopInv(c, ow, k, w)
    requires NDIRECT <= k < w.NewBlocks() && (w.OldBlocks() > NDIRECT || k > NDIRECT)
    requires if k < w.OldBlocks() then id == Word(w.prev, k - NDIRECT) && id in ow && ow[id as nat] == Slot(w.i, k)
             else id !in ow
    requires Placed(c, c', id, k, w)
    requires c'.blocks == c.blocks && EntryReplaced(c.final, c'.final, k - NDIRECT, id)
    requires CountedOn(c', ow[id as nat := Slot(w.i, k)], k + 1, w, base)
    ensures Running(c', k + 1, w, base)
  {
    LoopPointer(c, c', ow, k, w, id);
    assert RunningWith(c', ow[id as nat := Slot(w.i, k)], k + 1, w, base);
  }

  lemma RunningAfterFirst(c: Cursor, c': Cursor, ow: Owners, ow': Owners, w: Job, ind: u32, id: u32, base: int)
    requires LoopInv(c, ow, NDIRECT, w)
    requires NDIRECT < w.NewBlocks() && w.OldBlocks() <= NDIRECT
    requires ind !in ow && id !in ow && id != ind && FIRST_DATA <= ind < BLOCK_NUM
    requires Placed(c, c', id, NDIRECT, w)
    requires c'.blocks == c.blocks[NDIRECT := ind] && EntryReplaced(c.final, c'.final, 0, id)
    requires ow' == ow[ind as nat := Slot(w.i, INDIRECT_SLOT)][id as nat := Slot(w.i, NDIRECT)]
    requires CountedOn(c', ow', NDIRECT + 1, w, base)
    ensures Running(c', NDIRECT + 1, w, base)
  {
    LoopFirstPointer(c, c', ow, w, ind, id);
    assert RunningWith(c', ow', NDIRECT + 1, w, base);
  }

  lemma SameOwner(ow: Owners, id: nat, slot: Slot)
    requires id in ow && ow[id] == slot
    ensures ow[id := slot] == ow
  {
  }

  lemma StepDirect(c: Cursor, ow: Owners, k: nat, w: Job, base: int) returns (c': Cursor)
    requires RunningWith(c, ow, k, w, base) && k < w.NewBlocks() && k < NDIRECT && |Used(c.d)| < DATA_BLOCKS
    ensures c' == (var (d', id) := PlaceFresh(c.d, Chunk(w.data, k, w.g.fill(k)));
                   Cursor(d', c.blocks[k := id], c.final))
    ensures Running(c', k + 1, w, base)
  {
    var d', id := PlaceFrame(c.d, Chunk(w.data, k, w.g.fill(k)));
    c' := Cursor(d', c.blocks[k := id], c.final);
    CountAdd(Used(c.d), ow, w.OldBlocks(), k, base, id, Slot(w.i, k), Used(d'));
    RunningAfterDirect(c, c', ow, k, w, id, base);
  }

  /** StepGrow on a disk that is not full. */
  lemma GrowFrame(c: Cursor, k: nat, b: Block) returns (c': Cursor, id: nat)
    requires ValidCursor(c) && NDIRECT <= k < MAX_BLOCKS && |Used(c.d)| < DATA_BLOCKS
    ensures c' == StepGrow(c, k, b) && id !in Used(c.d) && FIRST_DATA <= id < BLOCK_NUM
    ensures Used(c'.d) == Used(c.d) + {id} && Table(c'.d) == Table(c.d)
    ensures c'.d[id] == b && OnlyBlock(c.d, c'.d, id)
    ensures c'.blocks == c.blocks && EntryReplaced(c.final, c'.final, k - NDIRECT, id)
  {
    var d';
    d', id := PlaceFrame(c.d, b);
    var final := SetWord(c.final, k - NDIRECT, id);
    SetWordReplaces(c.final, k - NDIRECT, id);
    c' := Cursor(d', c.blocks, final);
  }

  /** StepNewIndirect on a disk with two free blocks. */
  lemma FirstFrame(c: Cursor, b: Block) returns (c': Cursor, ind: nat, id: nat)
    requires ValidCursor(c) && |Used(c.d)| + 1 < DATA_BLOCKS
    ensures c' == StepNewIndirect(c, NDIRECT, b)
    ensures ind !in Used(c.d) && id !in Used(c.d) && id != ind
    ensures FIRST_DATA <= ind < BLOCK_NUM && FIRST_DATA <= id < BLOCK_NUM
    ensures Used(c'.d) == Used(c.d) + {ind} + {id} && Table(c'.d) == Table(c.d)
    ensures c'.d[id] == b && OnlyBlock(c.d, c'.d, id)
    ensures c'.blocks == c.blocks[NDIRECT := ind] && EntryReplaced(c.final, c'.final, 0, id)
  {
    var d1, d';
    d1, ind := AllocFrame(c.d);
    d', id := PlaceFrame(d1, b);
    c' := Cursor(d', c.blocks[NDIRECT := ind], SetWord(c.final, 0, id));
    SetWordReplaces(c.final, 0, id);
    OnlyBlockAfter(c.d, d1, d', id);
  }

  /** StepReuse when the old entry is a block of the data area. */
  lemma ReuseFrame(c: Cursor, k: nat, b: Block, unread: Block, id: nat) returns (c': Cursor)
    requires ValidCursor(c) && NDIRECT <= k < MAX_BLOCKS && c.blocks[NDIRECT] < BLOCK_NUM
    requires FIRST_DATA <= id < BLOCK_NUM && id == Word(c.d[c.blocks[NDIRECT]], k - NDIRECT)
    ensures c' == StepReuse(c, k, b, unread)
    ensures Used(c'.d) == Used(c.d) && Table(c'.d) == Table(c.d)
    ensures c'.d[id] == b && OnlyBlock(c.d, c'.d, id)
    ensures c'.blocks == c.blocks && EntryReplaced(c.final, c'.final, k - NDIRECT, id)
  {
    var d' := StoreFrame(c.d, id, b);
    c' := StepReuse(c, k, b, unread);
    SetWordReplaces(c.final, k - NDIRECT, id);
  }

  lemma StepGrows(c: Cursor, ow: Owners, k: nat, w: Job, base: int) returns (c': Cursor)
    requires RunningWith(c, ow, k, w, base) && NDIRECT <= k < w.NewBlocks() && w.OldBlocks() <= k
    requires w.OldBlocks() > NDIRECT || k > NDIRECT
    requires |Used(c.d)| < DATA_BLOCKS
    ensures c' == StepGrow(c, k, Chunk(w.data, k, w.g.fill(k)))
    ensures Running(c', k + 1, w, base)
  {
    var id;
    c', id := GrowFrame(c, k, Chunk(w.data, k, w.g.fill(k)));
    CountAdd(Used(c.d), ow, w.OldBlocks(), k, base, id, Slot(w.i, k), Used(c'.d));
    RunningAfterPointer(c, c', ow, k, w, id, base);
  }

  lemma StepFirst(c: Cursor, ow: Owners, w: Job, base: int) returns (c': Cursor)
    requires RunningWith(c, ow, NDIRECT, w, base) && NDIRECT < w.NewBlocks() && w.OldBlocks() <= NDIRECT
    requires |Used(c.d)| + 1 < DATA_BLOCKS
    ensures c' == StepNewIndirect(c, NDIRECT, Chunk(w.data, NDIRECT, w.g.fill(NDIRECT)))
    ensures Running(c', NDIRECT + 1, w, base)
  {
    var ind, id;
    c', ind, id := FirstFrame(c, Chunk(w.data, NDIRECT, w.g.fill(NDIRECT)));
    CountAddTwo(Used(c.d), ow, w.OldBlocks(), base, ind, id, Slot(w.i, INDIRECT_SLOT), Slot(w.i, NDIRECT));
    var ow' := ow[ind := Slot(w.i, INDIRECT_SLOT)][id := Slot(w.i, NDIRECT)];
    RunningAfterFirst(c, c', ow, ow', w, ind, id, base);
  }

  lemma StepReuses(c: Cursor, ow: Owners, k: nat, w: Job, base: int) returns (c': Cursor)
    requires RunningWith(c, ow, k, w, base) && NDIRECT <= k < w.NewBlocks() && k < w.OldBlocks()
    ensures c' == StepReuse(c, k, Chunk(w.data, k, w.g.fill(k)), w.g.unread(k))
    ensures Running(c', k + 1, w, base)
  {
    assert HeldCount(w.OldBlocks(), k + 1) == HeldCount(w.OldBlocks(), k);
    var id := ReusedId(c, ow, k, w);
    c' := ReuseFrame(c, k, Chunk(w.data, k, w.g.fill(k)), w.g.unread(k), id);
    SameOwner(ow, id, Slot(w.i, k));
    assert CountedOn(c', ow, k + 1, w, base);
    RunningAfterPointer(c, c', ow, k, w, id, base);
  }

  lemma ReusedId(c: Cursor, ow: Owners, k: nat, w: Job) returns (id: u32)
    requires Mid(c, ow, k, w) && NDIRECT <= k < w.OldBlocks() && k < MAX_BLOCKS
    ensures id == Word(w.prev, k - NDIRECT) && FIRST_DATA <= id < BLOCK_NUM && id in ow && ow[id as nat] == Slot(w.i, k)
    ensures FIRST_DATA <= c.blocks[NDIRECT] < BLOCK_NUM && c.d[c.blocks[NDIRECT]] == w.prev
  {
    id := Word(w.prev, k - NDIRECT);
    var h := Held(c, w.prev, w.OldBlocks(), k);
    assert k in h && h[k] == id && INDIRECT_SLOT in h && h[INDIRECT_SLOT] == c.blocks[NDIRECT];
  }
}
