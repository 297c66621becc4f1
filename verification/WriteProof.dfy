/** write_file as a whole: a fitting write keeps the disk consistent and stores the new contents. */
module WriteProof {
  import opened Layout
  import opened DiskImage
  import opened Bitmap
  import opened InodeTable
  import opened FileOps
  import opened Ownership
  import opened Files
  import opened WriteLoop

  // ---- before the loop: the direct blocks are freed -------------------------------------------------------

  /** The owners without the direct blocks of inode i. */
  ghost function DropDirect(ow: Owners, i: nat): Owners {
    map b | b in ow && !(ow[b].i == i && ow[b].k < NDIRECT) :: ow[b]
  }

  lemma DropDirectKeys(used: set<nat>, t: seq<Inode>, d: Image, ow: Owners, i: nat, freed: set<nat>)
    requires Agrees(used, t, d, ow) && Live(t, i)
    requires freed == Ids(t[i].blocks[..NDIRECT])
    ensures DropDirect(ow, i).Keys == used - freed
  {
    DirectPointers(used, t, d, ow, i);
    var bs := t[i].blocks[..NDIRECT];
    forall b | b in ow && ow[b].i == i && ow[b].k < NDIRECT
      ensures b in freed
    {
      assert bs[ow[b].k] == b;
    }
    forall b | b in freed && b in ow
      ensures ow[b].i == i && ow[b].k < NDIRECT
    {
      var j :| 0 <= j < |bs| && bs[j] == b;
      assert t[i].blocks[j] == b;
    }
  }

  lemma HeldBeforeLoop(used: set<nat>, t: seq<Inode>, d: Image, ow: Owners, i: nat, c: Cursor, prev: Block)
    requires Agrees(used, t, d, ow) && Live(t, i) && ValidCursor(c) && c.blocks == t[i].blocks
    requires BlocksFor(t[i].size) > NDIRECT ==> prev == Fetch(d, t[i].blocks[NDIRECT], ZeroBlock())
    ensures Owns(DropDirect(ow, i), i, Held(c, prev, BlocksFor(t[i].size), 0))
  {
    var x, n := t[i], BlocksFor(t[i].size);
    var m, h := SlotMap(d, x), Held(c, prev, n, 0);
    assert FileOk(d, x, ow, i);
    forall j: nat
      ensures j in h <==> j in m && j >= NDIRECT
      ensures j in h ==> h[j] == m[j]
    {
      assert HoldsSlot(n, 0, j) && j <= INDIRECT_SLOT <==> UsesSlot(x.size, j) && NDIRECT <= j <= INDIRECT_SLOT;
    }
  }

  /** Freeing the direct blocks gives back as many blocks as there were. */
  lemma DirectCount(used: set<nat>, t: seq<Inode>, d: Image, ow: Owners, i: nat)
    requires Agrees(used, t, d, ow) && Live(t, i)
    ensures |used - Ids(t[i].blocks[..NDIRECT])| == |used| - Min(BlocksFor(t[i].size), NDIRECT)
  {
    DirectSlots(used, t, d, ow, i);
    SlotsCount(used, ow, i, t[i].blocks[..NDIRECT], Min(BlocksFor(t[i].size), NDIRECT));
  }

  /** The first n ids are those of slots 0, 1, ..., and the rest are null. */
  ghost predicate SlotsThenNulls(ow: Owners, i: nat, ids: seq<u32>, n: nat) {
    && n <= |ids| && (forall j :: 0 <= j < n ==> ids[j] in ow && ow[ids[j] as nat] == Slot(i, j))
    && forall j :: n <= j < |ids| ==> ids[j] == 0
  }

  lemma DirectSlots(used: set<nat>, t: seq<Inode>, d: Image, ow: Owners, i: nat)
    requires Agrees(used, t, d, ow) && Live(t, i)
    ensures SlotsThenNulls(ow, i, t[i].blocks[..NDIRECT], Min(BlocksFor(t[i].size), NDIRECT))
  {
    DirectPointers(used, t, d, ow, i);
  }

  lemma SlotsCount(used: set<nat>, ow: Owners, i: nat, ids: seq<u32>, n: nat)
    requires used == ow.Keys && SlotsThenNulls(ow, i, ids, n) && forall b :: b in ow ==> b >= FIRST_DATA
    ensures |used - Ids(ids)| == |used| - n
  {
    FreedCount(used, ids, n);
  }

  /** The job of writing `data` to inode i. */
  ghost function JobFor(d: Image, ow: Owners, i: nat, data: seq<byte>, g: Garbage): Job
    requires i < INODE_NUM
  {
    var x := Table(d)[i];
    Job(d, ow, i, x, Fetch(d, x.blocks[NDIRECT], ZeroBlock()), data, g)
  }

  /** Blocks held by files other than i. */
  ghost function OtherBlocks(d: Image, i: nat): int
    requires i < INODE_NUM
  {
    |Used(d)| - SlotCount(Table(d)[i].size)
  }

  lemma MidBeforeLoop(used: set<nat>, t: seq<Inode>, c: Cursor, w: Job)
    requires Agrees(used, t, w.d0, w.ow0) && Live(t, w.i) && w.x == t[w.i]
    requires ValidCursor(c) && c.blocks == w.x.blocks && SameData(w.d0, c.d)
    requires w.prev == Fetch(w.d0, w.x.blocks[NDIRECT], ZeroBlock())
    ensures Mid(c, DropDirect(w.ow0, w.i), 0, w)
  {
    HeldBeforeLoop(used, t, w.d0, w.ow0, w.i, c, w.prev);
    OthersBeforeLoop(w.d0, w.ow0, c.d, w.i);
    if w.OldBlocks() > NDIRECT {
      IndirectPointer(used, t, w.d0, w.ow0, w.i);
    }
  }

  lemma OthersBeforeLoop(d0: Image, ow0: Owners, d: Image, i: nat)
    requires SameData(d0, d) && forall b :: b in ow0 ==> FIRST_DATA <= b < BLOCK_NUM
    ensures OthersKept(d0, ow0, d, DropDirect(ow0, i), i)
  {
  }

  lemma CountedBeforeLoop(d: Image, ow: Owners, i: nat, d1: Image)
    requires Consistent(d, ow) && Live(Table(d), i)
    requires Used(d1) == Used(d) - Ids(Table(d)[i].blocks[..NDIRECT])
    ensures Counted(Used(d1), DropDirect(ow, i), BlocksFor(Table(d)[i].size), 0, OtherBlocks(d, i))
  {
    var t := Table(d);
    DropDirectKeys(Used(d), t, d, ow, i, Ids(t[i].blocks[..NDIRECT]));
    DirectCount(Used(d), t, d, ow, i);
  }

  lemma RunningBeforeLoop(d: Image, ow: Owners, w: Job) returns (c: Cursor)
    requires Consistent(d, ow) && Live(Table(d), w.i) && |w.data| <= MAX_BYTES
    requires w == JobFor(d, ow, w.i, w.data, w.g)
    ensures c == StartWrite(d, w.x, w.g)
    ensures Running(c, 0, w, OtherBlocks(d, w.i))
  {
    DirectPointers(Used(d), Table(d), d, ow, w.i);
    FreeAllFrame(d, w.x.blocks[..NDIRECT]);
    c := StartWrite(d, w.x, w.g);
    MidBeforeLoop(Used(d), Table(d), c, w);
    CountedBeforeLoop(d, ow, w.i, c.d);
    RunningAtZero(c, DropDirect(ow, w.i), w, OtherBlocks(d, w.i));
  }

  lemma RunningAtZero(c: Cursor, ow: Owners, w: Job, base: int)
    requires Mid(c, ow, 0, w) && w.Valid() && Table(c.d) == Table(w.d0)
    requires Counted(Used(c.d), ow, w.OldBlocks(), 0, base)
    ensures RunningWith(c, ow, 0, w, base)
  {
  }

  // ---- the loop -------------------------------------------------------------------------------------------

  /** One iteration that makes the right decision. */
  lemma RunningStep(c: Cursor, k: nat, w: Job, base: int) returns (c': Cursor)
    requires Running(c, k, w, base) && k < w.NewBlocks() && ValidCursor(c)
    requires w.x.size <= MAX_BYTES && LoopFits(w.x.size, |w.data|, k + 1)
    requires base + HeldCount(w.OldBlocks(), k + 1) <= DATA_BLOCKS
    ensures c' == WriteStep(c, w.data, w.x.size, k, w.g)
    ensures Running(c', k + 1, w, base)
  {
    StepKind(w.x.size, |w.data|, k);
    var ow :| RunningWith(c, ow, k, w, base);
    if k < NDIRECT {
      c' := StepDirect(c, ow, k, w, base);
    } else if k < w.OldBlocks() {
      c' := StepReuses(c, ow, k, w, base);
    } else if w.OldBlocks() <= NDIRECT && k == NDIRECT {
      c' := StepFirst(c, ow, w, base);
    } else {
      c' := StepGrows(c, ow, k, w, base);
    }
  }

  lemma {:induction false} RunningUpTo(c: Cursor, w: Job, base: int, k: nat) returns (c': Cursor)
    requires ValidCursor(c) && Running(c, 0, w, base) && k <= w.NewBlocks()
    requires w.x.size <= MAX_BYTES && LoopFits(w.x.size, |w.data|, k)
    requires base + HeldCount(w.OldBlocks(), k) <= DATA_BLOCKS
    ensures c' == WriteUpTo(c, w.data, w.x.size, k, w.g)
    ensures Running(c', k, w, base)
    decreases k
  {
    if k == 0 {
      c' := c;
    } else {
      var j := k - 1;
      assert LoopFits(w.x.size, |w.data|, j) && j + 1 == k;
      var c1 := RunningUpTo(c, w, base, j);
      c' := RunningNext(c, c1, w, base, j, k);
    }
  }

  lemma RunningNext(c: Cursor, c1: Cursor, w: Job, base: int, j: nat, k: nat) returns (c': Cursor)
    requires ValidCursor(c) && Running(c1, j, w, base) && j < w.NewBlocks() && k == j + 1
    requires w.x.size <= MAX_BYTES && LoopFits(w.x.size, |w.data|, k)
    requires base + HeldCount(w.OldBlocks(), k) <= DATA_BLOCKS
    requires c1 == WriteUpTo(c, w.data, w.x.size, j, w.g)
    ensures c' == WriteUpTo(c, w.data, w.x.size, k, w.g) && Running(c', k, w, base)
  {
    c' := RunningStep(c1, j, w, base);
    RunningAt(c', j, k, w, base);
    UnfoldWrite(c, w.data, w.x.size, j, w.g, c1, c');
  }

  lemma RunningAt(c: Cursor, j: nat, k: nat, w: Job, base: int)
    requires Running(c, j + 1, w, base) && k == j + 1
    ensures Running(c, k, w, base)
  {
  }

  // ---- after the loop -------------------------------------------------------------------------------------

  /** The owners without the blocks from nb on, of inode i. */
  ghost function DropTail(ow: Owners, i: nat, nb: nat): Owners {
    map b | b in ow && !(ow[b].i == i && nb <= ow[b].k < INDIRECT_SLOT) :: ow[b]
  }

  /** The slots of the new file, once the loop is done and the tail has been dropped. */
  ghost function FinalSlots(c: Cursor, nb: nat): map<nat, nat>
    requires ValidCursor(c)
  {
    map j: nat | j <= INDIRECT_SLOT && HoldsSlot(0, nb, j) :: HeldId(c, ZeroBlock(), nb, j)
  }

  lemma OwnsAfterTail(c: Cursor, ow: Owners, i: nat, prev: Block, n: nat, nb: nat)
    requires ValidCursor(c) && Owns(ow, i, Held(c, prev, n, nb)) && nb <= MAX_BLOCKS
    requires n > NDIRECT ==> nb > NDIRECT
    ensures Owns(DropTail(ow, i, nb), i, FinalSlots(c, nb))
  {
    var h, f := Held(c, prev, n, nb), FinalSlots(c, nb);
    forall j: nat
      ensures j in f <==> j in h && !(nb <= j < INDIRECT_SLOT)
      ensures j in f ==> f[j] == h[j]
    {
    }
  }

  /** The freed entries are the blocks of the old file past the new end. */
  lemma TailKeys(c: Cursor, ow: Owners, i: nat, prev: Block, n: nat, nb: nat, ids: seq<u32>)
    requires ValidCursor(c) && Owns(ow, i, Held(c, prev, n, nb)) && NDIRECT < nb <= n <= MAX_BLOCKS
    requires |ids| == n - nb && forall x :: 0 <= x < |ids| ==> ids[x] == Word(prev, nb - NDIRECT + x)
    ensures DropTail(ow, i, nb).Keys == ow.Keys - Ids(ids)
    ensures forall x :: 0 <= x < |ids| ==> ids[x] in ow
  {
    var h := Held(c, prev, n, nb);
    forall x | 0 <= x < |ids|
      ensures ids[x] in ow && ow[ids[x] as nat] == Slot(i, nb + x)
    {
      assert nb + x in h && h[nb + x] == ids[x];
    }
    forall b | b in ow && ow[b].i == i && nb <= ow[b].k < INDIRECT_SLOT
      ensures b in Ids(ids)
    {
      assert ids[ow[b].k - nb] == b;
    }
  }

  lemma OthersAfterTail(d0: Image, ow0: Owners, d: Image, ow: Owners, i: nat, nb: nat)
    requires OthersKept(d0, ow0, d, ow, i)
    ensures OthersKept(d0, ow0, d, DropTail(ow, i, nb), i)
  {
  }

  lemma OthersAcross(d0: Image, ow0: Owners, d: Image, ow: Owners, i: nat, d': Image)
    requires OthersKept(d0, ow0, d, ow, i) && SameData(d, d')
    requires forall b :: b in ow0 ==> FIRST_DATA <= b < BLOCK_NUM
    ensures OthersKept(d0, ow0, d', ow, i)
  {
  }

  /** The new contents are in place: every slot of the new file holds its chunk. */
  ghost predicate ChunksAt(d: Image, c: Cursor, w: Job)
    requires ValidCursor(c)
  {
    forall j: nat :: j < w.NewBlocks() ==>
      Fetch(d, HeldId(c, ZeroBlock(), w.NewBlocks(), j), ZeroBlock()) == Chunk(w.data, j, w.g.fill(j))
  }

  /** Ownership and contents between the loop and the update of the inode. */
  ghost predicate SettledWith(d: Image, ow: Owners, c: Cursor, w: Job) {
    && ValidCursor(c) && w.NewBlocks() <= MAX_BLOCKS
    && (forall b :: b in ow ==> FIRST_DATA <= b < BLOCK_NUM)
    && OthersKept(w.d0, w.ow0, d, ow, w.i)
    && Owns(ow, w.i, FinalSlots(c, w.NewBlocks()))
    && ChunksAt(d, c, w)
  }

  lemma SettleAfterFrees(c: Cursor, ow: Owners, w: Job, d1: Image)
    requires LoopInv(c, ow, w.NewBlocks(), w) && SameData(c.d, d1)
    requires w.OldBlocks() > NDIRECT ==> w.NewBlocks() > NDIRECT
    ensures SettledWith(d1, DropTail(ow, w.i, w.NewBlocks()), c, w)
  {
    var nb := w.NewBlocks();
    OwnsAfterTail(c, ow, w.i, w.prev, w.OldBlocks(), nb);
    OthersAcross(w.d0, w.ow0, c.d, ow, w.i, d1);
    OthersAfterTail(w.d0, w.ow0, d1, ow, w.i, nb);
    ChunksAfterLoop(c, ow, w, d1);
  }

  lemma ChunksAfterLoop(c: Cursor, ow: Owners, w: Job, d1: Image)
    requires LoopInv(c, ow, w.NewBlocks(), w) && SameData(c.d, d1)
    ensures ChunksAt(d1, c, w)
  {
    var nb, h := w.NewBlocks(), Held(c, w.prev, w.OldBlocks(), w.NewBlocks());
    forall j: nat | j < nb
      ensures Fetch(d1, HeldId(c, ZeroBlock(), nb, j), ZeroBlock()) == Chunk(w.data, j, w.g.fill(j))
    {
      assert HeldId(c, ZeroBlock(), nb, j) == HeldId(c, w.prev, nb, j);
      assert HoldsSlot(w.OldBlocks(), nb, j) && j in h && h[j] in ow;
    }
  }

  /** Writing the indirect block disturbs no data block. */
  lemma SettleAfterFlush(d: Image, ow: Owners, c: Cursor, w: Job, d': Image)
    requires SettledWith(d, ow, c, w) && w.Valid() && w.NewBlocks() > NDIRECT
    requires c.blocks[NDIRECT] < BLOCK_NUM ==> OnlyBlock(d, d', c.blocks[NDIRECT]) && d'[c.blocks[NDIRECT]] == c.final
    ensures FIRST_DATA <= c.blocks[NDIRECT] < BLOCK_NUM
    ensures SettledWith(d', ow, c, w)
  {
    var nb, ind, f := w.NewBlocks(), c.blocks[NDIRECT], FinalSlots(c, w.NewBlocks());
    assert HoldsSlot(0, nb, INDIRECT_SLOT) && INDIRECT_SLOT in f && f[INDIRECT_SLOT] == ind;
    assert ow[ind as nat] == Slot(w.i, INDIRECT_SLOT);
    OthersKeptStep(w.d0, w.ow0, d, ow, w.i, d', ind, INDIRECT_SLOT);
    assert ow[ind as nat := Slot(w.i, INDIRECT_SLOT)] == ow;
    forall j: nat | j < nb
      ensures Fetch(d', HeldId(c, ZeroBlock(), nb, j), ZeroBlock()) == Chunk(w.data, j, w.g.fill(j))
    {
      assert HoldsSlot(0, nb, j) && j in f && ow[f[j]] == Slot(w.i, j);
    }
  }

  /** All that is left to do is to store the inode. */
  ghost predicate SettledOn(d: Image, ow: Owners, c: Cursor, w: Job) {
    && SettledWith(d, ow, c, w)
    && Used(d) == ow.Keys && Table(d) == Table(w.d0)
    && (w.NewBlocks() > NDIRECT ==> Fetch(d, c.blocks[NDIRECT], ZeroBlock()) == c.final)
  }

  ghost predicate Settled(d: Image, c: Cursor, w: Job) {
    exists ow :: SettledOn(d, ow, c, w)
  }

  /** No indirect section: the null indirect pointer is freed. */
  lemma FinishShort(c: Cursor, w: Job, base: int) returns (d': Image)
    requires ValidCursor(c) && Running(c, w.NewBlocks(), w, base)
    requires w.NewBlocks() <= NDIRECT && w.OldBlocks() <= NDIRECT
    requires c.blocks[NDIRECT] == 0
    ensures d' == FreeBlock(c.d, c.blocks[NDIRECT])
    ensures Settled(d', c, w)
  {
    d' := FreeBlock(c.d, 0);
    var ow :| RunningWith(c, ow, w.NewBlocks(), w, base);
    var ow' := DropTail(ow, w.i, w.NewBlocks());
    FreeRefinesRemove(c.d, 0);
    SameBlocksSameTable(c.d, d');
    SettleAfterFrees(c, ow, w, d');
    NoTail(c, ow, w.i, w.prev, w.OldBlocks(), w.NewBlocks());
    assert SettledOn(d', ow', c, w);
  }

  lemma NoTail(c: Cursor, ow: Owners, i: nat, prev: Block, n: nat, nb: nat)
    requires ValidCursor(c) && Owns(ow, i, Held(c, prev, n, nb)) && (n <= nb || n <= NDIRECT)
    ensures DropTail(ow, i, nb) == ow
  {
    var h := Held(c, prev, n, nb);
    forall b | b in ow && ow[b].i == i
      ensures !(nb <= ow[b].k < INDIRECT_SLOT)
    {
      assert ow[b].k in h;
    }
  }

  /** The indirect block is written back. */
  lemma FinishFlush(c: Cursor, ow: Owners, w: Job, d1: Image) returns (d': Image)
    requires SettledWith(d1, ow, c, w) && w.Valid() && w.NewBlocks() > NDIRECT
    requires Used(d1) == ow.Keys && Table(d1) == Table(w.d0)
    ensures d' == Store(d1, c.blocks[NDIRECT], c.final)
    ensures SettledOn(d', ow, c, w)
  {
    var ind := c.blocks[NDIRECT];
    assert INDIRECT_SLOT in FinalSlots(c, w.NewBlocks()) && FinalSlots(c, w.NewBlocks())[INDIRECT_SLOT] == ind;
    d' := StoreFrame(d1, ind, c.final);
    SettleAfterFlush(d1, ow, c, w, d');
  }

  /** Growing or equal size: nothing is freed. */
  lemma FinishGrow(c: Cursor, w: Job, base: int) returns (d': Image)
    requires ValidCursor(c) && Running(c, w.NewBlocks(), w, base)
    requires w.NewBlocks() > NDIRECT && w.OldBlocks() <= w.NewBlocks()
    ensures d' == Store(c.d, c.blocks[NDIRECT], c.final)
    ensures Settled(d', c, w)
  {
    var ow :| RunningWith(c, ow, w.NewBlocks(), w, base);
    var ow' := DropTail(ow, w.i, w.NewBlocks());
    SettleAfterFrees(c, ow, w, c.d);
    NoTail(c, ow, w.i, w.prev, w.OldBlocks(), w.NewBlocks());
    d' := FinishFlush(c, ow', w, c.d);
  }

  /** The blocks past the new end are freed; the indirect block is still to be written. */
  ghost predicate Trimmed(d: Image, c: Cursor, w: Job) {
    exists ow :: SettledWith(d, ow, c, w) && Used(d) == ow.Keys && Table(d) == Table(w.d0)
  }

  lemma FinishTrim(c: Cursor, w: Job, base: int, ids: seq<u32>) returns (d1: Image)
    requires ValidCursor(c) && Running(c, w.NewBlocks(), w, base)
    requires NDIRECT < w.NewBlocks() <= w.OldBlocks() <= MAX_BLOCKS
    requires |ids| == w.OldBlocks() - w.NewBlocks()
    requires forall x :: 0 <= x < |ids| ==> ids[x] == Word(w.prev, w.NewBlocks() - NDIRECT + x)
    ensures d1 == FreeAll(c.d, ids) && Trimmed(d1, c, w)
  {
    var ow :| RunningWith(c, ow, w.NewBlocks(), w, base);
    d1 := TrimWith(c, ow, w, ids);
  }

  lemma TrimWith(c: Cursor, ow: Owners, w: Job, ids: seq<u32>) returns (d1: Image)
    requires ValidCursor(c) && LoopInv(c, ow, w.NewBlocks(), w) && Used(c.d) == ow.Keys && Table(c.d) == Table(w.d0)
    requires NDIRECT < w.NewBlocks() <= w.OldBlocks() <= MAX_BLOCKS
    requires |ids| == w.OldBlocks() - w.NewBlocks()
    requires forall x :: 0 <= x < |ids| ==> ids[x] == Word(w.prev, w.NewBlocks() - NDIRECT + x)
    ensures d1 == FreeAll(c.d, ids) && Trimmed(d1, c, w)
  {
    TailKeys(c, ow, w.i, w.prev, w.OldBlocks(), w.NewBlocks(), ids);
    d1 := FreeAll(c.d, ids);
    TailFreed(c.d, ow, ids);
    TrimSettles(c, ow, w, d1);
  }

  /** Freeing owned ids. */
  lemma TailFreed(d: Image, ow: Owners, ids: seq<u32>)
    requires Used(d) == ow.Keys && forall b :: b in ow ==> b < BLOCK_NUM
    requires forall x :: 0 <= x < |ids| ==> ids[x] in ow
    ensures Used(FreeAll(d, ids)) == ow.Keys - Ids(ids) && Table(FreeAll(d, ids)) == Table(d)
    ensures SameData(d, FreeAll(d, ids))
  {
    FreeAllFrame(d, ids);
  }

  lemma TrimSettles(c: Cursor, ow: Owners, w: Job, d1: Image)
    requires LoopInv(c, ow, w.NewBlocks(), w) && SameData(c.d, d1) && NDIRECT < w.NewBlocks()
    requires Used(d1) == DropTail(ow, w.i, w.NewBlocks()).Keys && Table(d1) == Table(w.d0)
    ensures Trimmed(d1, c, w)
  {
    SettleAfterFrees(c, ow, w, d1);
  }

  /** Shrinking inside the indirect section: the blocks past the new end are freed. */
  lemma FinishShrink(c: Cursor, w: Job, base: int, ids: seq<u32>) returns (d': Image)
    requires ValidCursor(c) && Running(c, w.NewBlocks(), w, base)
    requires NDIRECT < w.NewBlocks() <= w.OldBlocks() <= MAX_BLOCKS
    requires |ids| == w.OldBlocks() - w.NewBlocks()
    requires forall x :: 0 <= x < |ids| ==> ids[x] == Word(w.prev, w.NewBlocks() - NDIRECT + x)
    ensures d' == Store(FreeAll(c.d, ids), c.blocks[NDIRECT], c.final)
    ensures Settled(d', c, w)
  {
    var d1 := FinishTrim(c, w, base, ids);
    var ow :| SettledWith(d1, ow, c, w) && Used(d1) == ow.Keys && Table(d1) == Table(w.d0);
    assert w.Valid();
    d' := FinishFlush(c, ow, w, d1);
  }

  /** Untouched pointers, and the old indirect block, while the loop runs. */
  lemma IndirectKept(c: Cursor, k: nat, w: Job, base: int)
    requires Running(c, k, w, base)
    ensures ValidCursor(c) && PointersKept(c, w.x, k)
    ensures w.OldBlocks() > NDIRECT ==>
              c.blocks[NDIRECT] == w.x.blocks[NDIRECT] && FIRST_DATA <= c.blocks[NDIRECT] < BLOCK_NUM
              && c.d[c.blocks[NDIRECT]] == w.prev
  {
    var ow :| RunningWith(c, ow, k, w, base);
    if w.OldBlocks() > NDIRECT {
      var h := Held(c, w.prev, w.OldBlocks(), k);
      assert HoldsSlot(w.OldBlocks(), k, INDIRECT_SLOT) && INDIRECT_SLOT in h;
      assert h[INDIRECT_SLOT] == c.blocks[NDIRECT];
    }
  }

  /** What FinishWrite comes down to in each case. */
  lemma FinishCases(c: Cursor, s: nat, o: int, g: Garbage)
    requires ValidCursor(c) && s <= MAX_BYTES
    ensures s <= DIRECT_BYTES ==> FinishWrite(c, s, o, g) == FreeBlock(c.d, c.blocks[NDIRECT])
    ensures Misplaced(s) ==> FinishWrite(c, s, o, g) == c.d
    ensures s >= DIRECT_BYTES + BLOCK_SIZE && s >= o ==>
              FinishWrite(c, s, o, g) == Store(c.d, c.blocks[NDIRECT], c.final)
  {
    IndirectFlag(s, BlocksFor(s));
  }

  lemma FinishCaseShrink(c: Cursor, s: nat, o: int, g: Garbage, prev: Block, from: int) returns (ids: seq<u32>)
    requires ValidCursor(c) && s <= MAX_BYTES && DIRECT_BYTES + BLOCK_SIZE <= s < o
    requires c.blocks[NDIRECT] < BLOCK_NUM && c.d[c.blocks[NDIRECT]] == prev && from == BlocksFor(s) - NDIRECT
    ensures from > 0 && |ids| == BlocksFor(o - s)
    ensures forall x :: 0 <= x < |ids| ==> ids[x] == Pointer(prev, from + x, g)
    ensures FinishWrite(c, s, o, g) == Store(FreeAll(c.d, ids), c.blocks[NDIRECT], c.final)
  {
    ids := TrailingIds(c, s, o, g);
    TrailingAre(c, s, o, g, prev, from);
    FlushWrites(FreeAll(c.d, ids), c.blocks, c.final, s);
  }

  /** A shrinking write frees entries of the indirect block. */
  lemma TrailingAre(c: Cursor, s: nat, o: int, g: Garbage, prev: Block, from: int)
    requires ValidCursor(c) && s <= MAX_BYTES && DIRECT_BYTES + BLOCK_SIZE <= s < o
    requires c.blocks[NDIRECT] < BLOCK_NUM && c.d[c.blocks[NDIRECT]] == prev && from == BlocksFor(s) - NDIRECT
    ensures from > 0 && TrailingIds(c, s, o, g) == Pointers(prev, from, BlocksFor(o - s), g)
  {
    IndirectFlag(s, BlocksFor(s));
  }

  /** From 4608 bytes on, the indirect block is written back. */
  lemma FlushWrites(d: Image, blocks: seq<u32>, final: Block, s: nat)
    requires |blocks| == NDIRECT + 1 && s >= DIRECT_BYTES + BLOCK_SIZE
    ensures Flush(d, blocks, final, s) == Store(d, blocks[NDIRECT], final)
  {
    IndirectFlag(s, BlocksFor(s));
  }

  /** The same when the freed entries all lie in the indirect block. */
  lemma FinishCaseShrinkInside(c: Cursor, s: nat, o: nat, g: Garbage, prev: Block) returns (ids: seq<u32>)
    requires ValidCursor(c) && c.blocks[NDIRECT] < BLOCK_NUM && c.d[c.blocks[NDIRECT]] == prev
    requires DIRECT_BYTES + BLOCK_SIZE <= s < o <= MAX_BYTES && BlocksFor(o - s) == BlocksFor(o) - BlocksFor(s)
    ensures BlocksFor(s) > NDIRECT && |ids| == BlocksFor(o) - BlocksFor(s)
    ensures forall x :: 0 <= x < |ids| ==> ids[x] == Word(prev, BlocksFor(s) - NDIRECT + x)
    ensures FinishWrite(c, s, o, g) == Store(FreeAll(c.d, ids), c.blocks[NDIRECT], c.final)
  {
    ids := FinishCaseShrink(c, s, o, g, prev, BlocksFor(s) - NDIRECT);
  }

  /** The block counts of a fitting write. */
  lemma FitShape(o: nat, s: nat)
    requires SizesFit(o, s)
    ensures BlocksFor(s) <= NDIRECT ==> s <= DIRECT_BYTES && BlocksFor(o) <= NDIRECT
    ensures BlocksFor(s) > NDIRECT ==> s >= DIRECT_BYTES + BLOCK_SIZE
    ensures BlocksFor(s) > NDIRECT && s >= o ==> BlocksFor(o) <= BlocksFor(s)
    ensures BlocksFor(s) > NDIRECT && s < o ==>
              BlocksFor(s) <= BlocksFor(o) && BlocksFor(o - s) == BlocksFor(o) - BlocksFor(s)
  {
    if 0 < s < o {
      ShrinkAccounting(o, s);
    }
  }

  lemma FinishRunsShrink(c: Cursor, w: Job, base: int) returns (d': Image)
    requires Running(c, w.NewBlocks(), w, base) && ValidCursor(c) && |w.data| <= MAX_BYTES && w.x.size <= MAX_BYTES
    requires DIRECT_BYTES + BLOCK_SIZE <= |w.data| < w.x.size && NDIRECT < w.NewBlocks() <= w.OldBlocks()
    requires BlocksFor(w.x.size - |w.data|) == w.OldBlocks() - w.NewBlocks()
    ensures d' == FinishWrite(c, |w.data|, w.x.size, w.g)
    ensures Settled(d', c, w)
  {
    IndirectKept(c, w.NewBlocks(), w, base);
    var ids := ShrinkEntries(c, w);
    d' := FinishShrink(c, w, base, ids);
  }

  lemma ShrinkEntries(c: Cursor, w: Job) returns (ids: seq<u32>)
    requires ValidCursor(c) && c.blocks[NDIRECT] < BLOCK_NUM && c.d[c.blocks[NDIRECT]] == w.prev
    requires DIRECT_BYTES + BLOCK_SIZE <= |w.data| < w.x.size <= MAX_BYTES
    requires BlocksFor(w.x.size - |w.data|) == w.OldBlocks() - w.NewBlocks()
    ensures w.NewBlocks() > NDIRECT && |ids| == w.OldBlocks() - w.NewBlocks()
    ensures forall x :: 0 <= x < |ids| ==> ids[x] == Word(w.prev, w.NewBlocks() - NDIRECT + x)
    ensures FinishWrite(c, |w.data|, w.x.size, w.g) == Store(FreeAll(c.d, ids), c.blocks[NDIRECT], c.final)
  {
    ids := FinishCaseShrinkInside(c, |w.data|, w.x.size, w.g, w.prev);
  }

  /** Everything after the loop, for fitting sizes. */
  lemma FinishRuns(c: Cursor, w: Job, base: int) returns (d': Image)
    requires Running(c, w.NewBlocks(), w, base) && ValidCursor(c)
    requires InodeOk(w.x) && SizesFit(w.x.size, |w.data|)
    ensures d' == FinishWrite(c, |w.data|, w.x.size, w.g)
    ensures Settled(d', c, w)
  {
    FitShape(w.x.size, |w.data|);
    FinishCases(c, |w.data|, w.x.size, w.g);
    if w.NewBlocks() <= NDIRECT {
      IndirectKept(c, w.NewBlocks(), w, base);
      d' := FinishShort(c, w, base);
    } else if |w.data| >= w.x.size {
      d' := FinishGrow(c, w, base);
    } else {
      d' := FinishRunsShrink(c, w, base);
    }
  }

  // ---- the whole write ------------------------------------------------------------------------------------

  /** The record that write_file stores. */
  function NewRecord(c: Cursor, w: Job): Inode
    requires ValidCursor(c) && |w.data| <= MAX_BYTES
  {
    w.x.(size := |w.data|, blocks := c.blocks)
  }

  lemma FinalSlotMap(d: Image, c: Cursor, w: Job)
    requires ValidCursor(c) && |w.data| <= MAX_BYTES
    requires w.NewBlocks() > NDIRECT ==> Fetch(d, c.blocks[NDIRECT], ZeroBlock()) == c.final
    ensures SlotMap(d, NewRecord(c, w)) == FinalSlots(c, w.NewBlocks())
  {
    var x', nb := NewRecord(c, w), w.NewBlocks();
    var m, f := SlotMap(d, x'), FinalSlots(c, nb);
    forall j: nat
      ensures j in m <==> j in f
      ensures j in f ==> m[j] == f[j]
    {
      assert j <= INDIRECT_SLOT ==> (UsesSlot(x'.size, j) <==> HoldsSlot(0, nb, j));
    }
  }

  lemma FinalBytes(d: Image, c: Cursor, w: Job)
    requires ValidCursor(c) && |w.data| <= MAX_BYTES && ChunksAt(d, c, w)
    requires w.NewBlocks() > NDIRECT ==> Fetch(d, c.blocks[NDIRECT], ZeroBlock()) == c.final
    ensures Bytes(d, NewRecord(c, w)) == w.data
  {
    var x', nb := NewRecord(c, w), w.NewBlocks();
    forall p | 0 <= p < |w.data|
      ensures ByteAt(d, x', p) == w.data[p]
    {
      var k := p / BLOCK_SIZE;
      assert k < nb && SlotId(d, x', k) == HeldId(c, ZeroBlock(), nb, k);
      ChunkByte(w.data, p, w.g.fill(k));
    }
  }

  lemma ChunkByte(data: seq<byte>, p: nat, fill: Block)
    requires p < |data|
    ensures p / BLOCK_SIZE < BlocksFor(|data|)
    ensures Chunk(data, p / BLOCK_SIZE, fill)[p % BLOCK_SIZE] == data[p]
  {
  }

  lemma FinalInodeOk(c: Cursor, w: Job)
    requires ValidCursor(c) && PointersKept(c, w.x, w.NewBlocks()) && |w.data| <= MAX_BYTES
    requires InodeOk(w.x) && SizesFit(w.x.size, |w.data|)
    ensures InodeOk(NewRecord(c, w))
  {
  }

  /** Storing the inode completes the write. */
  lemma StoreInode(used0: set<nat>, t: seq<Inode>, d1: Image, ow: Owners, c: Cursor, w: Job, d': Image)
    requires Agrees(used0, t, w.d0, w.ow0) && Live(t, w.i) && w.x == t[w.i] && |w.data| <= MAX_BYTES
    requires SettledWith(d1, ow, c, w) && InodeOk(NewRecord(c, w)) && SameData(d1, d')
    requires w.NewBlocks() > NDIRECT ==> Fetch(d1, c.blocks[NDIRECT], ZeroBlock()) == c.final
    ensures Agrees(ow.Keys, t[w.i := NewRecord(c, w)], d', ow)
    ensures OthersKept(w.d0, w.ow0, d', ow, w.i)
    ensures Bytes(d', NewRecord(c, w)) == w.data
  {
    var nb, f, x' := w.NewBlocks(), FinalSlots(c, w.NewBlocks()), NewRecord(c, w);
    if nb > NDIRECT {
      assert HoldsSlot(0, nb, INDIRECT_SLOT) && INDIRECT_SLOT in f && f[INDIRECT_SLOT] == c.blocks[NDIRECT];
    }
    ChunksAcross(d1, ow, c, w, d');
    FinalSlotMap(d', c, w);
    FinalBytes(d', c, w);
    OthersAcross(w.d0, w.ow0, d1, ow, w.i, d');
    Reassemble(used0, t, w.d0, w.ow0, ow.Keys, d', ow, w.i, x');
  }

  lemma ChunksAcross(d1: Image, ow: Owners, c: Cursor, w: Job, d': Image)
    requires SettledWith(d1, ow, c, w) && SameData(d1, d')
    ensures ChunksAt(d', c, w)
  {
    var nb, f := w.NewBlocks(), FinalSlots(c, w.NewBlocks());
    forall j: nat | j < nb
      ensures Fetch(d', HeldId(c, ZeroBlock(), nb, j), ZeroBlock()) == Chunk(w.data, j, w.g.fill(j))
    {
      assert HoldsSlot(0, nb, j) && j in f && f[j] in ow;
    }
  }

  /** Enough free blocks for a write that turns o bytes into s. */
  ghost predicate HasRoom(d: Image, o: nat, s: nat) {
    |Used(d)| - SlotCount(o) + SlotCount(s) <= DATA_BLOCKS
  }

  /** A good write: the sizes fit and the disk has room. */
  ghost predicate GoodWrite(d: Image, i: nat, s: nat)
    requires i < INODE_NUM
  {
    SizesFit(Table(d)[i].size, s) && HasRoom(d, Table(d)[i].size, s)
  }

  /** Room for the new size is room for every moment of the loop. */
  lemma RoomForLoop(used: nat, o: nat, s: nat)
    requires SizesFit(o, s) && used <= DATA_BLOCKS && used - SlotCount(o) + SlotCount(s) <= DATA_BLOCKS
    ensures used - SlotCount(o) + HeldCount(BlocksFor(o), BlocksFor(s)) <= DATA_BLOCKS
    ensures LoopFits(o, s, BlocksFor(s))
  {
  }

  /** The loop, on a consistent disk. */
  lemma GoodWriteLoops(d: Image, ow: Owners, w: Job) returns (c: Cursor, base: int)
    requires Consistent(d, ow) && Live(Table(d), w.i) && w == JobFor(d, ow, w.i, w.data, w.g)
    requires GoodWrite(d, w.i, |w.data|)
    ensures c == WriteUpTo(StartWrite(d, w.x, w.g), w.data, w.x.size, w.NewBlocks(), w.g)
    ensures Running(c, w.NewBlocks(), w, base) && InodeOk(w.x)
  {
    assert FileOk(d, w.x, ow, w.i);
    FullMeansAllUsed(d);
    base := OtherBlocks(d, w.i);
    RoomForLoop(|Used(d)|, w.x.size, |w.data|);
    var c0 := RunningBeforeLoop(d, ow, w);
    c := RunningUpTo(c0, w, base, w.NewBlocks());
  }

  /** The loop and what follows it. */
  lemma GoodWriteSettles(d: Image, ow: Owners, w: Job) returns (c: Cursor, d1: Image)
    requires Consistent(d, ow) && Live(Table(d), w.i) && w == JobFor(d, ow, w.i, w.data, w.g)
    requires GoodWrite(d, w.i, |w.data|)
    ensures c == WriteUpTo(StartWrite(d, w.x, w.g), w.data, w.x.size, w.NewBlocks(), w.g)
    ensures d1 == FinishWrite(c, |w.data|, w.x.size, w.g) && Settled(d1, c, w)
    ensures InodeOk(w.x) && InodeOk(NewRecord(c, w))
  {
    var base;
    c, base := GoodWriteLoops(d, ow, w);
    IndirectKept(c, w.NewBlocks(), w, base);
    FinalInodeOk(c, w);
    d1 := FinishRuns(c, w, base);
  }

  /** WriteFile spelled out on a live inode. */
  lemma WriteFileIs(d: Image, ow: Owners, w: Job, c: Cursor, d1: Image)
    requires Live(Table(d), w.i) && w == JobFor(d, ow, w.i, w.data, w.g)
    requires |w.data| <= MAX_BYTES && w.x.size <= MAX_BYTES
    requires c == WriteUpTo(StartWrite(d, w.x, w.g), w.data, w.x.size, w.NewBlocks(), w.g)
    requires d1 == FinishWrite(c, |w.data|, w.x.size, w.g)
    ensures WriteFile(d, w.i, w.data, w.g) == PutInode(d1, w.i, NewRecord(c, w))
  {
  }

  lemma CompleteWrite(d: Image, ow: Owners, w: Job, c: Cursor, d1: Image, ow': Owners, d': Image)
    requires Consistent(d, ow) && Live(Table(d), w.i) && w == JobFor(d, ow, w.i, w.data, w.g) && |w.data| <= MAX_BYTES
    requires SettledOn(d1, ow', c, w) && InodeOk(NewRecord(c, w))
    requires d' == PutInode(d1, w.i, NewRecord(c, w))
    ensures Consistent(d', ow') && OthersKept(d, ow, d', ow', w.i)
    ensures FilesOf(d') == FilesOf(d)[w.i := FileOf(d, w.x).(bytes := w.data)]
  {
    var x' := NewRecord(c, w);
    PutRefinesUpdate(d1, w.i, x');
    StoreInode(Used(d), Table(d), d1, ow', c, w, d');
    OtherFilesKept(Used(d), Table(d), d, ow, d', ow', w.i, x');
  }

  /** d' is d with new contents for file i, and everything that is not file i's own is untouched. */
  ghost predicate WriteDone(d: Image, ow: Owners, d': Image, ow': Owners, i: nat, data: seq<byte>) {
    && Consistent(d', ow') && OthersKept(d, ow, d', ow', i)
    && i in FilesOf(d) && FilesOf(d') == FilesOf(d)[i := FilesOf(d)[i].(bytes := data)]
  }

  /**
   * A good write keeps the disk consistent, gives inode i the new contents, and changes no other file; the
   * blocks of other files keep their owners and contents.
   */
  lemma GoodWriteCorrect(d: Image, ow: Owners, i: nat, data: seq<byte>, g: Garbage)
    requires Consistent(d, ow) && Live(Table(d), i) && GoodWrite(d, i, |data|)
    ensures exists ow' :: WriteDone(d, ow, WriteFile(d, i, data, g), ow', i, data)
  {
    var w := JobFor(d, ow, i, data, g);
    var c, d1 := GoodWriteSettles(d, ow, w);
    WriteFileIs(d, ow, w, c, d1);
    var ow' :| SettledOn(d1, ow', c, w);
    CompleteWrite(d, ow, w, c, d1, ow', WriteFile(d, i, data, g));
    WriteIsDone(d, ow, w, WriteFile(d, i, data, g), ow');
  }

  lemma WriteIsDone(d: Image, ow: Owners, w: Job, d': Image, ow': Owners)
    requires Live(Table(d), w.i) && w.x == Table(d)[w.i]
    requires Consistent(d', ow') && OthersKept(d, ow, d', ow', w.i)
    requires FilesOf(d') == FilesOf(d)[w.i := FileOf(d, w.x).(bytes := w.data)]
    ensures WriteDone(d, ow, d', ow', w.i, w.data)
  {
    assert w.i in FilesOf(d) && FilesOf(d)[w.i] == FileOf(d, w.x);
  }
}
