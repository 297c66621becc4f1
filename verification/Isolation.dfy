/**
 * What a write does to the other files, and what becomes of its own bytes, whether or not the write is good: on a
 * full disk, with a misplaced ninth block, or with stale pointers left behind, no other file changes.
 */
module Isolation {
  import opened Layout
  import opened DiskImage
  import opened Bitmap
  import opened InodeTable
  import opened FileOps
  import opened Ownership
  import opened Files
  import opened WriteLoop
  import opened WriteProof
  import opened ReadRemove
  import opened Refinement
  import opened Exactness
  import opened Corollaries

  // ---- blocks that a write must not touch -----------------------------------------------------------------

  /** Block b belongs to another file, or is the old indirect block of file i. */
  ghost predicate Guarded(ow: Owners, i: nat, b: nat) {
    b in ow && (ow[b].i != i || ow[b].k == INDIRECT_SLOT)
  }

  /** Guarded blocks are allocated and hold what they held. */
  ghost predicate Spared(w: Job, used: set<nat>, d: Image) {
    && (forall b :: b in w.ow0 ==> FIRST_DATA <= b < BLOCK_NUM)
    && forall b: nat :: Guarded(w.ow0, w.i, b) ==> b in used && d[b] == w.d0[b]
  }

  /** The record and the indirect block of the file, as the owners have them. */
  ghost predicate OwnEntries(w: Job) {
    && InodeOk(w.x) && |w.data| <= MAX_BYTES && (w.OldBlocks() <= NDIRECT ==> w.x.blocks[NDIRECT] == 0)
    && (w.OldBlocks() > NDIRECT ==>
          && FIRST_DATA <= w.x.blocks[NDIRECT] < BLOCK_NUM && w.d0[w.x.blocks[NDIRECT]] == w.prev
          && w.x.blocks[NDIRECT] in w.ow0 && w.ow0[w.x.blocks[NDIRECT] as nat] == Slot(w.i, INDIRECT_SLOT))
    && forall k :: NDIRECT <= k < w.OldBlocks() ==> EntryOwned(w, k)
  }

  ghost predicate EntryOwned(w: Job, k: nat) {
    && NDIRECT <= k < MAX_BLOCKS
    && var id := Word(w.prev, k - NDIRECT);
       FIRST_DATA <= id < BLOCK_NUM && id in w.ow0 && w.ow0[id as nat] == Slot(w.i, k)
  }

  lemma OwnEntriesHold(used: set<nat>, t: seq<Inode>, w: Job)
    requires Agrees(used, t, w.d0, w.ow0) && Live(t, w.i) && w.x == t[w.i] && |w.data| <= MAX_BYTES
    requires w.prev == Fetch(w.d0, w.x.blocks[NDIRECT], ZeroBlock())
    ensures OwnEntries(w)
  {
    assert FileOk(w.d0, w.x, w.ow0, w.i);
    var m := SlotMap(w.d0, w.x);
    if w.OldBlocks() > NDIRECT {
      IndirectPointer(used, t, w.d0, w.ow0, w.i);
    }
    forall k | NDIRECT <= k < w.OldBlocks()
      ensures EntryOwned(w, k)
    {
      assert UsesSlot(w.x.size, k) && k in m && m[k] == Word(w.prev, k - NDIRECT);
    }
  }

  /** The loop after k iterations, as far as the other files are concerned. */
  ghost predicate Sparing(c: Cursor, k: nat, w: Job) {
    && ValidCursor(c) && Table(c.d) == Table(w.d0) && Spared(w, Used(c.d), c.d)
    && IndirectAt(c.blocks[NDIRECT], k, w)
  }

  /** The indirect pointer is the old one, or newly allocated, or missing. */
  ghost predicate IndirectAt(ind: u32, k: nat, w: Job) {
    if k <= NDIRECT || (w.OldBlocks() > NDIRECT && !Misplaced(|w.data|)) then ind == w.x.blocks[NDIRECT]
    else FreshOrNone(ind) && !Guarded(w.ow0, w.i, ind)
  }

  lemma SparedAfter(w: Job, used: set<nat>, d: Image, used': set<nat>, d': Image, id: nat)
    requires Spared(w, used, d) && used <= used' && OnlyBlock(d, d', id) && !Guarded(w.ow0, w.i, id)
    ensures Spared(w, used', d')
  {
  }

  /** alloc_block, with or without room. */
  lemma AllocSpares(w: Job, d: Image) returns (d': Image, id: u32)
    requires Spared(w, Used(d), d)
    ensures (d', id) == AllocBlock(d) && FreshOrNone(id) && !Guarded(w.ow0, w.i, id)
    ensures Table(d') == Table(d) && Spared(w, Used(d'), d')
  {
    AllocRefinesLeastFree(d);
    d', id := AllocBlock(d).0, AllocBlock(d).1;
    SameBlocksSameTable(d, d');
    assert OnlyBlock(d, d', id);
    SparedAfter(w, Used(d), d, Used(d'), d', id);
  }

  /** A store to a block of the data area, or past the end of the disk. */
  lemma StoreSpares(w: Job, d: Image, id: u32, b: Block) returns (d': Image)
    requires Spared(w, Used(d), d) && FIRST_DATA <= id && !Guarded(w.ow0, w.i, id)
    ensures d' == Store(d, id, b) && Table(d') == Table(d) && Spared(w, Used(d'), d')
  {
    StoreKeepsMetadata(d, id, b);
    d' := Store(d, id, b);
    assert OnlyBlock(d, d', id);
    SparedAfter(w, Used(d), d, Used(d'), d', id);
  }

  lemma PlaceSpares(w: Job, d: Image, b: Block) returns (d': Image, id: u32)
    requires Spared(w, Used(d), d)
    ensures (d', id) == PlaceFresh(d, b) && FreshOrNone(id) && !Guarded(w.ow0, w.i, id)
    ensures Table(d') == Table(d) && Spared(w, Used(d'), d')
  {
    var d1;
    d1, id := AllocSpares(w, d);
    d' := StoreSpares(w, d1, id, b);
  }

  // ---- the loop -------------------------------------------------------------------------------------------

  lemma DirectSpares(c: Cursor, k: nat, w: Job) returns (c': Cursor)
    requires Sparing(c, k, w) && k < w.NewBlocks() && WritesDirect(|w.data|, k) && k <= NDIRECT
    requires k == NDIRECT ==> Misplaced(|w.data|)
    ensures c' == (var (d', id) := PlaceFresh(c.d, Chunk(w.data, k, w.g.fill(k)));
                   Cursor(d', c.blocks[k := id], c.final))
    ensures Sparing(c', k + 1, w)
  {
    var d', id := PlaceSpares(w, c.d, Chunk(w.data, k, w.g.fill(k)));
    c' := Cursor(d', c.blocks[k := id], c.final);
  }

  lemma GrowSpares(c: Cursor, k: nat, w: Job) returns (c': Cursor)
    requires Sparing(c, k, w) && NDIRECT <= k < w.NewBlocks() && k < MAX_BLOCKS
    requires w.OldBlocks() > NDIRECT && !Misplaced(|w.data|)
    ensures c' == StepGrow(c, k, Chunk(w.data, k, w.g.fill(k))) && Sparing(c', k + 1, w)
  {
    var d', id := PlaceSpares(w, c.d, Chunk(w.data, k, w.g.fill(k)));
    c' := Cursor(d', c.blocks, SetWord(c.final, k - NDIRECT, id));
  }

  lemma NewIndirectSpares(c: Cursor, k: nat, w: Job) returns (c': Cursor)
    requires Sparing(c, k, w) && NDIRECT <= k < w.NewBlocks() && k < MAX_BLOCKS && w.OldBlocks() <= NDIRECT
    ensures c' == StepNewIndirect(c, k, Chunk(w.data, k, w.g.fill(k))) && Sparing(c', k + 1, w)
  {
    var d1, ind := c.d, c.blocks[NDIRECT];
    if k == NDIRECT {
      d1, ind := AllocSpares(w, c.d);
    }
    var d', id := PlaceSpares(w, d1, Chunk(w.data, k, w.g.fill(k)));
    c' := Cursor(d', c.blocks[NDIRECT := ind], SetWord(c.final, k - NDIRECT, id));
    assert c.blocks[NDIRECT := c.blocks[NDIRECT]] == c.blocks;
  }

  lemma ReuseSpares(c: Cursor, k: nat, w: Job) returns (c': Cursor)
    requires Sparing(c, k, w) && OwnEntries(w) && NDIRECT <= k < w.NewBlocks() && k < w.OldBlocks()
    requires !Misplaced(|w.data|)
    ensures k < MAX_BLOCKS
    ensures c' == StepReuse(c, k, Chunk(w.data, k, w.g.fill(k)), w.g.unread(k)) && Sparing(c', k + 1, w)
  {
    assert EntryOwned(w, k);
    var ind, id := w.x.blocks[NDIRECT], Word(w.prev, k - NDIRECT);
    assert Guarded(w.ow0, w.i, ind);
    assert Fetch(c.d, c.blocks[NDIRECT], w.g.unread(k)) == w.prev;
    var d' := StoreSpares(w, c.d, id, Chunk(w.data, k, w.g.fill(k)));
    c' := Cursor(d', c.blocks, SetWord(c.final, k - NDIRECT, id));
  }

  /** The branches of an iteration, when no short growth takes a stray entry for a block. */
  lemma StepBranches(o: nat, s: nat, k: nat)
    requires s <= MAX_BYTES && k < BlocksFor(s) && !(o > DIRECT_BYTES && GrowsShort(o, s))
    ensures WritesDirect(s, k) ==> k <= NDIRECT && (k == NDIRECT ==> Misplaced(s))
    ensures !WritesDirect(s, k) ==> NDIRECT <= k < MAX_BLOCKS && !Misplaced(s)
    ensures !WritesDirect(s, k) && (s < o || (o > DIRECT_BYTES && Written(s, k) < o)) ==> k < BlocksFor(o)
    ensures o <= DIRECT_BYTES <==> BlocksFor(o) <= NDIRECT
  {
    if DIRECT_BYTES < o <= s {
      ReuseDecision(o, s, k);
    }
  }

  lemma StepSpares(c: Cursor, k: nat, w: Job) returns (c': Cursor)
    requires Sparing(c, k, w) && OwnEntries(w) && k < w.NewBlocks()
    requires !(w.x.size > DIRECT_BYTES && GrowsShort(w.x.size, |w.data|))
    ensures c' == WriteStep(c, w.data, w.x.size, k, w.g) && Sparing(c', k + 1, w)
  {
    var s, o := |w.data|, w.x.size;
    StepBranches(o, s, k);
    if WritesDirect(s, k) {
      c' := DirectSpares(c, k, w);
    } else if s >= o && o <= DIRECT_BYTES {
      c' := NewIndirectSpares(c, k, w);
    } else if s >= o && Written(s, k) >= o {
      c' := GrowSpares(c, k, w);
    } else {
      c' := ReuseSpares(c, k, w);
    }
  }

  lemma {:induction false} LoopSpares(c: Cursor, k: nat, w: Job) returns (c': Cursor)
    requires Sparing(c, 0, w) && OwnEntries(w) && k <= w.NewBlocks()
    requires !(w.x.size > DIRECT_BYTES && GrowsShort(w.x.size, |w.data|))
    ensures c' == WriteUpTo(c, w.data, w.x.size, k, w.g) && Sparing(c', k, w)
    decreases k
  {
    if k == 0 {
      c' := c;
    } else {
      var j := k - 1;
      assert j + 1 == k;
      var c1 := LoopSpares(c, j, w);
      c' := StepSpares(c1, j, w);
      UnfoldWrite(c, w.data, w.x.size, j, w.g, c1, c');
    }
  }

  lemma StartSpares(d: Image, ow: Owners, w: Job) returns (c: Cursor)
    requires Consistent(d, ow) && Live(Table(d), w.i) && w == JobFor(d, ow, w.i, w.data, w.g)
    ensures c == StartWrite(d, w.x, w.g) && Sparing(c, 0, w)
  {
    var ids := w.x.blocks[..NDIRECT];
    DirectPointers(Used(d), Table(d), d, ow, w.i);
    FreeAllFrame(d, ids);
    c := StartWrite(d, w.x, w.g);
    forall b | Guarded(ow, w.i, b)
      ensures b !in Ids(ids)
    {
    }
  }

  // ---- after the loop -------------------------------------------------------------------------------------

  /** The other files' blocks hold what they held. */
  ghost predicate OthersSame(w: Job, d: Image) {
    forall b :: b in w.ow0 && w.ow0[b].i != w.i && b < BLOCK_NUM ==> d[b] == w.d0[b]
  }

  lemma SparedOthersSame(w: Job, used: set<nat>, d: Image)
    requires Spared(w, used, d)
    ensures OthersSame(w, d)
  {
    forall b | b in w.ow0 && w.ow0[b].i != w.i
      ensures d[b] == w.d0[b]
    {
      assert Guarded(w.ow0, w.i, b);
    }
  }

  /** Any block may be freed, as long as its number is one of the disk's. */
  lemma FreesSpare(w: Job, d: Image, ids: seq<u32>) returns (d': Image)
    requires Spared(w, Used(d), d) && forall x :: 0 <= x < |ids| ==> ids[x] < BLOCK_NUM
    ensures d' == FreeAll(d, ids) && Table(d') == Table(d) && OthersSame(w, d')
  {
    SparedOthersSame(w, Used(d), d);
    FreeAllFrame(d, ids);
    d' := FreeAll(d, ids);
  }

  lemma FlushSpares(w: Job, d: Image, ind: u32, b: Block)
    requires OthersSame(w, d) && Table(d) == Table(w.d0) && FIRST_DATA <= ind
    requires ind in w.ow0 ==> w.ow0[ind as nat].i == w.i
    ensures OthersSame(w, Store(d, ind, b)) && Table(Store(d, ind, b)) == Table(w.d0)
  {
    StoreKeepsMetadata(d, ind, b);
  }

  /** The entry past the end, if a short shrink frees it, is one of the disk's blocks. */
  ghost predicate StrayInRange(d: Image, x: Inode, s: nat, g: Garbage) {
    ShrinksShort(x.size, s) && BlocksFor(x.size) > NDIRECT && x.blocks[NDIRECT] < BLOCK_NUM ==>
      StrayEntry(d, x, g) < BLOCK_NUM
  }

  /** The entries that a shrinking write frees. */
  lemma TrailingInRange(w: Job, ids: seq<u32>, from: int)
    requires OwnEntries(w) && DIRECT_BYTES + BLOCK_SIZE <= |w.data| < w.x.size
    requires StrayInRange(w.d0, w.x, |w.data|, w.g) && |ids| == BlocksFor(w.x.size - |w.data|)
    requires from == w.NewBlocks() - NDIRECT && from > 0
    requires forall y :: 0 <= y < |ids| ==> ids[y] == Pointer(w.prev, from + y, w.g)
    ensures forall y :: 0 <= y < |ids| ==> ids[y] < BLOCK_NUM
  {
    ShrinkAccounting(w.x.size, |w.data|);
    forall y | 0 <= y < |ids|
      ensures ids[y] < BLOCK_NUM
    {
      var k := w.NewBlocks() + y;
      if k < w.OldBlocks() {
        assert EntryOwned(w, k);
      } else {
        assert ids[y] == StrayEntry(w.d0, w.x, w.g);
      }
    }
  }

  lemma IndirectStill(c: Cursor, w: Job)
    requires Sparing(c, w.NewBlocks(), w) && OwnEntries(w)
    requires DIRECT_BYTES + BLOCK_SIZE <= |w.data| < w.x.size
    ensures w.OldBlocks() > NDIRECT && c.blocks[NDIRECT] == w.x.blocks[NDIRECT]
    ensures FIRST_DATA <= c.blocks[NDIRECT] < BLOCK_NUM && c.d[c.blocks[NDIRECT]] == w.prev
  {
    assert Guarded(w.ow0, w.i, w.x.blocks[NDIRECT]);
  }

  lemma FinishShrinkSpares(c: Cursor, w: Job) returns (d': Image)
    requires Sparing(c, w.NewBlocks(), w) && OwnEntries(w) && StrayInRange(w.d0, w.x, |w.data|, w.g)
    requires DIRECT_BYTES + BLOCK_SIZE <= |w.data| < w.x.size
    ensures d' == FinishWrite(c, |w.data|, w.x.size, w.g) && Table(d') == Table(w.d0) && OthersSame(w, d')
  {
    var ids, d1 := TrailFreed(c, w);
    SparedOthersSame(w, Used(c.d), c.d);
    FlushSpares(w, d1, w.x.blocks[NDIRECT], c.final);
    d' := Store(d1, w.x.blocks[NDIRECT], c.final);
  }

  lemma FinishSpares(c: Cursor, w: Job) returns (d': Image)
    requires Sparing(c, w.NewBlocks(), w) && OwnEntries(w) && StrayInRange(w.d0, w.x, |w.data|, w.g)
    ensures d' == FinishWrite(c, |w.data|, w.x.size, w.g) && Table(d') == Table(w.d0) && OthersSame(w, d')
  {
    var s, o, ind := |w.data|, w.x.size, c.blocks[NDIRECT];
    FinishCases(c, s, o, w.g);
    SparedOthersSame(w, Used(c.d), c.d);
    if s <= DIRECT_BYTES {
      assert FreeAll(c.d, []) == c.d && FreeAll(c.d, [ind]) == FreeBlock(FreeAll(c.d, [ind][..0]), ind);
      d' := FreesSpare(w, c.d, [ind]);
    } else if Misplaced(s) {
      d' := c.d;
    } else if s >= o {
      FlushSpares(w, c.d, ind, c.final);
      d' := Store(c.d, ind, c.final);
    } else {
      d' := FinishShrinkSpares(c, w);
    }
  }

  // ---- the whole write ------------------------------------------------------------------------------------

  /** The owners of the other files' blocks. */
  ghost function OtherOwners(ow: Owners, i: nat): Owners {
    map b | b in ow && ow[b].i != i :: ow[b]
  }

  lemma OthersSameKept(w: Job, d: Image)
    requires OthersSame(w, d)
    ensures OthersKept(w.d0, w.ow0, d, OtherOwners(w.ow0, w.i), w.i)
  {
  }

  /** No stray entry is taken for a block, and none past the end of the disk is freed. */
  ghost predicate NoStray(d: Image, i: nat, s: nat, g: Garbage)
    requires i < INODE_NUM
  {
    !(Table(d)[i].size > DIRECT_BYTES && GrowsShort(Table(d)[i].size, s)) && StrayInRange(d, Table(d)[i], s, g)
  }

  lemma WriteSpares(d: Image, ow: Owners, w: Job) returns (c: Cursor, d1: Image)
    requires Consistent(d, ow) && Live(Table(d), w.i) && w == JobFor(d, ow, w.i, w.data, w.g)
    requires |w.data| <= MAX_BYTES && NoStray(d, w.i, |w.data|, w.g)
    ensures ValidCursor(c) && w.x.size <= MAX_BYTES
    ensures c == WriteUpTo(StartWrite(d, w.x, w.g), w.data, w.x.size, w.NewBlocks(), w.g)
    ensures d1 == FinishWrite(c, |w.data|, w.x.size, w.g) && Table(d1) == Table(d) && OthersSame(w, d1)
  {
    OwnEntriesHold(Used(d), Table(d), w);
    var c0 := StartSpares(d, ow, w);
    c := LoopSpares(c0, w.NewBlocks(), w);
    d1 := FinishSpares(c, w);
  }

  /** d' is d but for file i, which has the size, the type and the times that a write gives it. */
  ghost predicate OnlyFile(d: Image, d': Image, i: nat, s: nat) {
    && i in FilesOf(d) && FilesOf(d').Keys == FilesOf(d).Keys && FilesOf(d') - {i} == FilesOf(d) - {i}
    && FilesOf(d')[i] == FilesOf(d)[i].(bytes := FilesOf(d')[i].bytes) && |FilesOf(d')[i].bytes| == s
  }

  lemma OnlyFileChanged(d: Image, t: seq<Inode>, d': Image, t': seq<Inode>, i: nat, x: Inode)
    requires Live(t, i) && t' == t[i := x] && x == t[i].(size := x.size, blocks := x.blocks)
    requires FilesIn(d', t') == FilesIn(d, t)[i := FileOf(d', x)]
    ensures i in FilesIn(d, t) && FilesIn(d', t').Keys == FilesIn(d, t).Keys
    ensures FilesIn(d', t') - {i} == FilesIn(d, t) - {i}
    ensures FilesIn(d', t')[i] == FilesIn(d, t)[i].(bytes := FilesIn(d', t')[i].bytes)
    ensures |FilesIn(d', t')[i].bytes| == x.size
  {
  }

  /** The disk after the write: one record is replaced, and the other files' blocks are as they were. */
  lemma SparedWrite(d: Image, ow: Owners, i: nat, data: seq<byte>, g: Garbage) returns (d': Image, x': Inode)
    requires Consistent(d, ow) && Live(Table(d), i) && |data| <= MAX_BYTES && NoStray(d, i, |data|, g)
    ensures d' == WriteFile(d, i, data, g) && Table(d') == Table(d)[i := x']
    ensures x' == Table(d)[i].(size := |data|, blocks := x'.blocks)
    ensures OthersKept(d, ow, d', OtherOwners(ow, i), i)
  {
    var w := JobFor(d, ow, i, data, g);
    var c, d1 := WriteSpares(d, ow, w);
    d', x' := WriteFile(d, i, data, g), NewRecord(c, w);
    WriteFileIs(d, ow, w, c, d1);
    PutRefinesUpdate(d1, i, x');
    OthersAfterPut(w, d1, d');
  }

  /**
   * Isolation without room, and of every write but those that mistake a stray entry: the file written keeps its
   * type and times and gets its new size, and every other file is exactly as it was.
   */
  lemma OthersUntouched(d: Image, i: nat, data: seq<byte>, g: Garbage)
    requires Inv(d) && Live(Table(d), i) && |data| <= MAX_BYTES && NoStray(d, i, |data|, g)
    ensures OnlyFile(d, WriteFile(d, i, data, g), i, |data|)
  {
    var ow :| Consistent(d, ow);
    var d', x' := SparedWrite(d, ow, i, data, g);
    OtherFilesKept(Used(d), Table(d), d, ow, d', OtherOwners(ow, i), i, x');
    OnlyFileChanged(d, Table(d), d', Table(d'), i, x');
  }

  lemma OthersAfterPut(w: Job, d1: Image, d': Image)
    requires OthersSame(w, d1) && SameData(d1, d') && forall b :: b in w.ow0 ==> FIRST_DATA <= b < BLOCK_NUM
    ensures OthersKept(w.d0, w.ow0, d', OtherOwners(w.ow0, w.i), w.i)
  {
    OthersSameKept(w, d');
  }

  /** Callers see the same of every other inode, file or not, as before. */
  lemma OthersLookTheSame(d: Image, i: nat, data: seq<byte>, g: Garbage, j: nat)
    requires Inv(d) && Live(Table(d), i) && |data| <= MAX_BYTES && NoStray(d, i, |data|, g) && j != i
    ensures SameView(d, WriteFile(d, i, data, g), j)
  {
    var ow :| Consistent(d, ow);
    var d', x' := SparedWrite(d, ow, i, data, g);
    OtherLooksTheSame(d, ow, d', x', i, j);
  }

  lemma OtherLooksTheSame(d: Image, ow: Owners, d': Image, x': Inode, i: nat, j: nat)
    requires Consistent(d, ow) && i < INODE_NUM && Table(d') == Table(d)[i := x'] && j != i
    requires OthersKept(d, ow, d', OtherOwners(ow, i), i)
    ensures SameView(d, d', j)
  {
    if Live(Table(d), j) {
      OtherReadable(Used(d), Table(d), d, ow, d', i, j);
      ReadableLooksTheSame(d, d', j);
    } else {
      MissingLooksTheSame(d, d', j);
    }
  }

  lemma OtherReadable(used: set<nat>, t: seq<Inode>, d: Image, ow: Owners, d': Image, i: nat, j: nat)
    requires Agrees(used, t, d, ow) && OthersKept(d, ow, d', OtherOwners(ow, i), i) && j != i && Live(t, j)
    ensures Readable(d', t[j]) && FileOf(d', t[j]) == FileOf(d, t[j])
  {
    OtherInodeKept(used, t, d, ow, d', OtherOwners(ow, i), i, j);
    OtherFileKept(used, t, d, ow, d', OtherOwners(ow, i), i, j);
    OwnedIsReadable(d', t[j], OtherOwners(ow, i), j);
  }

  lemma MissingLooksTheSame(d: Image, d': Image, j: nat)
    requires !Live(Table(d), j) && !Live(Table(d'), j)
    ensures SameView(d, d', j)
  {
    FileEntry(d, j);
    FileEntry(d', j);
  }

  lemma ReadableLooksTheSame(d: Image, d': Image, j: nat)
    requires Inv(d) && Live(Table(d), j) && Live(Table(d'), j) && Table(d')[j] == Table(d)[j]
    requires Readable(d', Table(d)[j]) && FileOf(d', Table(d)[j]) == FileOf(d, Table(d)[j])
    ensures SameView(d, d', j)
  {
    FileEntry(d, j);
    FileEntry(d', j);
    forall now: u32, g, g'
      ensures ReadFile(d', j, now, g).1 == ReadFile(d, j, now, g').1
    {
      ReadAnswer(d, j, now, g');
      ReadsInRange(d', j, now, g);
    }
  }

  lemma FitsNoStray(d: Image, i: nat, s: nat, g: Garbage)
    requires i < INODE_NUM && SizesFit(Table(d)[i].size, s)
    ensures NoStray(d, i, s, g)
  {
  }

  /** A write that runs out of room harms no other file. */
  lemma NoRoomIsolated(d: Image, i: nat, data: seq<byte>, g: Garbage)
    requires Inv(d) && Live(Table(d), i) && SizesFit(Table(d)[i].size, |data|)
    requires !HasRoom(d, Table(d)[i].size, |data|)
    ensures FilesOf(WriteFile(d, i, data, g)) - {i} == FilesOf(d) - {i}
    ensures forall j: nat :: j != i ==> SameView(d, WriteFile(d, i, data, g), j)
  {
    FitsNoStray(d, i, |data|, g);
    OthersUntouched(d, i, data, g);
    forall j: nat | j != i
      ensures SameView(d, WriteFile(d, i, data, g), j)
    {
      OthersLookTheSame(d, i, data, g, j);
    }
  }

  /**
   * An iteration that needs a block when there is none writes nothing; it records -1 for the block, and for the
   * indirect block if it needs that too.
   */
  lemma FullStep(c: Cursor, data: seq<byte>, o: nat, k: nat, g: Garbage)
    requires ValidCursor(c) && k < BlocksFor(|data|) && LoopFits(o, |data|, k + 1)
    requires (k < NDIRECT || k >= BlocksFor(o)) && Used(c.d) == DataIds()
    ensures var c' := WriteStep(c, data, o, k, g);
            && c'.d == c.d
            && c'.blocks == (if k < NDIRECT then c.blocks[k := NO_BLOCK]
                             else if k == NDIRECT && BlocksFor(o) <= NDIRECT then c.blocks[NDIRECT := NO_BLOCK]
                             else c.blocks)
            && if k < NDIRECT then c'.final == c.final else EntryReplaced(c.final, c'.final, k - NDIRECT, NO_BLOCK)
  {
    StepKind(o, |data|, k);
    AllocRefinesLeastFree(c.d);
    if k >= NDIRECT {
      SetWordReplaces(c.final, k - NDIRECT, NO_BLOCK);
    }
  }

  // ---- the bytes of the file itself -----------------------------------------------------------------------

  /** The slots of the new contents are blocks of the data area. */
  ghost predicate SlotsInRange(c: Cursor, w: Job)
    requires ValidCursor(c)
  {
    && (w.NewBlocks() > NDIRECT ==> FIRST_DATA <= c.blocks[NDIRECT] < BLOCK_NUM)
    && forall j: nat :: j < w.NewBlocks() ==> FIRST_DATA <= HeldId(c, ZeroBlock(), w.NewBlocks(), j) < BLOCK_NUM
  }

  lemma HeldInRange(c: Cursor, ow: Owners, w: Job)
    requires LoopInv(c, ow, w.NewBlocks(), w)
    ensures SlotsInRange(c, w)
  {
    var nb, h := w.NewBlocks(), Held(c, w.prev, w.OldBlocks(), w.NewBlocks());
    if nb > NDIRECT {
      assert INDIRECT_SLOT in h && h[INDIRECT_SLOT] == c.blocks[NDIRECT] && h[INDIRECT_SLOT] in ow;
    }
    forall j: nat | j < nb
      ensures FIRST_DATA <= HeldId(c, ZeroBlock(), nb, j) < BLOCK_NUM
    {
      assert HeldId(c, ZeroBlock(), nb, j) == HeldId(c, w.prev, nb, j);
      assert HoldsSlot(w.OldBlocks(), nb, j) && j in h && h[j] in ow;
    }
  }

  /** The new contents and the pointers to them are on the disk. */
  ghost predicate OnDisk(d: Image, c: Cursor, w: Job) {
    && ValidCursor(c) && |w.data| <= MAX_BYTES && SlotsInRange(c, w) && ChunksAt(d, c, w)
    && (w.NewBlocks() > NDIRECT ==> Fetch(d, c.blocks[NDIRECT], ZeroBlock()) == c.final)
  }

  lemma OnDiskAcross(d: Image, c: Cursor, w: Job, d': Image)
    requires OnDisk(d, c, w) && SameData(d, d')
    ensures OnDisk(d', c, w)
  {
    forall j: nat | j < w.NewBlocks()
      ensures Fetch(d', HeldId(c, ZeroBlock(), w.NewBlocks(), j), ZeroBlock()) == Chunk(w.data, j, w.g.fill(j))
    {
      assert FIRST_DATA <= HeldId(c, ZeroBlock(), w.NewBlocks(), j) < BLOCK_NUM;
    }
  }

  lemma OnDiskReadable(d: Image, c: Cursor, w: Job)
    requires OnDisk(d, c, w)
    ensures Readable(d, NewRecord(c, w)) && Bytes(d, NewRecord(c, w)) == w.data
  {
    FinalBytes(d, c, w);
    var x, nb := NewRecord(c, w), w.NewBlocks();
    forall k: nat | k < nb
      ensures FIRST_DATA <= SlotId(d, x, k) < BLOCK_NUM
    {
      assert SlotId(d, x, k) == HeldId(c, ZeroBlock(), nb, k);
    }
  }

  /** The frees after the loop, then the store of the indirect block. */
  lemma FlushedOnDisk(c: Cursor, ow: Owners, w: Job, d1: Image) returns (d': Image)
    requires LoopInv(c, ow, w.NewBlocks(), w) && SameData(c.d, d1) && |w.data| <= MAX_BYTES && w.NewBlocks() > NDIRECT
    ensures d' == Store(d1, c.blocks[NDIRECT], c.final) && OnDisk(d', c, w)
  {
    HeldInRange(c, ow, w);
    SettleAfterFrees(c, ow, w, d1);
    d' := Store(d1, c.blocks[NDIRECT], c.final);
    SettleAfterFlush(d1, DropTail(ow, w.i, w.NewBlocks()), c, w, d');
  }

  lemma ShortOnDisk(c: Cursor, ow: Owners, w: Job, d1: Image)
    requires LoopInv(c, ow, w.NewBlocks(), w) && SameData(c.d, d1) && w.NewBlocks() <= NDIRECT
    ensures OnDisk(d1, c, w)
  {
    HeldInRange(c, ow, w);
    ChunksAfterLoop(c, ow, w, d1);
  }

  lemma FinishOnDisk(c: Cursor, ow: Owners, w: Job) returns (d': Image)
    requires LoopInv(c, ow, w.NewBlocks(), w) && Sparing(c, w.NewBlocks(), w) && OwnEntries(w)
    requires !Misplaced(|w.data|) && StrayInRange(w.d0, w.x, |w.data|, w.g)
    ensures d' == FinishWrite(c, |w.data|, w.x.size, w.g) && OnDisk(d', c, w)
  {
    var s, o, ind := |w.data|, w.x.size, c.blocks[NDIRECT];
    FinishCases(c, s, o, w.g);
    if s <= DIRECT_BYTES {
      FreeRefinesRemove(c.d, ind);
      d' := FreeBlock(c.d, ind);
      ShortOnDisk(c, ow, w, d');
    } else if s >= o {
      d' := FlushedOnDisk(c, ow, w, c.d);
    } else {
      d' := ShrunkOnDisk(c, ow, w);
    }
  }

  lemma ShrunkOnDisk(c: Cursor, ow: Owners, w: Job) returns (d': Image)
    requires LoopInv(c, ow, w.NewBlocks(), w) && Sparing(c, w.NewBlocks(), w) && OwnEntries(w)
    requires DIRECT_BYTES + BLOCK_SIZE <= |w.data| < w.x.size && StrayInRange(w.d0, w.x, |w.data|, w.g)
    ensures d' == FinishWrite(c, |w.data|, w.x.size, w.g) && OnDisk(d', c, w)
  {
    var ids, d1 := TrailFreed(c, w);
    d' := FlushedOnDisk(c, ow, w, d1);
  }

  /** The entries past the new end are freed. */
  lemma TrailFreed(c: Cursor, w: Job) returns (ids: seq<u32>, d1: Image)
    requires Sparing(c, w.NewBlocks(), w) && OwnEntries(w)
    requires DIRECT_BYTES + BLOCK_SIZE <= |w.data| < w.x.size && StrayInRange(w.d0, w.x, |w.data|, w.g)
    ensures FinishWrite(c, |w.data|, w.x.size, w.g) == Store(d1, c.blocks[NDIRECT], c.final)
    ensures c.blocks[NDIRECT] == w.x.blocks[NDIRECT] && d1 == FreeAll(c.d, ids)
    ensures SameData(c.d, d1) && Table(d1) == Table(c.d)
  {
    IndirectStill(c, w);
    ids := TrailIds(c, w);
    d1 := FreeAll(c.d, ids);
    FreeAllFrame(c.d, ids);
  }

  lemma TrailIds(c: Cursor, w: Job) returns (ids: seq<u32>)
    requires ValidCursor(c) && OwnEntries(w) && c.blocks[NDIRECT] < BLOCK_NUM && c.d[c.blocks[NDIRECT]] == w.prev
    requires DIRECT_BYTES + BLOCK_SIZE <= |w.data| < w.x.size && StrayInRange(w.d0, w.x, |w.data|, w.g)
    ensures FinishWrite(c, |w.data|, w.x.size, w.g) == Store(FreeAll(c.d, ids), c.blocks[NDIRECT], c.final)
    ensures forall y :: 0 <= y < |ids| ==> ids[y] < BLOCK_NUM
  {
    var from := w.NewBlocks() - NDIRECT;
    ids := FinishCaseShrink(c, |w.data|, w.x.size, w.g, w.prev, from);
    TrailingInRange(w, ids, from);
  }

  /** Room for the new size is room for the loop. */
  lemma RoomToLoop(used: nat, o: nat, s: nat)
    requires used <= DATA_BLOCKS && used - SlotCount(o) + SlotCount(s) <= DATA_BLOCKS
    ensures used - SlotCount(o) + HeldCount(BlocksFor(o), BlocksFor(s)) <= DATA_BLOCKS
  {
  }

  lemma WriteLands(d: Image, ow: Owners, w: Job) returns (c: Cursor, d1: Image)
    requires Consistent(d, ow) && Live(Table(d), w.i) && w == JobFor(d, ow, w.i, w.data, w.g)
    requires |w.data| <= MAX_BYTES && !Misplaced(|w.data|) && NoStray(d, w.i, |w.data|, w.g)
    requires HasRoom(d, w.x.size, |w.data|)
    ensures ValidCursor(c) && w.x.size <= MAX_BYTES
    ensures c == WriteUpTo(StartWrite(d, w.x, w.g), w.data, w.x.size, w.NewBlocks(), w.g)
    ensures d1 == FinishWrite(c, |w.data|, w.x.size, w.g) && OnDisk(d1, c, w) && Table(d1) == Table(d)
  {
    OwnEntriesHold(Used(d), Table(d), w);
    FullMeansAllUsed(d);
    RoomToLoop(|Used(d)|, w.x.size, |w.data|);
    var base := OtherBlocks(d, w.i);
    var c0 := RunningBeforeLoop(d, ow, w);
    c := RunningUpTo(c0, w, base, w.NewBlocks());
    var ow' :| RunningWith(c, ow', w.NewBlocks(), w, base);
    var c1, d1' := WriteSpares(d, ow, w);
    var c2 := StartSpares(d, ow, w);
    c2 := LoopSpares(c2, w.NewBlocks(), w);
    d1 := FinishOnDisk(c, ow', w);
  }

  /**
   * Every write with room that misplaces no block and mistakes no stray entry does its immediate work, even where
   * it leaves stale pointers behind: the file has the new contents, and no other file changes.
   */
  lemma WriteTakesEffect(d: Image, i: nat, data: seq<byte>, g: Garbage, now: u32, g': Garbage)
    requires Inv(d) && Live(Table(d), i) && LoopFits(Table(d)[i].size, |data|, BlocksFor(|data|))
    requires HasRoom(d, Table(d)[i].size, |data|) && StrayInRange(d, Table(d)[i], |data|, g)
    ensures var d' := WriteFile(d, i, data, g);
            && i in FilesOf(d) && FilesOf(d') == FilesOf(d)[i := FilesOf(d)[i].(bytes := data)]
            && ReadFile(d', i, now, g').1 == Contents(|data|, data)
  {
    LandedWrite(d, i, data, g, now, g');
    OthersUntouched(d, i, data, g);
    SameOutside(FilesOf(d), FilesOf(WriteFile(d, i, data, g)), i, data);
  }

  lemma LandedWrite(d: Image, i: nat, data: seq<byte>, g: Garbage, now: u32, g': Garbage)
    requires Inv(d) && Live(Table(d), i) && LoopFits(Table(d)[i].size, |data|, BlocksFor(|data|))
    requires HasRoom(d, Table(d)[i].size, |data|) && StrayInRange(d, Table(d)[i], |data|, g)
    ensures var d' := WriteFile(d, i, data, g);
            i in FilesOf(d') && FilesOf(d')[i].bytes == data && ReadFile(d', i, now, g').1 == Contents(|data|, data)
  {
    var ow :| Consistent(d, ow);
    var w := JobFor(d, ow, i, data, g);
    var c, d1 := WriteLands(d, ow, w);
    var d' := WriteFile(d, i, data, g);
    WriteFileIs(d, ow, w, c, d1);
    PutRefinesUpdate(d1, i, NewRecord(c, w));
    LandedReads(d', c, w, d1, now, g');
  }

  lemma LandedReads(d': Image, c: Cursor, w: Job, d1: Image, now: u32, g': Garbage)
    requires OnDisk(d1, c, w) && SameData(d1, d') && Live(Table(d'), w.i) && Table(d')[w.i] == NewRecord(c, w)
    ensures w.i in FilesOf(d') && FilesOf(d')[w.i].bytes == w.data
    ensures ReadFile(d', w.i, now, g').1 == Contents(|w.data|, w.data)
  {
    OnDiskAcross(d1, c, w, d');
    OnDiskReadable(d', c, w);
    FileEntry(d', w.i);
    ReadsInRange(d', w.i, now, g');
  }

  lemma SameOutside(m: FileMap, m': FileMap, i: nat, data: seq<byte>)
    requires i in m && m'.Keys == m.Keys && m' - {i} == m - {i} && m'[i] == m[i].(bytes := data)
    ensures m' == m[i := m[i].(bytes := data)]
  {
    forall j | j in m && j != i
      ensures m'[j] == m[j]
    {
      assert j in m - {i} && (m' - {i})[j] == (m - {i})[j];
    }
  }

  // ---- what a shrink to the direct section gives back -----------------------------------------------------

  lemma DirectCounts(d: Image, ow: Owners, w: Job) returns (c: Cursor)
    requires Consistent(d, ow) && Live(Table(d), w.i) && w == JobFor(d, ow, w.i, w.data, w.g)
    requires |w.data| <= DIRECT_BYTES && HasRoom(d, w.x.size, |w.data|)
    ensures ValidCursor(c) && w.x.size <= MAX_BYTES
    ensures c == WriteUpTo(StartWrite(d, w.x, w.g), w.data, w.x.size, w.NewBlocks(), w.g)
    ensures |Used(c.d)| == OtherBlocks(d, w.i) + HeldCount(w.OldBlocks(), w.NewBlocks())
    ensures c.blocks[NDIRECT] == w.x.blocks[NDIRECT]
    ensures if w.OldBlocks() > NDIRECT then c.blocks[NDIRECT] in Used(c.d) && c.blocks[NDIRECT] < BLOCK_NUM
            else c.blocks[NDIRECT] == 0
  {
    OwnEntriesHold(Used(d), Table(d), w);
    FullMeansAllUsed(d);
    RoomToLoop(|Used(d)|, w.x.size, |w.data|);
    var c0 := RunningBeforeLoop(d, ow, w);
    c := RunningUpTo(c0, w, OtherBlocks(d, w.i), w.NewBlocks());
    IndirectKept(c, w.NewBlocks(), w, OtherBlocks(d, w.i));
    var c1 := StartSpares(d, ow, w);
    c1 := LoopSpares(c1, w.NewBlocks(), w);
    assert w.OldBlocks() > NDIRECT ==> Guarded(w.ow0, w.i, c.blocks[NDIRECT]);
  }

  /**
   * A write of at most 4096 bytes gives back the old direct blocks and takes as many as it needs.  It also gives
   * back the indirect block, if there was one, but none of the blocks that it referred to: they are lost.
   */
  lemma DirectAccounting(d: Image, i: nat, data: seq<byte>, g: Garbage)
    requires Inv(d) && Live(Table(d), i) && |data| <= DIRECT_BYTES && HasRoom(d, Table(d)[i].size, |data|)
    ensures var n, d' := BlocksFor(Table(d)[i].size), WriteFile(d, i, data, g);
            && |Used(d')| == |Used(d)| - Min(n, NDIRECT) + BlocksFor(|data|) - (if n > NDIRECT then 1 else 0)
            && (n > NDIRECT ==> Table(d)[i].blocks[NDIRECT] !in Used(d'))
  {
    var ow :| Consistent(d, ow);
    var w := JobFor(d, ow, i, data, g);
    var c := DirectCounts(d, ow, w);
    var d' := DirectFinish(d, ow, w, c);
    OneFewer(Used(c.d), c.blocks[NDIRECT]);
    DirectArithmetic(|Used(d)|, w.x.size, |data|, |Used(c.d)|, |Used(d')|);
  }

  lemma DirectFinish(d: Image, ow: Owners, w: Job, c: Cursor) returns (d': Image)
    requires Live(Table(d), w.i) && w == JobFor(d, ow, w.i, w.data, w.g)
    requires |w.data| <= DIRECT_BYTES && w.x.size <= MAX_BYTES && ValidCursor(c) && c.blocks[NDIRECT] < BLOCK_NUM
    requires c == WriteUpTo(StartWrite(d, w.x, w.g), w.data, w.x.size, w.NewBlocks(), w.g)
    ensures d' == WriteFile(d, w.i, w.data, w.g) && Used(d') == Used(c.d) - {c.blocks[NDIRECT] as nat}
  {
    FinishCases(c, |w.data|, w.x.size, w.g);
    var d1 := FreeBlock(c.d, c.blocks[NDIRECT]);
    FreeRefinesRemove(c.d, c.blocks[NDIRECT]);
    WriteFileIs(d, ow, w, c, d1);
    PutRefinesUpdate(d1, w.i, NewRecord(c, w));
    d' := WriteFile(d, w.i, w.data, w.g);
  }

  lemma DirectArithmetic(used: nat, o: nat, s: nat, mid: nat, after: nat)
    requires s <= DIRECT_BYTES && mid == used - SlotCount(o) + HeldCount(BlocksFor(o), BlocksFor(s))
    requires after == mid - if BlocksFor(o) > NDIRECT then 1 else 0
    ensures after == used - Min(BlocksFor(o), NDIRECT) + BlocksFor(s) - if BlocksFor(o) > NDIRECT then 1 else 0
  {
  }

  lemma OneFewer(used: set<nat>, b: nat)
    ensures |used - {b}| == |used| - if b in used then 1 else 0
  {
    if b !in used {
      assert used - {b} == used;
    }
  }
}
