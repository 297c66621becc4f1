/**
 * The good writes are exactly the writes that work.
 *
 * Some bytes of a consistent disk mean nothing: the entries of an indirect block past the last block of its
 * file are whatever an uninitialised buffer held.  Twin disks differ only there.  A write works for every twin
 * and every content of the buffers if and only if it is good.
 */
module Exactness {
  import opened Layout
  import opened DiskImage
  import opened Bitmap
  import opened InodeTable
  import opened FileOps
  import opened Ownership
  import opened Files
  import opened WriteLoop
  import opened WriteProof
  import opened Conservation
  import opened Refinement

  /** d' differs from d at most in the meaningless entries of the indirect block of x. */
  ghost predicate Twin(d: Image, d': Image, x: Inode) {
    var ind, n := x.blocks[NDIRECT], BlocksFor(x.size);
    && (forall b :: 0 <= b < BLOCK_NUM && (b != ind || n <= NDIRECT) ==> d'[b] == d[b])
    && (n > NDIRECT && ind < BLOCK_NUM ==>
          forall v: nat :: v < n - NDIRECT && v < NINDIRECT ==> Word(d'[ind], v) == Word(d[ind], v))
  }

  /** The write leaves a consistent disk on which file i has the new contents and all else is as before. */
  ghost predicate WriteWorks(d: Image, i: nat, data: seq<byte>, g: Garbage) {
    var d' := WriteFile(d, i, data, g);
    && Inv(d')
    && i in FilesOf(d) && FilesOf(d') == FilesOf(d)[i := FilesOf(d)[i].(bytes := data)]
  }

  // ---- twins are indistinguishable ------------------------------------------------------------------------

  lemma TwinAgrees(used: set<nat>, t: seq<Inode>, d: Image, ow: Owners, i: nat, d': Image)
    requires Agrees(used, t, d, ow) && Live(t, i) && Twin(d, d', t[i])
    ensures OthersKept(d, ow, d', ow, i)
    ensures FileOk(d', t[i], ow, i)
  {
    var x, n := t[i], BlocksFor(t[i].size);
    assert FileOk(d, x, ow, i);
    if n > NDIRECT {
      IndirectPointer(used, t, d, ow, i);
    }
    var m, m' := SlotMap(d, x), SlotMap(d', x);
    forall k: nat | k <= INDIRECT_SLOT && UsesSlot(x.size, k)
      ensures SlotId(d', x, k) == SlotId(d, x, k)
    {
      if NDIRECT <= k < INDIRECT_SLOT {
        assert Word(d'[x.blocks[NDIRECT]], k - NDIRECT) == Word(d[x.blocks[NDIRECT]], k - NDIRECT);
      }
    }
    assert m' == m;
  }

  /** Metadata lies outside the block in which twins differ. */
  lemma TwinMetadata(d: Image, d': Image, x: Inode)
    requires Twin(d, d', x) && (BlocksFor(x.size) > NDIRECT ==> FIRST_DATA <= x.blocks[NDIRECT])
    ensures Used(d') == Used(d) && Table(d') == Table(d)
  {
    SameBitmapSameUsed(d, d');
    SameBlocksSameTable(d, d');
  }

  lemma TwinConsistent(d: Image, ow: Owners, i: nat, d': Image)
    requires Consistent(d, ow) && Live(Table(d), i) && Twin(d, d', Table(d)[i])
    ensures Consistent(d', ow) && Used(d') == Used(d) && Table(d') == Table(d)
  {
    if BlocksFor(Table(d)[i].size) > NDIRECT {
      IndirectPointer(Used(d), Table(d), d, ow, i);
    }
    TwinMetadata(d, d', Table(d)[i]);
    TwinAgrees(Used(d), Table(d), d, ow, i, d');
    Reassemble(Used(d), Table(d), d, ow, Used(d'), d', ow, i, Table(d)[i]);
    assert Table(d)[i := Table(d)[i]] == Table(d);
  }

  /** A good write works on every twin. */
  lemma GoodWriteWorks(d: Image, i: nat, data: seq<byte>, d': Image, g: Garbage)
    requires Inv(d) && Live(Table(d), i) && GoodWrite(d, i, |data|) && Twin(d, d', Table(d)[i])
    ensures WriteWorks(d', i, data, g)
  {
    var ow :| Consistent(d, ow);
    TwinConsistent(d, ow, i, d');
    GoodWriteFiles(d', i, data, g);
  }

  // ---- what a broken write leaves behind ------------------------------------------------------------------

  /** On a consistent disk, records are in order and slots refer to allocated blocks. */
  lemma InvRecord(d: Image, i: nat)
    requires Inv(d) && Live(Table(d), i)
    ensures InodeOk(Table(d)[i])
  {
    var ow :| Consistent(d, ow);
    assert FileOk(d, Table(d)[i], ow, i);
  }

  lemma InvSlot(d: Image, i: nat, k: nat)
    requires Inv(d) && Live(Table(d), i) && k <= INDIRECT_SLOT && UsesSlot(Table(d)[i].size, k)
    ensures SlotId(d, Table(d)[i], k) in Used(d) && FIRST_DATA <= SlotId(d, Table(d)[i], k) < BLOCK_NUM
  {
    var ow :| Consistent(d, ow);
    AgreesSlot(Used(d), Table(d), d, ow, i, k);
  }

  lemma AgreesSlot(used: set<nat>, t: seq<Inode>, d: Image, ow: Owners, i: nat, k: nat)
    requires Agrees(used, t, d, ow) && Live(t, i) && k <= INDIRECT_SLOT && UsesSlot(t[i].size, k)
    ensures SlotId(d, t[i], k) in used && FIRST_DATA <= SlotId(d, t[i], k) < BLOCK_NUM
  {
    var m := SlotMap(d, t[i]);
    assert FileOk(d, t[i], ow, i);
    assert k in m && m[k] in ow;
  }

  /** Two file maps that differ only in the size of file i. */
  ghost predicate Resized(m: FileMap, m': FileMap, i: nat) {
    && m'.Keys == m.Keys && i in m
    && forall j :: j in m && j != i ==> |m'[j].bytes| == |m[j].bytes|
  }

  lemma {:induction false} DemandResized(m: FileMap, m': FileMap, i: nat, n: nat)
    requires Resized(m, m', i)
    ensures Demand(m', n) == Demand(m, n) + if i < n then SlotCount(|m'[i].bytes|) - SlotCount(|m[i].bytes|) else 0
    decreases n
  {
    if n > 0 {
      DemandResized(m, m', i, n - 1);
    }
  }

  /** If both disks are consistent and only inode i's size differs, the allocated counts differ accordingly. */
  lemma CountsMatch(d: Image, d': Image, i: nat, x: Inode)
    requires Inv(d) && Inv(d') && Live(Table(d), i) && x.typ == Table(d)[i].typ
    requires Table(d') == Table(d)[i := x]
    ensures |Used(d')| == |Used(d)| - SlotCount(Table(d)[i].size) + SlotCount(x.size)
  {
    BlocksConserved(d);
    BlocksConserved(d');
    ResizedFiles(d, Table(d), d', i, x);
    DemandResized(FilesOf(d), FilesOf(d'), i, INODE_NUM);
  }

  lemma ResizedFiles(d: Image, t: seq<Inode>, d': Image, i: nat, x: Inode)
    requires Live(t, i) && x.typ == t[i].typ
    ensures Resized(FilesIn(d, t), FilesIn(d', t[i := x]), i)
    ensures |FilesIn(d, t)[i].bytes| == t[i].size && |FilesIn(d', t[i := x])[i].bytes| == x.size
  {
    var t' := t[i := x];
    forall j: nat
      ensures Live(t', j) == Live(t, j)
    {
    }
  }

  /** The record of inode i after a write, and the disk it is stored on. */
  ghost function AfterLoop(d: Image, i: nat, data: seq<byte>, g: Garbage): (c: Cursor)
    requires i < INODE_NUM && |data| <= MAX_BYTES
    ensures ValidCursor(c)
  {
    var x := Table(d)[i];
    WriteUpTo(StartWrite(d, x, g), data, ToInt(x.size), BlocksFor(|data|), g)
  }

  ghost function BeforePut(d: Image, i: nat, data: seq<byte>, g: Garbage): Image
    requires i < INODE_NUM && |data| <= MAX_BYTES
  {
    FinishWrite(AfterLoop(d, i, data, g), |data|, ToInt(Table(d)[i].size), g)
  }

  ghost function Stored(d: Image, i: nat, data: seq<byte>, g: Garbage): Inode
    requires i < INODE_NUM && |data| <= MAX_BYTES
  {
    Table(d)[i].(size := |data|, blocks := AfterLoop(d, i, data, g).blocks)
  }

  lemma WriteStores(d: Image, i: nat, data: seq<byte>, g: Garbage)
    requires Live(Table(d), i) && |data| <= MAX_BYTES
    ensures WriteFile(d, i, data, g) == PutInode(BeforePut(d, i, data, g), i, Stored(d, i, data, g))
    ensures var d' := WriteFile(d, i, data, g);
            && Table(d') == Table(BeforePut(d, i, data, g))[i := Stored(d, i, data, g)]
            && Used(d') == Used(BeforePut(d, i, data, g)) && Live(Table(d'), i)
            && SameData(BeforePut(d, i, data, g), d')
  {
    assert Table(d)[i] == InodeAt(d, i);
    PutRefinesUpdate(BeforePut(d, i, data, g), i, Stored(d, i, data, g));
  }

  // ---- stale pointers -------------------------------------------------------------------------------------

  ghost predicate SamePointers(c: Cursor, c': Cursor, k: nat) {
    ValidCursor(c) && ValidCursor(c') && forall j :: k <= j <= NDIRECT ==> c'.blocks[j] == c.blocks[j]
  }

  lemma SamePointersAfter(c: Cursor, c1: Cursor, c': Cursor, k: nat)
    requires SamePointers(c, c1, k) && SamePointers(c1, c', k + 1)
    ensures SamePointers(c, c', k + 1)
  {
  }

  /** While all blocks are direct, pointers from k on are the old ones. */
  lemma {:induction false} PointersStay(c: Cursor, data: seq<byte>, o: int, k: nat, g: Garbage) returns (c': Cursor)
    requires ValidCursor(c) && |data| <= DIRECT_BYTES && k <= BlocksFor(|data|)
    ensures c' == WriteUpTo(c, data, o, k, g) && SamePointers(c, c', k)
    decreases k
  {
    if k == 0 {
      c' := c;
    } else {
      var j := k - 1;
      assert j + 1 == k;
      var c1 := PointersStay(c, data, o, j, g);
      c' := PointersStayNext(c, c1, data, o, j, g);
    }
  }

  lemma PointersStayNext(c: Cursor, c1: Cursor, data: seq<byte>, o: int, j: nat, g: Garbage) returns (c': Cursor)
    requires ValidCursor(c) && |data| <= DIRECT_BYTES && j < BlocksFor(|data|)
    requires c1 == WriteUpTo(c, data, o, j, g) && SamePointers(c, c1, j)
    ensures c' == WriteUpTo(c, data, o, j + 1, g) && SamePointers(c, c', j + 1)
  {
    c' := PointersStayOne(c1, data, o, j, g);
    SamePointersAfter(c, c1, c', j);
    UnfoldWrite(c, data, o, j, g, c1, c');
  }

  lemma PointersStayOne(c: Cursor, data: seq<byte>, o: int, j: nat, g: Garbage) returns (c': Cursor)
    requires ValidCursor(c) && |data| <= DIRECT_BYTES && j < BlocksFor(|data|)
    ensures c' == WriteStep(c, data, o, j, g) && SamePointers(c, c', j + 1)
  {
    assert WritesDirect(|data|, j);
    c' := WriteStep(c, data, o, j, g);
  }

  /** The least pointer that a shrinking write leaves stale. */
  function StaleIndex(n: nat, nb: nat): nat {
    if nb < Min(n, NDIRECT) then nb else NDIRECT
  }

  lemma StaleRecord(x: Inode, x': Inode)
    requires var n, nb := BlocksFor(x.size), BlocksFor(x'.size);
             && (Min(nb, NDIRECT) < Min(n, NDIRECT) || (n > NDIRECT && nb <= NDIRECT))
             && x.blocks[StaleIndex(n, nb)] != 0
             && forall j :: nb <= j <= NDIRECT ==> x'.blocks[j] == x.blocks[j]
    ensures !InodeOk(x')
  {
  }

  lemma OldPointer(d: Image, i: nat, j: nat)
    requires Inv(d) && Live(Table(d), i) && j <= NDIRECT
    requires BlocksFor(Table(d)[i].size) > j
    ensures Table(d)[i].blocks[j] != 0
  {
    InvSlot(d, i, if j == NDIRECT then INDIRECT_SLOT else j);
  }

  /** Shrinking to fewer direct blocks, or out of the indirect section, leaves a stale pointer behind. */
  lemma StaleBreaks(d: Image, i: nat, data: seq<byte>, g: Garbage)
    requires Inv(d) && Live(Table(d), i) && |data| <= MAX_BYTES
    requires var n, nb := BlocksFor(Table(d)[i].size), BlocksFor(|data|);
             Min(nb, NDIRECT) < Min(n, NDIRECT) || (n > NDIRECT && nb <= NDIRECT)
    ensures !Inv(WriteFile(d, i, data, g))
  {
    var x, x' := Table(d)[i], Stored(d, i, data, g);
    var n, nb := BlocksFor(x.size), BlocksFor(|data|);
    OldPointer(d, i, StaleIndex(n, nb));
    var c := PointersStay(StartWrite(d, x, g), data, ToInt(x.size), nb, g);
    StaleRecord(x, x');
    WriteStores(d, i, data, g);
    if Inv(WriteFile(d, i, data, g)) {
      InvRecord(WriteFile(d, i, data, g), i);
      assert false;
    }
  }

  // ---- allocating steps, successful or not ----------------------------------------------------------------

  lemma PlaceAny(d: Image, b: Block)
    ensures var (d', id) := PlaceFresh(d, b);
            && FreshOrNone(id) && Table(d') == Table(d)
            && |Used(d')| == |Used(d)| + if id == NO_BLOCK then 0 else 1
  {
    AllocAny(d);
    StoreKeepsMetadata(AllocBlock(d).0, AllocBlock(d).1, b);
  }

  // ---- the misplaced ninth block --------------------------------------------------------------------------

  /** After k direct steps: one more block per step, unless an allocation failed. */
  ghost predicate DirectTally(c: Cursor, c': Cursor, k: nat) {
    && ValidCursor(c') && k <= NDIRECT + 1
    && Table(c'.d) == Table(c.d)
    && ((exists j :: 0 <= j < k && c'.blocks[j] == NO_BLOCK) || |Used(c'.d)| == |Used(c.d)| + k)
  }

  /** For sizes 4097..4607 all nine blocks take the direct section. */
  lemma {:induction false} MisplacedLoop(c: Cursor, data: seq<byte>, o: int, k: nat, g: Garbage) returns (c': Cursor)
    requires ValidCursor(c) && Misplaced(|data|) && k <= BlocksFor(|data|)
    ensures c' == WriteUpTo(c, data, o, k, g) && DirectTally(c, c', k)
    decreases k
  {
    if k == 0 {
      c' := c;
    } else {
      var j := k - 1;
      assert j + 1 == k;
      var c1 := MisplacedLoop(c, data, o, j, g);
      c' := MisplacedStep(c1, data, o, j, g);
      TallyStep(c, c1, c', j);
      UnfoldWrite(c, data, o, j, g, c1, c');
    }
  }

  lemma TallyStep(c: Cursor, c1: Cursor, c': Cursor, k: nat)
    requires DirectTally(c, c1, k) && k <= NDIRECT && ValidCursor(c') && Table(c'.d) == Table(c1.d)
    requires forall j :: 0 <= j < k ==> c'.blocks[j] == c1.blocks[j]
    requires c'.blocks[k] == NO_BLOCK || |Used(c'.d)| == |Used(c1.d)| + 1
    ensures DirectTally(c, c', k + 1)
  {
    if j :| 0 <= j < k && c1.blocks[j] == NO_BLOCK {
      assert c'.blocks[j] == NO_BLOCK;
    }
  }

  lemma MisplacedStep(c: Cursor, data: seq<byte>, o: int, k: nat, g: Garbage) returns (c': Cursor)
    requires ValidCursor(c) && Misplaced(|data|) && k < BlocksFor(|data|)
    ensures c' == WriteStep(c, data, o, k, g) && Table(c'.d) == Table(c.d)
    ensures forall j :: 0 <= j < k ==> c'.blocks[j] == c.blocks[j]
    ensures c'.blocks[k] == NO_BLOCK || |Used(c'.d)| == |Used(c.d)| + 1
  {
    assert WritesDirect(|data|, k);
    PlaceAny(c.d, Chunk(data, k, g.fill(k)));
    c' := WriteStep(c, data, o, k, g);
  }

  /** The nine blocks are one short of the ten that such a file owns, or the old indirect section leaks. */
  lemma MisplacedBreaks(d: Image, i: nat, data: seq<byte>, g: Garbage)
    requires Inv(d) && Live(Table(d), i) && Misplaced(|data|)
    ensures !Inv(WriteFile(d, i, data, g))
  {
    var x, d' := Table(d)[i], WriteFile(d, i, data, g);
    var c0 := StartWrite(d, x, g);
    StartCounts(d, i, g);
    var c := MisplacedLoop(c0, data, ToInt(x.size), BlocksFor(|data|), g);
    FinishCases(c, |data|, ToInt(x.size), g);
    WriteStores(d, i, data, g);
    TallyBreaks(d, d', i, Stored(d, i, data, g), c0, c);
  }

  lemma TallyBreaks(d: Image, d': Image, i: nat, x': Inode, c0: Cursor, c: Cursor)
    requires Inv(d) && Live(Table(d), i) && DirectTally(c0, c, NDIRECT + 1) && Misplaced(x'.size)
    requires x'.typ == Table(d)[i].typ && x'.blocks == c.blocks && Table(d') == Table(d)[i := x']
    requires |Used(c0.d)| == |Used(d)| - Min(BlocksFor(Table(d)[i].size), NDIRECT) && Used(d') == Used(c.d)
    ensures !Inv(d')
  {
    NotTen(Table(d)[i].size, x'.size);
    if j :| 0 <= j < NDIRECT + 1 && c.blocks[j] == NO_BLOCK {
      MissingBreaks(d', i, j);
    } else if Inv(d') {
      CountsMatch(d, d', i, x');
      assert false;
    }
  }

  /** A file of nine blocks cannot have the code for "no block" among its pointers. */
  lemma MissingBreaks(d: Image, i: nat, j: nat)
    requires Live(Table(d), i) && Misplaced(Table(d)[i].size) && j <= NDIRECT && Table(d)[i].blocks[j] == NO_BLOCK
    ensures !Inv(d)
  {
    assert BlocksFor(Table(d)[i].size) == NDIRECT + 1;
    if Inv(d) {
      InvSlot(d, i, if j == NDIRECT then INDIRECT_SLOT else j);
      assert false;
    }
  }

  lemma NotTen(o: nat, s: nat)
    requires Misplaced(s)
    ensures NDIRECT + 1 - Min(BlocksFor(o), NDIRECT) != SlotCount(s) - SlotCount(o)
  {
  }

  lemma StartCounts(d: Image, i: nat, g: Garbage)
    requires Inv(d) && Live(Table(d), i)
    ensures var c0 := StartWrite(d, Table(d)[i], g);
            && Table(c0.d) == Table(d)
            && |Used(c0.d)| == |Used(d)| - Min(BlocksFor(Table(d)[i].size), NDIRECT)
  {
    var ow :| Consistent(d, ow);
    StartCountsWith(d, ow, i, Table(d)[i].blocks[..NDIRECT], StartWrite(d, Table(d)[i], g).d);
  }

  lemma StartCountsWith(d: Image, ow: Owners, i: nat, ids: seq<u32>, d1: Image)
    requires Consistent(d, ow) && Live(Table(d), i)
    requires ids == Table(d)[i].blocks[..NDIRECT] && d1 == FreeAll(d, ids)
    ensures Table(d1) == Table(d) && |Used(d1)| == |Used(d)| - Min(BlocksFor(Table(d)[i].size), NDIRECT)
  {
    DirectPointers(Used(d), Table(d), d, ow, i);
    FreeAllFrame(d, ids);
    DirectCount(Used(d), Table(d), d, ow, i);
  }

  // ---- no room --------------------------------------------------------------------------------------------

  /** The table is as it was, and the indirect pointer is null, missing, or in the data area. */
  ghost predicate TableStays(c: Cursor, t: seq<Inode>, n: nat, k: nat, ind: u32) {
    && ValidCursor(c) && Table(c.d) == t
    && if n <= NDIRECT < k then FreshOrNone(c.blocks[NDIRECT]) else c.blocks[NDIRECT] == ind
  }

  /** A step that does not reuse an old block leaves the table alone, whether its allocations succeed or not. */
  lemma AllocatingStep(c: Cursor, data: seq<byte>, o: nat, k: nat, g: Garbage, t: seq<Inode>, ind: u32)
    requires |data| <= MAX_BYTES && LoopFits(o, |data|, k + 1) && (k < NDIRECT || k >= BlocksFor(o))
    requires TableStays(c, t, BlocksFor(o), k, ind)
    ensures TableStays(WriteStep(c, data, o, k, g), t, BlocksFor(o), k + 1, ind)
  {
    StepKind(o, |data|, k);
    var b := Chunk(data, k, g.fill(k));
    PlaceAny(c.d, b);
    AllocAny(c.d);
    PlaceAny(AllocBlock(c.d).0, b);
  }

  lemma {:induction false} AllocatingSteps(
      c0: Cursor, data: seq<byte>, o: nat, from: nat, k: nat, g: Garbage, t: seq<Inode>, ind: u32)
    returns (c: Cursor)
    requires ValidCursor(c0) && |data| <= MAX_BYTES && from <= k && LoopFits(o, |data|, k)
    requires o <= DIRECT_BYTES || BlocksFor(o) <= from
    requires TableStays(WriteUpTo(c0, data, o, from, g), t, BlocksFor(o), from, ind)
    ensures c == WriteUpTo(c0, data, o, k, g) && TableStays(c, t, BlocksFor(o), k, ind)
    decreases k - from
  {
    if k == from {
      c := WriteUpTo(c0, data, o, from, g);
    } else {
      var j := k - 1;
      assert LoopFits(o, |data|, j) && j + 1 == k;
      var c1 := AllocatingSteps(c0, data, o, from, j, g, t, ind);
      AllocatingStep(c1, data, o, j, g, t, ind);
      c := WriteStep(c1, data, o, j, g);
      UnfoldWrite(c0, data, o, j, g, c1, c);
    }
  }

  /** The loop's starting point, from the invariant alone. */
  lemma StartRuns(d: Image, i: nat, data: seq<byte>, g: Garbage) returns (w: Job, c0: Cursor)
    requires Inv(d) && Live(Table(d), i) && |data| <= MAX_BYTES
    ensures w.d0 == d && w.i == i && w.x == Table(d)[i] && w.data == data && w.g == g
    ensures w.prev == Fetch(d, w.x.blocks[NDIRECT], ZeroBlock())
    ensures c0 == StartWrite(d, w.x, g) && Running(c0, 0, w, OtherBlocks(d, i))
    ensures InodeOk(w.x) && |Used(d)| <= DATA_BLOCKS
  {
    var ow :| Consistent(d, ow);
    w := JobFor(d, ow, i, data, g);
    c0 := RunningBeforeLoop(d, ow, w);
    InvRecord(d, i);
    FullMeansAllUsed(d);
  }

  /** As far as the old blocks reach, the loop cannot run out of room. */
  lemma RunToGrowth(d: Image, i: nat, data: seq<byte>, g: Garbage, from: nat) returns (c1: Cursor)
    requires Inv(d) && Live(Table(d), i) && LoopFits(Table(d)[i].size, |data|, from)
    requires from == 0 || from == BlocksFor(Table(d)[i].size) > NDIRECT
    ensures var x := Table(d)[i];
            && c1 == WriteUpTo(StartWrite(d, x, g), data, x.size, from, g)
            && TableStays(c1, Table(d), BlocksFor(x.size), from, x.blocks[NDIRECT])
  {
    HeldSoFar(Table(d)[i].size, from);
    var w, c0 := StartRuns(d, i, data, g);
    c1 := RunningUpTo(c0, w, OtherBlocks(d, i), from);
    RunningKeepsTable(c1, from, w, OtherBlocks(d, i));
  }

  lemma HeldSoFar(o: nat, k: nat)
    requires k == 0 || NDIRECT < k <= BlocksFor(o)
    ensures HeldCount(BlocksFor(o), k) <= SlotCount(o)
  {
  }

  /** Growing without room still leaves the table alone. */
  lemma GrowKeepsTable(d: Image, i: nat, data: seq<byte>, g: Garbage) returns (c: Cursor)
    requires Inv(d) && Live(Table(d), i) && SizesFit(Table(d)[i].size, |data|) && Table(d)[i].size <= MAX_BYTES
    requires BlocksFor(Table(d)[i].size) < BlocksFor(|data|)
    ensures c == AfterLoop(d, i, data, g)
    ensures TableStays(c, Table(d), BlocksFor(Table(d)[i].size), BlocksFor(|data|), Table(d)[i].blocks[NDIRECT])
  {
    var x := Table(d)[i];
    var from := if BlocksFor(x.size) > NDIRECT then BlocksFor(x.size) else 0;
    var c1 := RunToGrowth(d, i, data, g, from);
    c := AllocatingSteps(StartWrite(d, x, g), data, x.size, from, BlocksFor(|data|), g, Table(d), x.blocks[NDIRECT]);
  }

  lemma RunningKeepsTable(c: Cursor, k: nat, w: Job, base: int)
    requires Running(c, k, w, base) && (k <= NDIRECT || w.OldBlocks() > NDIRECT)
    ensures TableStays(c, Table(w.d0), w.OldBlocks(), k, w.x.blocks[NDIRECT])
  {
    var ow :| RunningWith(c, ow, k, w, base);
  }

  /** Finishing a growing write leaves the table alone. */
  lemma FinishKeepsTable(c: Cursor, x: Inode, s: nat, g: Garbage, t: seq<Inode>)
    requires TableStays(c, t, BlocksFor(x.size), BlocksFor(s), x.blocks[NDIRECT])
    requires InodeOk(x) && SizesFit(x.size, s) && x.size <= s
    requires BlocksFor(x.size) > NDIRECT ==> FIRST_DATA <= x.blocks[NDIRECT]
    ensures Table(FinishWrite(c, s, x.size, g)) == t
  {
    assert BlocksFor(s) <= NDIRECT <==> s < DIRECT_BYTES + BLOCK_SIZE;
    FinishCases(c, s, x.size, g);
    if s <= DIRECT_BYTES {
      FreeRefinesRemove(c.d, 0);
      SameBlocksSameTable(c.d, FreeBlock(c.d, 0));
    } else {
      StoreKeepsMetadata(c.d, c.blocks[NDIRECT], c.final);
    }
  }

  lemma NoRoomTable(d: Image, i: nat, data: seq<byte>, g: Garbage)
    requires Inv(d) && Live(Table(d), i) && SizesFit(Table(d)[i].size, |data|)
    requires SlotCount(Table(d)[i].size) < SlotCount(|data|)
    ensures Table(BeforePut(d, i, data, g)) == Table(d)
  {
    var x := Table(d)[i];
    InvRecord(d, i);
    MoreSlots(x.size, |data|);
    if BlocksFor(x.size) > NDIRECT {
      InvSlot(d, i, INDIRECT_SLOT);
    }
    var c := GrowKeepsTable(d, i, data, g);
    FinishKeepsTable(c, x, |data|, g, Table(d));
    BeforePutIs(d, i, data, g, x, c);
  }

  lemma BeforePutIs(d: Image, i: nat, data: seq<byte>, g: Garbage, x: Inode, c: Cursor)
    requires i < INODE_NUM && |data| <= MAX_BYTES && x == Table(d)[i] && x.size <= MAX_BYTES
    requires c == AfterLoop(d, i, data, g)
    ensures BeforePut(d, i, data, g) == FinishWrite(c, |data|, x.size, g)
  {
  }

  /** Without room, the allocated blocks cannot be what the files call for. */
  lemma NoRoomBreaks(d: Image, i: nat, data: seq<byte>, g: Garbage)
    requires Inv(d) && Live(Table(d), i) && SizesFit(Table(d)[i].size, |data|)
    requires !HasRoom(d, Table(d)[i].size, |data|)
    ensures !Inv(WriteFile(d, i, data, g))
  {
    FullMeansAllUsed(d);
    NoRoomTable(d, i, data, g);
    WriteStores(d, i, data, g);
    OverfullBreaks(d, WriteFile(d, i, data, g), i, Stored(d, i, data, g));
  }

  lemma MoreSlots(o: nat, s: nat)
    requires SlotCount(o) < SlotCount(s)
    ensures BlocksFor(o) < BlocksFor(s) && o < s
  {
  }

  lemma OverfullBreaks(d: Image, d': Image, i: nat, x': Inode)
    requires Inv(d) && Live(Table(d), i) && x'.typ == Table(d)[i].typ && Table(d') == Table(d)[i := x']
    requires !HasRoom(d, Table(d)[i].size, x'.size)
    ensures !Inv(d')
  {
    if Inv(d') {
      CountsMatch(d, d', i, x');
      FullMeansAllUsed(d');
      assert false;
    }
  }

  // ---- one entry too many on shrinking --------------------------------------------------------------------

  /** c is the loop after k iterations; the old indirect block is still in place. */
  ghost predicate LoopAt(c: Cursor, d: Image, x: Inode, data: seq<byte>, k: nat, g: Garbage)
    requires |data| <= MAX_BYTES && k <= BlocksFor(|data|)
  {
    var ind := x.blocks[NDIRECT];
    && c == WriteUpTo(StartWrite(d, x, g), data, x.size, k, g)
    && c.blocks[NDIRECT] == ind && FIRST_DATA <= ind < BLOCK_NUM && c.d[ind] == d[ind]
  }

  /** As long as the loop decides well and needs no extra room, it reaches that state. */
  lemma ReachesLoopAt(d: Image, i: nat, data: seq<byte>, k: nat, g: Garbage) returns (c: Cursor)
    requires Inv(d) && Live(Table(d), i) && BlocksFor(Table(d)[i].size) > NDIRECT && k <= BlocksFor(|data|)
    requires LoopFits(Table(d)[i].size, |data|, k)
    requires HeldCount(BlocksFor(Table(d)[i].size), k) <= SlotCount(Table(d)[i].size)
    ensures LoopAt(c, d, Table(d)[i], data, k, g)
  {
    var w, c0 := StartRuns(d, i, data, g);
    c := RunningUpTo(c0, w, OtherBlocks(d, i), k);
    IndirectKept(c, k, w, OtherBlocks(d, i));
  }

  /** Entries of blocks that the file has are in range. */
  lemma EntriesInRange(d: Image, i: nat)
    requires Inv(d) && Live(Table(d), i) && BlocksFor(Table(d)[i].size) > NDIRECT
    ensures var x := Table(d)[i];
            && x.blocks[NDIRECT] < BLOCK_NUM && BlocksFor(x.size) <= MAX_BLOCKS
            && forall v: nat :: v < BlocksFor(x.size) - NDIRECT ==> Word(d[x.blocks[NDIRECT]], v) < BLOCK_NUM
  {
    var x := Table(d)[i];
    InvRecord(d, i);
    InvSlot(d, i, INDIRECT_SLOT);
    var ow :| Consistent(d, ow);
    forall v: nat | v < BlocksFor(x.size) - NDIRECT
      ensures Word(d[x.blocks[NDIRECT]], v) < BLOCK_NUM
    {
      EntryInRange(Used(d), Table(d), d, ow, i, v);
    }
  }

  lemma EntryInRange(used: set<nat>, t: seq<Inode>, d: Image, ow: Owners, i: nat, v: nat)
    requires Agrees(used, t, d, ow) && Live(t, i) && t[i].size <= MAX_BYTES && t[i].blocks[NDIRECT] < BLOCK_NUM
    requires v < BlocksFor(t[i].size) - NDIRECT
    ensures Word(d[t[i].blocks[NDIRECT]], v) < BLOCK_NUM
  {
    var k := v + NDIRECT;
    assert k < INDIRECT_SLOT && UsesSlot(t[i].size, k);
    AgreesSlot(used, t, d, ow, i, k);
    SlotIsEntry(d, t[i], v);
  }

  lemma SlotIsEntry(d: Image, x: Inode, v: nat)
    requires x.blocks[NDIRECT] < BLOCK_NUM && v < NINDIRECT
    ensures SlotId(d, x, v + NDIRECT) == Word(d[x.blocks[NDIRECT]], v)
  {
  }

  /** The sizes of a shrink that frees one entry too many. */
  predicate ShrinksShort(o: nat, s: nat) {
    o <= MAX_BYTES && DIRECT_BYTES + BLOCK_SIZE <= s < o && LastBytes(o) > LastBytes(s)
  }

  lemma ShortShrinkFits(o: nat, s: nat)
    requires ShrinksShort(o, s)
    ensures LoopFits(o, s, BlocksFor(s)) && HeldCount(BlocksFor(o), BlocksFor(s)) == SlotCount(o)
    ensures NDIRECT < BlocksFor(s) <= BlocksFor(o) <= MAX_BLOCKS
    ensures BlocksFor(o - s) == BlocksFor(o) - BlocksFor(s) + 1
  {
    ShrinkAccounting(o, s);
  }

  /** The entry past the last block of the file, which a short shrink frees and a short growth reuses. */
  ghost function StrayEntry(d: Image, x: Inode, g: Garbage): u32
    requires BlocksFor(x.size) > NDIRECT && x.blocks[NDIRECT] < BLOCK_NUM
  {
    Pointer(d[x.blocks[NDIRECT]], BlocksFor(x.size) - NDIRECT, g)
  }

  lemma StrayIsLast(prev: Block, from: nat, g: Garbage, ids: seq<u32>, last: nat, ind: u32)
    requires ids != [] && last == from + |ids| - 1 && last <= NINDIRECT
    requires forall x :: 0 <= x < |ids| ==> ids[x] == Pointer(prev, from + x, g)
    requires Pointer(prev, last, g) == ind < BLOCK_NUM
    requires forall v: nat :: v < last ==> Word(prev, v) < BLOCK_NUM
    ensures ind as nat in Ids(ids) && forall x :: 0 <= x < |ids| ==> ids[x] < BLOCK_NUM
  {
    assert ids[|ids| - 1] == ind;
    forall x | 0 <= x < |ids| - 1
      ensures ids[x] < BLOCK_NUM
    {
      assert ids[x] == Word(prev, from + x);
    }
  }

  lemma ShortShrinkFrees(c: Cursor, o: nat, s: nat, g: Garbage, prev: Block, from: nat, last: nat)
    returns (ids: seq<u32>)
    requires ValidCursor(c) && s <= MAX_BYTES && ShrinksShort(o, s)
    requires c.blocks[NDIRECT] < BLOCK_NUM && c.d[c.blocks[NDIRECT]] == prev
    requires from == BlocksFor(s) - NDIRECT && BlocksFor(o - s) == last - from + 1 && from <= last <= NINDIRECT
    requires Pointer(prev, last, g) == c.blocks[NDIRECT]
    requires forall v: nat :: v < last ==> Word(prev, v) < BLOCK_NUM
    ensures FinishWrite(c, s, o, g) == Store(FreeAll(c.d, ids), c.blocks[NDIRECT], c.final)
    ensures c.blocks[NDIRECT] as nat in Ids(ids) && forall x :: 0 <= x < |ids| ==> ids[x] < BLOCK_NUM
  {
    ids := FinishCaseShrink(c, s, o, g, prev, from);
    StrayIsLast(prev, from, g, ids, last, c.blocks[NDIRECT]);
  }

  /** If the stray entry names the indirect block, a short shrink frees the indirect block it still uses. */
  lemma ShortShrinkLoses(c: Cursor, o: nat, s: nat, g: Garbage, ind: u32, prev: Block)
    requires ValidCursor(c) && s <= MAX_BYTES && ShrinksShort(o, s)
    requires c.blocks[NDIRECT] == ind && FIRST_DATA <= ind < BLOCK_NUM && c.d[ind] == prev && BlocksFor(o) > NDIRECT
    requires Pointer(prev, BlocksFor(o) - NDIRECT, g) == ind
    requires forall v: nat :: v < BlocksFor(o) - NDIRECT && v < NINDIRECT ==> Word(prev, v) < BLOCK_NUM
    ensures ind !in Used(FinishWrite(c, s, o, g))
  {
    ShortShrinkFits(o, s);
    var ids := ShortShrinkFrees(c, o, s, g, prev, BlocksFor(s) - NDIRECT, BlocksFor(o) - NDIRECT);
    FreeAllFrame(c.d, ids);
    StoreKeepsMetadata(FreeAll(c.d, ids), ind, c.final);
  }

  lemma ShortShrinkBreaks(d: Image, i: nat, data: seq<byte>, g: Garbage)
    requires Inv(d) && Live(Table(d), i) && ShrinksShort(Table(d)[i].size, |data|)
    requires BlocksFor(Table(d)[i].size) > NDIRECT && Table(d)[i].blocks[NDIRECT] < BLOCK_NUM
    requires StrayEntry(d, Table(d)[i], g) == Table(d)[i].blocks[NDIRECT]
    ensures !Inv(WriteFile(d, i, data, g))
  {
    var x := Table(d)[i];
    ShortShrinkFits(x.size, |data|);
    EntriesInRange(d, i);
    var c := ReachesLoopAt(d, i, data, BlocksFor(|data|), g);
    ShortShrinkLoses(c, x.size, |data|, g, x.blocks[NDIRECT], d[x.blocks[NDIRECT]]);
    assert c == AfterLoop(d, i, data, g);
    WriteStores(d, i, data, g);
    if Inv(WriteFile(d, i, data, g)) {
      InvSlot(WriteFile(d, i, data, g), i, INDIRECT_SLOT);
      assert false;
    }
  }

  // ---- one block too few on growing -----------------------------------------------------------------------

  /** The last iteration of a short growth takes the stray entry for a block of the file. */
  lemma ShortGrowthStep(c: Cursor, data: seq<byte>, o: nat, g: Garbage) returns (c': Cursor)
    requires ValidCursor(c) && |data| <= MAX_BYTES && o > DIRECT_BYTES && GrowsShort(o, |data|)
    requires c.blocks[NDIRECT] < BLOCK_NUM && Pointer(c.d[c.blocks[NDIRECT]], BlocksFor(o) - NDIRECT, g) == 0
    ensures c' == WriteStep(c, data, o, BlocksFor(o), g)
    ensures c'.blocks == c.blocks && NDIRECT < BlocksFor(o) < MAX_BLOCKS && Word(c'.final, BlocksFor(o) - NDIRECT) == 0
  {
    var n := BlocksFor(o);
    ReuseDecision(o, |data|, n);
    c' := StepReuse(c, n, Chunk(data, n, g.fill(n)), g.unread(n));
    WordOfSetWord(c.final, n - NDIRECT, 0, n - NDIRECT);
  }

  lemma ShortGrowthFits(o: nat, s: nat)
    requires s <= MAX_BYTES && o > DIRECT_BYTES && GrowsShort(o, s)
    ensures LoopFits(o, s, BlocksFor(o)) && HeldCount(BlocksFor(o), BlocksFor(o)) == SlotCount(o)
    ensures s >= o && s >= DIRECT_BYTES + BLOCK_SIZE && BlocksFor(s) == BlocksFor(o) + 1
  {
  }

  lemma ShortGrowthRun(d: Image, i: nat, data: seq<byte>, g: Garbage) returns (c: Cursor)
    requires Inv(d) && Live(Table(d), i) && |data| <= MAX_BYTES && Table(d)[i].blocks[NDIRECT] < BLOCK_NUM
    requires Table(d)[i].size > DIRECT_BYTES && GrowsShort(Table(d)[i].size, |data|)
    requires StrayEntry(d, Table(d)[i], g) == 0
    ensures var x := Table(d)[i];
            && c == WriteUpTo(StartWrite(d, x, g), data, x.size, BlocksFor(|data|), g)
            && FIRST_DATA <= x.blocks[NDIRECT] && c.blocks[NDIRECT] == x.blocks[NDIRECT]
            && BlocksFor(x.size) < MAX_BLOCKS && Word(c.final, BlocksFor(x.size) - NDIRECT) == 0
  {
    var x := Table(d)[i];
    ShortGrowthFits(x.size, |data|);
    var c1 := ReachesLoopAt(d, i, data, BlocksFor(x.size), g);
    c := ShortGrowthStep(c1, data, x.size, g);
    UnfoldWrite(StartWrite(d, x, g), data, x.size, BlocksFor(x.size), g, c1, c);
  }

  lemma ShortGrowthBreaks(d: Image, i: nat, data: seq<byte>, g: Garbage)
    requires Inv(d) && Live(Table(d), i) && |data| <= MAX_BYTES && Table(d)[i].blocks[NDIRECT] < BLOCK_NUM
    requires Table(d)[i].size > DIRECT_BYTES && GrowsShort(Table(d)[i].size, |data|)
    requires StrayEntry(d, Table(d)[i], g) == 0
    ensures !Inv(WriteFile(d, i, data, g))
  {
    var x := Table(d)[i];
    InvRecord(d, i);
    ShortGrowthFits(x.size, |data|);
    var c := ShortGrowthRun(d, i, data, g);
    assert c == AfterLoop(d, i, data, g);
    FinishCases(c, |data|, x.size, g);
    WriteStores(d, i, data, g);
    ZeroSlot(WriteFile(d, i, data, g), i, BlocksFor(x.size), c.final);
  }

  lemma ZeroSlot(d: Image, i: nat, n: nat, f: Block)
    requires Live(Table(d), i) && NDIRECT <= n < MAX_BLOCKS && n < BlocksFor(Table(d)[i].size)
    requires Fetch(d, Table(d)[i].blocks[NDIRECT], ZeroBlock()) == f && Word(f, n - NDIRECT) == 0
    ensures !Inv(d)
  {
    if Inv(d) {
      InvSlot(d, i, n);
      assert false;
    }
  }

  // ---- the exact domain of write_file ---------------------------------------------------------------------

  /** Buffers that held zeros, with `v` past the end of the indirect block. */
  function Quiet(v: u32): Garbage {
    Garbage(ZeroBlock(), _ => ZeroBlock(), _ => ZeroBlock(), _ => v)
  }

  /** The twin whose stray entry is v. */
  lemma MakeTwin(d: Image, i: nat, v: u32) returns (d': Image)
    requires Inv(d) && Live(Table(d), i) && NDIRECT < BlocksFor(Table(d)[i].size) < MAX_BLOCKS
    ensures Twin(d, d', Table(d)[i]) && Inv(d') && Table(d') == Table(d)
    ensures Table(d)[i].blocks[NDIRECT] < BLOCK_NUM && StrayEntry(d', Table(d)[i], Quiet(v)) == v
  {
    var ow :| Consistent(d, ow);
    var x := Table(d)[i];
    InvSlot(d, i, INDIRECT_SLOT);
    d' := SetStray(d, x, v);
    TwinConsistent(d, ow, i, d');
  }

  lemma SetStray(d: Image, x: Inode, v: u32) returns (d': Image)
    requires NDIRECT < BlocksFor(x.size) < MAX_BLOCKS && x.blocks[NDIRECT] < BLOCK_NUM
    ensures Twin(d, d', x) && StrayEntry(d', x, Quiet(v)) == v
  {
    var ind, n := x.blocks[NDIRECT], BlocksFor(x.size);
    var b := SetWord(d[ind], n - NDIRECT, v);
    SetWordReplaces(d[ind], n - NDIRECT, v);
    d' := d[ind := b];
  }

  /** The full indirect block has no stray entry on disk: it lies past the end of the buffer. */
  lemma FullStray(d: Image, x: Inode, v: u32)
    requires BlocksFor(x.size) == MAX_BLOCKS && x.blocks[NDIRECT] < BLOCK_NUM
    ensures StrayEntry(d, x, Quiet(v)) == v
  {
  }

  lemma TwinReflexive(d: Image, x: Inode)
    ensures Twin(d, d, x)
  {
  }

  lemma ShortShrinkFails(d: Image, i: nat, data: seq<byte>) returns (d': Image, g: Garbage)
    requires Inv(d) && Live(Table(d), i) && ShrinksShort(Table(d)[i].size, |data|)
    ensures Twin(d, d', Table(d)[i]) && !Inv(WriteFile(d', i, data, g))
  {
    var x := Table(d)[i];
    ShortShrinkFits(x.size, |data|);
    InvSlot(d, i, INDIRECT_SLOT);
    g := Quiet(x.blocks[NDIRECT]);
    if BlocksFor(x.size) < MAX_BLOCKS {
      d' := MakeTwin(d, i, x.blocks[NDIRECT]);
    } else {
      d' := d;
      TwinReflexive(d, x);
      FullStray(d, x, x.blocks[NDIRECT]);
    }
    ShortShrinkBreaks(d', i, data, g);
  }

  lemma ShortGrowthFails(d: Image, i: nat, data: seq<byte>) returns (d': Image, g: Garbage)
    requires Inv(d) && Live(Table(d), i) && |data| <= MAX_BYTES
    requires Table(d)[i].size > DIRECT_BYTES && GrowsShort(Table(d)[i].size, |data|)
    ensures Twin(d, d', Table(d)[i]) && !Inv(WriteFile(d', i, data, g))
  {
    ShortGrowthFits(Table(d)[i].size, |data|);
    g := Quiet(0);
    d' := MakeTwin(d, i, 0);
    ShortGrowthBreaks(d', i, data, g);
  }

  /** Which of the conditions a bad write violates. */
  lemma WhyBad(o: nat, s: nat)
    requires o <= MAX_BYTES && s <= MAX_BYTES && !SizesFit(o, s)
    ensures || Min(BlocksFor(s), NDIRECT) < Min(BlocksFor(o), NDIRECT)
            || (BlocksFor(o) > NDIRECT && BlocksFor(s) <= NDIRECT)
            || Misplaced(s)
            || ShrinksShort(o, s)
            || (o > DIRECT_BYTES && GrowsShort(o, s))
  {
  }

  /** Every bad write breaks the invariant of some twin. */
  lemma BadWriteFails(d: Image, i: nat, data: seq<byte>) returns (d': Image, g: Garbage)
    requires Inv(d) && Live(Table(d), i) && |data| <= MAX_BYTES && !GoodWrite(d, i, |data|)
    ensures Twin(d, d', Table(d)[i]) && !Inv(WriteFile(d', i, data, g))
  {
    var o, s := Table(d)[i].size, |data|;
    d', g := d, Quiet(0);
    TwinReflexive(d, Table(d)[i]);
    InvRecord(d, i);
    if SizesFit(o, s) {
      NoRoomBreaks(d, i, data, g);
    } else {
      WhyBad(o, s);
      if Misplaced(s) {
        MisplacedBreaks(d, i, data, g);
      } else if ShrinksShort(o, s) {
        d', g := ShortShrinkFails(d, i, data);
      } else if o > DIRECT_BYTES && GrowsShort(o, s) {
        d', g := ShortGrowthFails(d, i, data);
      } else {
        StaleBreaks(d, i, data, g);
      }
    }
  }

  /**
   * Exactness: write_file works on every twin of a consistent disk, whatever the uninitialised buffers hold, if
   * and only if the write is good.
   */
  lemma WriteExact(d: Image, i: nat, data: seq<byte>)
    requires Inv(d) && Live(Table(d), i) && |data| <= MAX_BYTES
    ensures (forall d', g :: Twin(d, d', Table(d)[i]) ==> WriteWorks(d', i, data, g)) <==> GoodWrite(d, i, |data|)
  {
    if GoodWrite(d, i, |data|) {
      forall d', g | Twin(d, d', Table(d)[i])
        ensures WriteWorks(d', i, data, g)
      {
        GoodWriteWorks(d, i, data, d', g);
      }
    } else {
      var d', g := BadWriteFails(d, i, data);
      assert !WriteWorks(d', i, data, g);
    }
  }
}
