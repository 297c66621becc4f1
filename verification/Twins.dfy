/**
 * Twins arise: whatever a twin of a written disk holds in the meaningless entries of the indirect block, the same
 * write leaves exactly that disk for some content of its uninitialised buffer.  So the exact domains hold of
 * disks that the code itself produces.
 */
module Twins {
  import opened Layout
  import opened DiskImage
  import opened Bitmap
  import opened InodeTable
  import opened FileOps
  import opened Ownership
  import opened Files
  import opened WriteLoop
  import opened WriteProof
  import opened Conservation
  import opened Refinement
  import opened Exactness
  import opened RemoveExactness
  import opened ReadRemove

  // ---- the loop with another buffer -----------------------------------------------------------------------

  /** Two cursors that differ only in what was in final_indirect_block, of which m entries are written. */
  ghost predicate Alike(c: Cursor, c': Cursor, f': Block, m: nat) {
    && ValidCursor(c) && c'.d == c.d && c'.blocks == c.blocks
    && forall v: nat :: v < NINDIRECT ==> Word(c'.final, v) == if v < m then Word(c.final, v) else Word(f', v)
  }

  /** Entries written once k iterations are done. */
  function Entries(k: nat): nat {
    Max(0, k - NDIRECT)
  }

  lemma AlikePlaced(c: Cursor, c': Cursor, f': Block, m: nat, d: Image, blocks: seq<u32>, id: u32)
    requires Alike(c, c', f', m) && m < NINDIRECT && |blocks| == NDIRECT + 1
    ensures Alike(Cursor(d, blocks, SetWord(c.final, m, id)), Cursor(d, blocks, SetWord(c'.final, m, id)), f', m + 1)
  {
    forall v: nat | v < NINDIRECT
      ensures Word(SetWord(c'.final, m, id), v) == if v < m + 1 then Word(SetWord(c.final, m, id), v) else Word(f', v)
    {
      WordOfSetWord(c.final, m, id, v);
      WordOfSetWord(c'.final, m, id, v);
    }
  }

  lemma AlikeStep(c: Cursor, c': Cursor, f': Block, data: seq<byte>, o: int, k: nat, g: Garbage)
    requires |data| <= MAX_BYTES && !Misplaced(|data|) && k < BlocksFor(|data|) && Alike(c, c', f', Entries(k))
    ensures Alike(WriteStep(c, data, o, k, g), WriteStep(c', data, o, k, g.(final := f')), f', Entries(k + 1))
  {
    SlotAgreement(|data|);
    assert WritesDirect(|data|, k) == ReadsDirect(k);
    if k >= NDIRECT {
      AlikeIndirect(c, c', f', data, o, k, g);
    }
  }

  lemma AlikeIndirect(c: Cursor, c': Cursor, f': Block, data: seq<byte>, o: int, k: nat, g: Garbage)
    requires |data| <= MAX_BYTES && NDIRECT <= k < BlocksFor(|data|) && !WritesDirect(|data|, k)
    requires Alike(c, c', f', k - NDIRECT)
    ensures Alike(WriteStep(c, data, o, k, g), WriteStep(c', data, o, k, g.(final := f')), f', k - NDIRECT + 1)
  {
    var b := Chunk(data, k, g.fill(k));
    AlikeNew(c, c', f', k, b);
    AlikeGrow(c, c', f', k, b);
    AlikeReuse(c, c', f', k, b, g.unread(k));
  }

  lemma AlikeGrow(c: Cursor, c': Cursor, f': Block, k: nat, b: Block)
    requires NDIRECT <= k < MAX_BLOCKS && Alike(c, c', f', k - NDIRECT)
    ensures Alike(StepGrow(c, k, b), StepGrow(c', k, b), f', k - NDIRECT + 1)
  {
    var (d', id) := PlaceFresh(c.d, b);
    AlikePlaced(c, c', f', k - NDIRECT, d', c.blocks, id);
  }

  lemma AlikeReuse(c: Cursor, c': Cursor, f': Block, k: nat, b: Block, unread: Block)
    requires NDIRECT <= k < MAX_BLOCKS && Alike(c, c', f', k - NDIRECT)
    ensures Alike(StepReuse(c, k, b, unread), StepReuse(c', k, b, unread), f', k - NDIRECT + 1)
  {
    var id := Word(Fetch(c.d, c.blocks[NDIRECT], unread), k - NDIRECT);
    AlikePlaced(c, c', f', k - NDIRECT, Store(c.d, id, b), c.blocks, id);
  }

  lemma AlikeNew(c: Cursor, c': Cursor, f': Block, k: nat, b: Block)
    requires NDIRECT <= k < MAX_BLOCKS && Alike(c, c', f', k - NDIRECT)
    ensures Alike(StepNewIndirect(c, k, b), StepNewIndirect(c', k, b), f', k - NDIRECT + 1)
  {
    var e := StepNewIndirect(c, k, b);
    var (d1, ind) := AllocBlock(c.d);
    var id := PlaceFresh(if k == NDIRECT then d1 else c.d, b).1;
    AlikePlaced(c, c', f', k - NDIRECT, e.d, e.blocks, id);
  }

  lemma {:induction false} AlikeUpTo(c: Cursor, c': Cursor, f': Block, data: seq<byte>, o: int, k: nat, g: Garbage)
    requires |data| <= MAX_BYTES && !Misplaced(|data|) && k <= BlocksFor(|data|) && Alike(c, c', f', 0)
    ensures Alike(WriteUpTo(c, data, o, k, g), WriteUpTo(c', data, o, k, g.(final := f')), f', Entries(k))
    decreases k
  {
    if k > 0 {
      var j := k - 1;
      AlikeUpTo(c, c', f', data, o, j, g);
      var e, e' := WriteUpTo(c, data, o, j, g), WriteUpTo(c', data, o, j, g.(final := f'));
      AlikeStep(e, e', f', data, o, j, g);
    }
  }

  // ---- the whole write with another buffer ----------------------------------------------------------------

  lemma FinishAlike(c: Cursor, c': Cursor, f': Block, s: nat, o: int, g: Garbage)
    requires s <= MAX_BYTES && s >= DIRECT_BYTES + BLOCK_SIZE && Alike(c, c', f', BlocksFor(s) - NDIRECT)
    requires c.blocks[NDIRECT] < BLOCK_NUM
    ensures FinishWrite(c', s, o, g.(final := f')) == FinishWrite(c, s, o, g)[c.blocks[NDIRECT] := c'.final]
  {
    IndirectFlag(s, BlocksFor(s));
    var g' := g.(final := f');
    var ids := TrailingIds(c, s, o, g);
    assert TrailingIds(c', s, o, g') == ids;
    var d := FreeAll(c.d, ids);
    assert Flush(d, c.blocks, c.final, s) == d[c.blocks[NDIRECT] := c.final];
  }

  lemma PutCommutes(d: Image, i: nat, x: Inode, b: nat, v: Block)
    requires i < INODE_NUM && FIRST_DATA <= b < BLOCK_NUM
    ensures PutInode(d[b := v], i, x) == PutInode(d, i, x)[b := v]
  {
    RegionsDisjoint(0, i);
  }

  /** The file's indirect block is the only thing that depends on final_indirect_block. */
  lemma OtherBuffer(d: Image, i: nat, data: seq<byte>, g: Garbage, f': Block) returns (final': Block)
    requires Live(Table(d), i) && |data| <= MAX_BYTES && |data| >= DIRECT_BYTES + BLOCK_SIZE
    requires FIRST_DATA <= Stored(d, i, data, g).blocks[NDIRECT] < BLOCK_NUM
    ensures WriteFile(d, i, data, g.(final := f')) ==
            WriteFile(d, i, data, g)[Stored(d, i, data, g).blocks[NDIRECT] := final']
    ensures forall v: nat :: v < NINDIRECT ==>
              Word(final', v) ==
              if v < BlocksFor(|data|) - NDIRECT then Word(AfterLoop(d, i, data, g).final, v) else Word(f', v)
  {
    var x, g', o := Table(d)[i], g.(final := f'), ToInt(Table(d)[i].size);
    var c0, c0' := StartWrite(d, x, g), StartWrite(d, x, g');
    AlikeUpTo(c0, c0', f', data, o, BlocksFor(|data|), g);
    var c, c' := AfterLoop(d, i, data, g), AfterLoop(d, i, data, g');
    final' := c'.final;
    FinishAlike(c, c', f', |data|, o, g);
    PutCommutes(BeforePut(d, i, data, g), i, Stored(d, i, data, g), c.blocks[NDIRECT], final');
    WriteStores(d, i, data, g);
    WriteStores(d, i, data, g');
  }

  /** What the write leaves in the indirect block. */
  lemma IndirectStored(d: Image, i: nat, data: seq<byte>, g: Garbage)
    requires Live(Table(d), i) && |data| <= MAX_BYTES && |data| >= DIRECT_BYTES + BLOCK_SIZE
    requires FIRST_DATA <= Stored(d, i, data, g).blocks[NDIRECT] < BLOCK_NUM
    ensures WriteFile(d, i, data, g)[Stored(d, i, data, g).blocks[NDIRECT]] == AfterLoop(d, i, data, g).final
  {
    IndirectFlag(|data|, BlocksFor(|data|));
    WriteStores(d, i, data, g);
  }

  lemma LowByte(a: byte, x: nat, b: byte, y: nat)
    requires a as int + 0x100 * x == b as int + 0x100 * y
    ensures a == b && x == y
  {
  }

  lemma SameWordSameBytes(a: Block, b: Block, v: nat)
    requires v < NINDIRECT && Word(a, v) == Word(b, v)
    ensures a[4 * v] == b[4 * v] && a[4 * v + 1] == b[4 * v + 1]
    ensures a[4 * v + 2] == b[4 * v + 2] && a[4 * v + 3] == b[4 * v + 3]
  {
    var a2, b2 := a[4 * v + 2] as int + 0x100 * a[4 * v + 3] as int, b[4 * v + 2] as int + 0x100 * b[4 * v + 3] as int;
    var a1, b1 := a[4 * v + 1] as int + 0x100 * a2, b[4 * v + 1] as int + 0x100 * b2;
    LowByte(a[4 * v], a1, b[4 * v], b1);
    LowByte(a[4 * v + 1], a2, b[4 * v + 1], b2);
    LowByte(a[4 * v + 2], a[4 * v + 3], b[4 * v + 2], b[4 * v + 3]);
  }

  lemma SameWordsSameBlock(a: Block, b: Block)
    requires forall v: nat :: v < NINDIRECT ==> Word(a, v) == Word(b, v)
    ensures a == b
  {
    forall p | 0 <= p < BLOCK_SIZE
      ensures a[p] == b[p]
    {
      SameWordSameBytes(a, b, p / 4);
      assert p == 4 * (p / 4) + p % 4;
    }
  }

  /** A twin is the disk with another indirect block, whose meaningful entries are the same. */
  lemma TwinIs(d: Image, d': Image, x: Inode, final': Block)
    requires Twin(d, d', x) && x.blocks[NDIRECT] < BLOCK_NUM && NDIRECT < BlocksFor(x.size)
    requires forall v: nat :: v < NINDIRECT ==>
               Word(final', v) ==
               Word(if v < BlocksFor(x.size) - NDIRECT then d[x.blocks[NDIRECT]] else d'[x.blocks[NDIRECT]], v)
    ensures d' == d[x.blocks[NDIRECT] := final']
  {
    var ind := x.blocks[NDIRECT];
    forall v: nat | v < NINDIRECT
      ensures Word(final', v) == Word(d'[ind], v)
    {
    }
    SameWordsSameBlock(final', d'[ind]);
    assert d' == d[ind := d'[ind]];
  }

  /** Every twin of a disk after a good write is the disk after the same write with some other buffer content. */
  lemma TwinsArise(d: Image, i: nat, data: seq<byte>, g: Garbage, d': Image) returns (f': Block)
    requires Inv(d) && Live(Table(d), i) && GoodWrite(d, i, |data|)
    requires var d1 := WriteFile(d, i, data, g); Twin(d1, d', Table(d1)[i])
    ensures d' == WriteFile(d, i, data, g.(final := f'))
  {
    var d1, x' := WriteFile(d, i, data, g), Stored(d, i, data, g);
    WriteStores(d, i, data, g);
    if BlocksFor(|data|) <= NDIRECT {
      f' := g.final;
      TwinIsSame(d1, d', x');
    } else {
      WrittenIndirect(d, i, data, g);
      f' := LargeTwinsArise(d, i, data, g, d1, x', d');
    }
  }

  lemma TwinIsSame(d: Image, d': Image, x: Inode)
    requires Twin(d, d', x) && BlocksFor(x.size) <= NDIRECT
    ensures d' == d
  {
  }

  lemma LargeTwinsArise(d: Image, i: nat, data: seq<byte>, g: Garbage, d1: Image, x': Inode, d': Image)
    returns (f': Block)
    requires Live(Table(d), i) && DIRECT_BYTES + BLOCK_SIZE <= |data| <= MAX_BYTES && x' == Stored(d, i, data, g)
    requires d1 == WriteFile(d, i, data, g) && FIRST_DATA <= x'.blocks[NDIRECT] < BLOCK_NUM
    requires d1[x'.blocks[NDIRECT]] == AfterLoop(d, i, data, g).final && Twin(d1, d', x')
    ensures d' == WriteFile(d, i, data, g.(final := f'))
  {
    f' := d'[x'.blocks[NDIRECT]];
    var final' := OtherBuffer(d, i, data, g, f');
    TwinIs(d1, d', x', final');
  }

  lemma WrittenIndirect(d: Image, i: nat, data: seq<byte>, g: Garbage)
    requires Inv(d) && Live(Table(d), i) && GoodWrite(d, i, |data|) && BlocksFor(|data|) > NDIRECT
    ensures var ind := Stored(d, i, data, g).blocks[NDIRECT];
            && FIRST_DATA <= ind < BLOCK_NUM && WriteFile(d, i, data, g)[ind] == AfterLoop(d, i, data, g).final
    ensures |data| >= DIRECT_BYTES + BLOCK_SIZE
  {
    WriteStores(d, i, data, g);
    GoodWriteFiles(d, i, data, g);
    InvSlot(WriteFile(d, i, data, g), i, INDIRECT_SLOT);
    FitShape(Table(d)[i].size, |data|);
    IndirectStored(d, i, data, g);
  }

  // ---- exact domains on disks that a write produced -------------------------------------------------------

  /** d1 is d with other contents for file i. */
  ghost predicate Rewritten(d: Image, d1: Image, i: nat, data: seq<byte>) {
    i in FilesOf(d) && FilesOf(d1) == FilesOf(d)[i := FilesOf(d)[i].(bytes := data)]
  }

  lemma RewrittenRecord(d: Image, d1: Image, i: nat, data: seq<byte>)
    requires Rewritten(d, d1, i, data)
    ensures Live(Table(d1), i) && Live(Table(d), i)
    ensures Table(d1)[i].size == |data| && Table(d1)[i].typ == Table(d)[i].typ
  {
    FileEntry(d, i);
    FileEntry(d1, i);
  }

  lemma RewrittenLives(d: Image, d1: Image, i: nat, data: seq<byte>, j: nat)
    requires Rewritten(d, d1, i, data)
    ensures Live(Table(d1), j) <==> Live(Table(d), j)
  {
    FileEntry(d, j);
    FileEntry(d1, j);
  }

  lemma RewrittenResized(m: FileMap, m1: FileMap, i: nat, data: seq<byte>)
    requires i in m && m1 == m[i := m[i].(bytes := data)]
    ensures Resized(m, m1, i) && |m1[i].bytes| == |data|
  {
  }

  lemma RewrittenCount(d: Image, d1: Image, i: nat, data: seq<byte>)
    requires Inv(d) && Inv(d1) && Rewritten(d, d1, i, data) && i < INODE_NUM
    ensures |Used(d1)| == |Used(d)| - SlotCount(Table(d)[i].size) + SlotCount(|data|)
  {
    FileEntry(d, i);
    BlocksConserved(d);
    BlocksConserved(d1);
    RewrittenResized(FilesOf(d), FilesOf(d1), i, data);
    DemandResized(FilesOf(d), FilesOf(d1), i, INODE_NUM);
  }

  /** What a good write does to the size, the type and the count of blocks. */
  lemma WrittenDisk(d: Image, i: nat, data: seq<byte>, g: Garbage) returns (d1: Image)
    requires Inv(d) && Live(Table(d), i) && GoodWrite(d, i, |data|)
    ensures d1 == WriteFile(d, i, data, g) && Inv(d1) && Rewritten(d, d1, i, data)
    ensures Live(Table(d1), i) && Table(d1)[i].size == |data| && Table(d1)[i].typ == Table(d)[i].typ
    ensures |Used(d1)| == |Used(d)| - SlotCount(Table(d)[i].size) + SlotCount(|data|)
  {
    d1 := WriteFile(d, i, data, g);
    GoodWriteFiles(d, i, data, g);
    RewrittenRecord(d, d1, i, data);
    RewrittenCount(d, d1, i, data);
  }

  lemma SameDomain(d: Image, d1: Image, i: nat, data: seq<byte>)
    requires Rewritten(d, d1, i, data)
    ensures Live(Table(d1), i) && RemoveDomain(Table(d1), i) == RemovableAfter(Table(d), i, |data|)
  {
    RewrittenRecord(d, d1, i, data);
    forall j: nat
      ensures Live(Table(d1), j) <==> Live(Table(d), j)
    {
      RewrittenLives(d, d1, i, data, j);
    }
    assert forall j :: Live(Table(d1), j) ==> j >= 0;
  }

  /** The domain of remove_file for inode i of table t once it holds s bytes. */
  ghost predicate RemovableAfter(t: seq<Inode>, i: nat, s: nat)
    requires i < |t|
  {
    GoodRemove(s) || (Alone(t, i) && !OneBit(t[i].typ))
  }

  /**
   * Exactness without twins: after a good write, a second write works, for all contents of the uninitialised
   * memory in both, if and only if its sizes fit and the disk has room for it.
   */
  lemma SecondWriteExact(d: Image, i: nat, first: seq<byte>, second: seq<byte>)
    requires Inv(d) && Live(Table(d), i) && GoodWrite(d, i, |first|) && |second| <= MAX_BYTES
    ensures (forall g, g' :: WriteWorks(WriteFile(d, i, first, g), i, second, g')) <==>
            SizesFit(|first|, |second|) && HasRoom(d, Table(d)[i].size, |second|)
  {
    if SizesFit(|first|, |second|) && HasRoom(d, Table(d)[i].size, |second|) {
      forall g, g'
        ensures WriteWorks(WriteFile(d, i, first, g), i, second, g')
      {
        var d1 := WrittenDisk(d, i, first, g);
        GoodWriteFiles(d1, i, second, g');
      }
    } else {
      var g, g' := SecondWriteFails(d, i, first, second);
      assert !WriteWorks(WriteFile(d, i, first, g), i, second, g');
    }
  }

  lemma SecondWriteFails(d: Image, i: nat, first: seq<byte>, second: seq<byte>) returns (g: Garbage, g': Garbage)
    requires Inv(d) && Live(Table(d), i) && GoodWrite(d, i, |first|) && |second| <= MAX_BYTES
    requires !(SizesFit(|first|, |second|) && HasRoom(d, Table(d)[i].size, |second|))
    ensures !Inv(WriteFile(WriteFile(d, i, first, g), i, second, g'))
  {
    var d1 := WrittenDisk(d, i, first, Quiet(0));
    var d';
    d', g' := BadWriteFails(d1, i, second);
    var f := TwinsArise(d, i, first, Quiet(0), d');
    g := Quiet(0).(final := f);
  }

  /** The same for a remove after a good write. */
  lemma RemoveAfterWriteExact(d: Image, i: nat, data: seq<byte>)
    requires Inv(d) && Live(Table(d), i) && GoodWrite(d, i, |data|)
    ensures (forall g, g' :: RemoveWorks(WriteFile(d, i, data, g), i, g')) <==> RemovableAfter(Table(d), i, |data|)
  {
    if RemovableAfter(Table(d), i, |data|) {
      forall g, g'
        ensures RemoveWorks(WriteFile(d, i, data, g), i, g')
      {
        var d1 := WrittenDisk(d, i, data, g);
        RemoveWorksAfter(d, d1, i, data, g');
      }
    } else {
      var g, g' := RemoveAfterWriteFails(d, i, data);
    }
  }

  lemma RemoveWorksAfter(d: Image, d1: Image, i: nat, data: seq<byte>, g: Garbage)
    requires Inv(d1) && Rewritten(d, d1, i, data) && i < INODE_NUM && RemovableAfter(Table(d), i, |data|)
    ensures RemoveWorks(d1, i, g)
  {
    SameDomain(d, d1, i, data);
    TwinReflexive(d1, Table(d1)[i]);
    RemoveDomainWorks(d1, i, d1, g);
  }

  lemma RemoveAfterWriteFails(d: Image, i: nat, data: seq<byte>) returns (g: Garbage, g': Garbage)
    requires Inv(d) && Live(Table(d), i) && GoodWrite(d, i, |data|) && !RemovableAfter(Table(d), i, |data|)
    ensures !RemoveWorks(WriteFile(d, i, data, g), i, g')
  {
    var d1 := WrittenDisk(d, i, data, Quiet(0));
    SameDomain(d, d1, i, data);
    var d';
    d', g' := BadRemoveFails(d1, i);
    var f := TwinsArise(d, i, data, Quiet(0), d');
    g := Quiet(0).(final := f);
  }
}
