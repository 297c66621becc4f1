/** read_file, remove_file, alloc_inode and getattr on consistent disks. */
module ReadRemove {
  import opened Layout
  import opened DiskImage
  import opened Bitmap
  import opened InodeTable
  import opened FileOps
  import opened Ownership
  import opened Files

  // ---- changing one record --------------------------------------------------------------------------------

  /** A record with other times, whose file is otherwise the same. */
  lemma Retouch(d: Image, ow: Owners, i: nat, x: Inode)
    requires Consistent(d, ow) && Live(Table(d), i)
    requires x.typ == Table(d)[i].typ && x.size == Table(d)[i].size && x.blocks == Table(d)[i].blocks
    ensures Consistent(PutInode(d, i, x), ow) && OthersKept(d, ow, PutInode(d, i, x), ow, i)
    ensures FilesOf(PutInode(d, i, x)) == FilesOf(d)[i := FileOf(d, x)]
    ensures FileOk(PutInode(d, i, x), x, ow, i) && Bytes(PutInode(d, i, x), x) == Bytes(d, x)
  {
    var t, d' := Table(d), PutInode(d, i, x);
    PutRefinesUpdate(d, i, x);
    RetouchedFile(Used(d), t, d, ow, i, x, d');
    Reassemble(Used(d), t, d, ow, Used(d'), d', ow, i, x);
    OtherFilesKept(Used(d), t, d, ow, d', ow, i, x);
  }

  lemma RetouchedFile(used: set<nat>, t: seq<Inode>, d: Image, ow: Owners, i: nat, x: Inode, d': Image)
    requires Agrees(used, t, d, ow) && Live(t, i) && SameData(d, d')
    requires x.typ == t[i].typ && x.size == t[i].size && x.blocks == t[i].blocks
    ensures FileOk(d', x, ow, i) && Bytes(d', x) == Bytes(d, x) && OthersKept(d, ow, d', ow, i)
  {
    assert FileOk(d, t[i], ow, i);
    assert SlotMap(d, x) == SlotMap(d, t[i]);
    if BlocksFor(x.size) > NDIRECT {
      assert INDIRECT_SLOT in SlotMap(d, x);
    }
    SameIndirectSameSlots(d, d', x);
    SameSlotsSameBytes(d, d', x);
  }

  // ---- read_file ------------------------------------------------------------------------------------------

  /** Every block of the file, and its indirect block if it has one, is a block of the data area. */
  ghost predicate Readable(d: Image, x: Inode) {
    && x.size <= MAX_BYTES && (BlocksFor(x.size) > NDIRECT ==> FIRST_DATA <= x.blocks[NDIRECT] < BLOCK_NUM)
    && forall k: nat :: k < BlocksFor(x.size) ==> FIRST_DATA <= SlotId(d, x, k) < BLOCK_NUM
  }

  lemma OwnedIsReadable(d: Image, x: Inode, ow: Owners, i: nat)
    requires FileOk(d, x, ow, i) && forall b :: b in ow ==> FIRST_DATA <= b < BLOCK_NUM
    ensures Readable(d, x)
  {
    var m := SlotMap(d, x);
    if BlocksFor(x.size) > NDIRECT {
      assert INDIRECT_SLOT in m && m[INDIRECT_SLOT] in ow;
    }
    forall k: nat | k < BlocksFor(x.size)
      ensures FIRST_DATA <= SlotId(d, x, k) < BLOCK_NUM
    {
      assert UsesSlot(x.size, k) && k in m && m[k] in ow;
    }
  }

  /** Block k of the file, as read_file copies it. */
  lemma ReadStepBytes(d: Image, x: Inode, ind: Block, k: nat, g: Garbage)
    requires Readable(d, x) && BLOCK_SIZE * k < x.size && ind == Fetch(d, x.blocks[NDIRECT], g.unread(0))
    ensures ReadStep(d, x, ind, k, g) ==
            Bytes(d, x)[BLOCK_SIZE * k..BLOCK_SIZE * k + Min(BLOCK_SIZE, x.size - BLOCK_SIZE * k)]
  {
    assert FIRST_DATA <= SlotId(d, x, k) < BLOCK_NUM;
    var n := Min(BLOCK_SIZE, x.size - BLOCK_SIZE * k);
    assert |ReadStep(d, x, ind, k, g)| == n;
    forall q | 0 <= q < n
      ensures ReadStep(d, x, ind, k, g)[q] == Bytes(d, x)[BLOCK_SIZE * k + q]
    {
      assert (BLOCK_SIZE * k + q) / BLOCK_SIZE == k && (BLOCK_SIZE * k + q) % BLOCK_SIZE == q;
    }
  }

  /** What read_file has copied after k blocks, if each block is the right part of bs. */
  lemma {:induction false} ReadUpToIs(d: Image, x: Inode, ind: Block, k: nat, g: Garbage, bs: seq<byte>)
    requires ToInt(x.size) == x.size == |bs| && k <= BlocksFor(x.size)
    requires forall j: nat :: j < BlocksFor(x.size) ==> ReadStep(d, x, ind, j, g) == BlockOf(bs, j)
    ensures ReadUpTo(d, x, ind, k, g) == bs[..Min(BLOCK_SIZE * k, |bs|)]
    decreases k
  {
    if k > 0 {
      var j := k - 1;
      var p, q := BlockBounds(x.size, j);
      ReadUpToIs(d, x, ind, j, g, bs);
      OneMoreBlock(d, x, ind, j, g, bs, p, q);
    }
  }

  function BlockOf(bs: seq<byte>, j: nat): seq<byte>
    requires j < BlocksFor(|bs|)
  {
    bs[BLOCK_SIZE * j..BLOCK_SIZE * j + Min(BLOCK_SIZE, |bs| - BLOCK_SIZE * j)]
  }

  /** The bytes p, ..., q - 1 of a file are those of its block j. */
  lemma BlockBounds(s: nat, j: nat) returns (p: nat, q: nat)
    requires j < BlocksFor(s)
    ensures p == BLOCK_SIZE * j == Min(BLOCK_SIZE * j, s) && q == Min(BLOCK_SIZE * (j + 1), s)
    ensures p < q <= s && q == p + Min(BLOCK_SIZE, s - p)
  {
    p, q := BLOCK_SIZE * j, Min(BLOCK_SIZE * (j + 1), s);
  }

  lemma OneMoreBlock(d: Image, x: Inode, ind: Block, j: nat, g: Garbage, bs: seq<byte>, p: nat, q: nat)
    requires j < BlocksFor(ToInt(x.size)) && p <= q <= |bs|
    requires ReadUpTo(d, x, ind, j, g) == bs[..p] && ReadStep(d, x, ind, j, g) == bs[p..q]
    ensures ReadUpTo(d, x, ind, j + 1, g) == bs[..q]
  {
    SplitPrefix(bs, p, q);
  }

  lemma SplitPrefix<T>(s: seq<T>, p: nat, q: nat)
    requires p <= q <= |s|
    ensures s[..p] + s[p..q] == s[..q]
  {
  }

  /** The whole buffer. */
  lemma ReadAllBytes(d: Image, x: Inode, g: Garbage)
    requires Readable(d, x)
    ensures ReadUpTo(d, x, Fetch(d, x.blocks[NDIRECT], g.unread(0)), BlocksFor(x.size), g) == Bytes(d, x)
  {
    var ind := Fetch(d, x.blocks[NDIRECT], g.unread(0));
    forall j: nat | j < BlocksFor(x.size)
      ensures ReadStep(d, x, ind, j, g) == BlockOf(Bytes(d, x), j)
    {
      ReadStepBytes(d, x, ind, j, g);
    }
    ReadUpToIs(d, x, ind, BlocksFor(x.size), g, Bytes(d, x));
    assert Bytes(d, x)[..x.size] == Bytes(d, x);
  }

  /** The record that read_file stores. */
  ghost function Accessed(d: Image, i: nat, now: u32): Inode
    requires i < INODE_NUM
  {
    Table(d)[i].(atime := now)
  }

  /** Storing the access time changes no byte of the file. */
  lemma SameDataSameBytes(d: Image, x: Inode, d': Image, x': Inode)
    requires Readable(d, x) && SameData(d, d') && x'.size == x.size && x'.blocks == x.blocks
    ensures Readable(d', x') && Bytes(d', x') == Bytes(d, x)
  {
    forall k: nat | k < BlocksFor(x.size)
      ensures SlotId(d', x', k) == SlotId(d, x, k)
    {
    }
    forall p | 0 <= p < x.size
      ensures ByteAt(d', x', p) == ByteAt(d, x, p)
    {
      var k := p / BLOCK_SIZE;
      assert k < BlocksFor(x.size) && FIRST_DATA <= SlotId(d, x, k) < BLOCK_NUM;
    }
  }

  /** read_file returns the bytes of every file whose blocks are in range, on a consistent disk or not. */
  lemma ReadsInRange(d: Image, i: nat, now: u32, g: Garbage)
    requires Live(Table(d), i) && Readable(d, Table(d)[i])
    ensures ReadFile(d, i, now, g) ==
            (PutInode(d, i, Accessed(d, i, now)), Contents(Table(d)[i].size, FileOf(d, Table(d)[i]).bytes))
  {
    var x := Accessed(d, i, now);
    var d' := PutInode(d, i, x);
    PutRefinesUpdate(d, i, x);
    SameDataSameBytes(d, Table(d)[i], d', x);
    ReadAllBytes(d', x, g);
  }

  /** read_file returns the whole file, whatever the buffers held. */
  lemma ReadReturns(d: Image, ow: Owners, i: nat, now: u32, g: Garbage)
    requires Consistent(d, ow) && Live(Table(d), i)
    ensures ReadFile(d, i, now, g) ==
            (PutInode(d, i, Accessed(d, i, now)), Contents(Table(d)[i].size, FileOf(d, Table(d)[i]).bytes))
  {
    assert FileOk(d, Table(d)[i], ow, i);
    OwnedIsReadable(d, Table(d)[i], ow, i);
    ReadsInRange(d, i, now, g);
  }

  lemma SameFieldsSameBytes(d: Image, x: Inode, y: Inode)
    requires x.size == y.size && x.blocks == y.blocks
    ensures Bytes(d, x) == Bytes(d, y)
  {
    forall p | 0 <= p < x.size
      ensures ByteAt(d, x, p) == ByteAt(d, y, p)
    {
      assert SlotId(d, x, p / BLOCK_SIZE) == SlotId(d, y, p / BLOCK_SIZE);
    }
  }

  /** Its only effect is the access time. */
  lemma ReadKeeps(d: Image, ow: Owners, i: nat, now: u32)
    requires Consistent(d, ow) && Live(Table(d), i)
    ensures Consistent(PutInode(d, i, Accessed(d, i, now)), ow)
    ensures i in FilesOf(d) &&
            FilesOf(PutInode(d, i, Accessed(d, i, now))) == FilesOf(d)[i := FilesOf(d)[i].(atime := now)]
  {
    var x := Accessed(d, i, now);
    Retouch(d, ow, i, x);
    SameFieldsSameBytes(d, Table(d)[i], x);
    assert FilesOf(d)[i] == FileOf(d, Table(d)[i]);
  }

  // ---- remove_file ----------------------------------------------------------------------------------------

  /** The sizes for which remove_file frees the file's blocks and no others. */
  predicate GoodRemove(s: nat) {
    s <= DIRECT_BYTES || s % BLOCK_SIZE != 0
  }

  /** The owners without inode i. */
  ghost function DropInode(ow: Owners, i: nat): Owners {
    map b | b in ow && ow[b].i != i :: ow[b]
  }

  /** The blocks that remove_file frees, in order. */
  function RemovedIds(x: Inode, ind: Block, g: Garbage): seq<u32>
    requires x.size <= MAX_BYTES
  {
    if x.size > DIRECT_BYTES
    then x.blocks[..NDIRECT] + Pointers(ind, 0, (x.size - DIRECT_BYTES) / BLOCK_SIZE + 1, g) + [x.blocks[NDIRECT]]
    else x.blocks[..NDIRECT]
  }

  lemma {:induction false} FreeAllAppend(d: Image, a: seq<u32>, b: seq<u32>)
    ensures FreeAll(d, a + b) == FreeAll(FreeAll(d, a), b)
    decreases |b|
  {
    if b == [] {
      assert a + b == a;
    } else {
      var n := |b| - 1;
      FreeAllAppend(d, a, b[..n]);
      assert (a + b)[..|a + b| - 1] == a + b[..n];
    }
  }

  /** FreeFile frees exactly these ids, provided the indirect block is read before it can be freed. */
  lemma FreeFileIs(d: Image, x: Inode, ind: Block, g: Garbage)
    requires x.size <= MAX_BYTES
    requires x.size > DIRECT_BYTES ==> Fetch(FreeAll(d, x.blocks[..NDIRECT]), x.blocks[NDIRECT], g.unread(0)) == ind
    ensures FreeFile(d, x, g) == FreeAll(d, RemovedIds(x, ind, g))
  {
    if x.size > DIRECT_BYTES {
      var a, b := x.blocks[..NDIRECT], Pointers(ind, 0, (x.size - DIRECT_BYTES) / BLOCK_SIZE + 1, g);
      FreeLarge(d, x, ind, g, FreeAll(d, a), b);
      FreeThree(d, a, b, x.blocks[NDIRECT]);
      assert RemovedIds(x, ind, g) == a + b + [x.blocks[NDIRECT]];
    }
  }

  lemma FreeLarge(d: Image, x: Inode, ind: Block, g: Garbage, d1: Image, b: seq<u32>)
    requires DIRECT_BYTES < x.size <= MAX_BYTES && d1 == FreeAll(d, x.blocks[..NDIRECT])
    requires Fetch(d1, x.blocks[NDIRECT], g.unread(0)) == ind
    requires b == Pointers(ind, 0, (x.size - DIRECT_BYTES) / BLOCK_SIZE + 1, g)
    ensures FreeFile(d, x, g) == FreeBlock(FreeAll(d1, b), x.blocks[NDIRECT])
  {
    assert ToInt(x.size) == x.size && ToInt(x.size) - DIRECT_BYTES > 0;
  }

  lemma FreeThree(d: Image, a: seq<u32>, b: seq<u32>, id: u32)
    ensures FreeBlock(FreeAll(FreeAll(d, a), b), id) == FreeAll(d, a + b + [id])
  {
    FreeAllAppend(d, a, b);
    assert (a + b + [id])[..|a + b|] == a + b;
  }

  /** Position of slot k in the list of freed ids. */
  function RemovedAt(x: Inode, k: nat): nat {
    if k < MAX_BLOCKS then k else NDIRECT + (x.size - DIRECT_BYTES) / BLOCK_SIZE + 1
  }

  /** Every id in the list is a slot's or null, and every slot is in the list. */
  lemma RemovedAreSlots(d: Image, x: Inode, ind: Block, g: Garbage)
    requires InodeOk(x) && GoodRemove(x.size)
    requires x.size > DIRECT_BYTES ==> ind == Fetch(d, x.blocks[NDIRECT], ZeroBlock())
    ensures forall k :: k in SlotMap(d, x) ==>
              RemovedAt(x, k) < |RemovedIds(x, ind, g)| && RemovedIds(x, ind, g)[RemovedAt(x, k)] == SlotMap(d, x)[k]
    ensures forall y :: 0 <= y < |RemovedIds(x, ind, g)| ==>
              RemovedIds(x, ind, g)[y] == 0 || RemovedIds(x, ind, g)[y] in SlotMap(d, x).Values
  {
    var ids, m, nb := RemovedIds(x, ind, g), SlotMap(d, x), BlocksFor(x.size);
    if x.size > DIRECT_BYTES {
      assert (x.size - DIRECT_BYTES) / BLOCK_SIZE + 1 == nb - NDIRECT;
    }
    forall y | 0 <= y < |ids|
      ensures ids[y] == 0 || ids[y] in m.Values
    {
      if y < nb {
        assert UsesSlot(x.size, y) && y in m && m[y] == ids[y];
      } else if y >= NDIRECT {
        assert INDIRECT_SLOT in m && m[INDIRECT_SLOT] == ids[y];
      }
    }
  }

  lemma RemovedKeys(used: set<nat>, t: seq<Inode>, d: Image, ow: Owners, i: nat, ind: Block, g: Garbage)
    requires Agrees(used, t, d, ow) && Live(t, i) && GoodRemove(t[i].size)
    requires t[i].size > DIRECT_BYTES ==> ind == Fetch(d, t[i].blocks[NDIRECT], ZeroBlock())
    ensures t[i].size <= MAX_BYTES
    ensures forall y :: 0 <= y < |RemovedIds(t[i], ind, g)| ==> RemovedIds(t[i], ind, g)[y] < BLOCK_NUM
    ensures DropInode(ow, i).Keys == used - Ids(RemovedIds(t[i], ind, g))
  {
    var x := t[i];
    assert FileOk(d, x, ow, i);
    RemovedAreSlots(d, x, ind, g);
    var ids := RemovedIds(x, ind, g);
    OnlyOwnIds(ow, i, SlotMap(d, x), ids);
    forall b | b in ow && ow[b].i == i
      ensures b in Ids(ids)
    {
      assert ids[RemovedAt(x, ow[b].k)] == b;
    }
  }

  lemma OnlyOwnIds(ow: Owners, i: nat, m: map<nat, nat>, ids: seq<u32>)
    requires Owns(ow, i, m) && forall y :: 0 <= y < |ids| ==> ids[y] == 0 || ids[y] in m.Values
    ensures forall y :: 0 <= y < |ids| ==> ids[y] == 0 || (ids[y] in ow && ow[ids[y] as nat].i == i)
  {
    forall y | 0 <= y < |ids| && ids[y] != 0
      ensures ids[y] in ow && ow[ids[y] as nat].i == i
    {
      var k :| k in m && m[k] == ids[y];
    }
  }

  /** The blocks of the other files, once inode i owns nothing. */
  lemma OthersAfterDrop(d: Image, ow: Owners, i: nat, d': Image)
    requires SameData(d, d') && forall b :: b in ow ==> FIRST_DATA <= b < BLOCK_NUM
    ensures OthersKept(d, ow, d', DropInode(ow, i), i)
  {
  }

  /** remove_file's frees on a consistent disk. */
  lemma FreeFileFrame(d: Image, ow: Owners, i: nat, g: Garbage) returns (d': Image)
    requires Consistent(d, ow) && Live(Table(d), i) && GoodRemove(Table(d)[i].size)
    ensures d' == FreeFile(d, Table(d)[i], g)
    ensures Used(d') == DropInode(ow, i).Keys && Table(d') == Table(d) && SameData(d, d')
  {
    var x := Table(d)[i];
    assert FileOk(d, x, ow, i);
    var ind := Fetch(d, x.blocks[NDIRECT], ZeroBlock());
    RemovedKeys(Used(d), Table(d), d, ow, i, ind, g);
    if x.size > DIRECT_BYTES {
      DirectPointers(Used(d), Table(d), d, ow, i);
      FreeAllFrame(d, x.blocks[..NDIRECT]);
      IndirectSurvives(Used(d), Table(d), d, ow, i, FreeAll(d, x.blocks[..NDIRECT]), g.unread(0));
    }
    FreeFileIs(d, x, ind, g);
    var ids := RemovedIds(x, ind, g);
    FreeAllFrame(d, ids);
    d' := FreeAll(d, ids);
  }

  lemma IndirectSurvives(used: set<nat>, t: seq<Inode>, d: Image, ow: Owners, i: nat, d1: Image, scratch: Block)
    requires Agrees(used, t, d, ow) && Live(t, i) && SameData(d, d1) && t[i].size > DIRECT_BYTES
    ensures Fetch(d1, t[i].blocks[NDIRECT], scratch) == Fetch(d, t[i].blocks[NDIRECT], ZeroBlock())
  {
    IndirectPointer(used, t, d, ow, i);
  }

  lemma RemoveIs(d: Image, i: nat, g: Garbage, d1: Image)
    requires Live(Table(d), i) && d1 == FreeFile(d, Table(d)[i], g) && Table(d1) == Table(d)
    ensures RemoveFile(d, i, g) == Done(PutInode(d1, i, Table(d)[i].(typ := 0)))
  {
    assert InodeAt(d1, i) == Table(d1)[i];
  }

  /** A good remove deletes file i, returns exactly its blocks, and keeps every other file. */
  lemma GoodRemoveCorrect(d: Image, ow: Owners, i: nat, g: Garbage) returns (d': Image)
    requires Consistent(d, ow) && Live(Table(d), i) && GoodRemove(Table(d)[i].size)
    ensures RemoveFile(d, i, g) == Done(d')
    ensures Consistent(d', DropInode(ow, i)) && !Live(Table(d'), i)
    ensures FilesOf(d') == FilesOf(d) - {i}
  {
    var t, x := Table(d), Table(d)[i].(typ := 0);
    var d1 := FreeFileFrame(d, ow, i, g);
    RemoveIs(d, i, g, d1);
    d' := PutInode(d1, i, x);
    RemovedDisk(d, ow, i, x, d1, d');
  }

  lemma RemovedDisk(d: Image, ow: Owners, i: nat, x: Inode, d1: Image, d': Image)
    requires Consistent(d, ow) && Live(Table(d), i) && x.typ == 0
    requires Used(d1) == DropInode(ow, i).Keys && Table(d1) == Table(d) && SameData(d, d1)
    requires d' == PutInode(d1, i, x)
    ensures Consistent(d', DropInode(ow, i)) && !Live(Table(d'), i)
    ensures FilesOf(d') == FilesOf(d) - {i}
  {
    PutRefinesUpdate(d1, i, x);
    OthersAfterDrop(d, ow, i, d');
    Reassemble(Used(d), Table(d), d, ow, Used(d'), d', DropInode(ow, i), i, x);
    OtherFilesKept(Used(d), Table(d), d, ow, d', DropInode(ow, i), i, x);
  }

  // ---- alloc_inode ----------------------------------------------------------------------------------------

  lemma FirstFreeInodeIsLeast(d: Image, from: nat)
    requires from <= INODE_NUM
    ensures from <= FirstFreeInode(d, from) <= INODE_NUM
    ensures FirstFreeInode(d, from) < INODE_NUM ==> !Live(Table(d), FirstFreeInode(d, from))
    ensures forall j :: from <= j < FirstFreeInode(d, from) ==> Live(Table(d), j)
    decreases INODE_NUM - from
  {
    if from < INODE_NUM && GetInode(d, from) != None {
      FirstFreeInodeIsLeast(d, from + 1);
    }
  }

  ghost predicate HasFreeInode(d: Image) {
    exists j :: 0 <= j < INODE_NUM && !Live(Table(d), j)
  }

  /** alloc_inode picks the least free number, unless there is none: then it picks 0, which is in use. */
  lemma FreshInodeIsLeast(d: Image)
    ensures FreshInode(d) < INODE_NUM
    ensures HasFreeInode(d) ==>
              !Live(Table(d), FreshInode(d)) && forall j :: 0 <= j < FreshInode(d) ==> Live(Table(d), j)
    ensures !HasFreeInode(d) ==> FreshInode(d) == 0 && Live(Table(d), 0)
  {
    FirstFreeInodeIsLeast(d, 0);
  }

  /** An empty record in place of a dead one. */
  lemma CreateKeeps(d: Image, ow: Owners, i: nat, x: Inode)
    requires Consistent(d, ow) && i < INODE_NUM && !Live(Table(d), i)
    requires x.size == 0 && x.blocks == NULL_BLOCKS
    ensures Consistent(PutInode(d, i, x), ow) && OthersKept(d, ow, PutInode(d, i, x), ow, i)
  {
    var t, d' := Table(d), PutInode(d, i, x);
    PutRefinesUpdate(d, i, x);
    NothingOwned(t, d, d', ow, i, x);
    Reassemble(Used(d), t, d, ow, Used(d'), d', ow, i, x);
  }

  /** A new inode with a nonzero type is an empty file, and nothing else changes. */
  lemma CreateFiles(d: Image, ow: Owners, i: nat, x: Inode)
    requires Consistent(d, ow) && i < INODE_NUM && !Live(Table(d), i)
    requires x.size == 0 && x.blocks == NULL_BLOCKS
    ensures FilesOf(PutInode(d, i, x)) ==
            if x.typ == 0 then FilesOf(d) else FilesOf(d)[i := File(x.typ, [], x.atime, x.mtime, x.ctime)]
  {
    var d' := PutInode(d, i, x);
    CreateKeeps(d, ow, i, x);
    PutRefinesUpdate(d, i, x);
    OtherFilesKept(Used(d), Table(d), d, ow, d', ow, i, x);
    DeadInodeNoFile(d, Table(d), i);
    assert Bytes(d', x) == [];
  }

  lemma DeadInodeNoFile(d: Image, t: seq<Inode>, i: nat)
    requires !Live(t, i)
    ensures FilesIn(d, t) - {i} == FilesIn(d, t)
  {
    assert i !in FilesIn(d, t);
  }

  lemma NothingOwned(t: seq<Inode>, d: Image, d': Image, ow: Owners, i: nat, x: Inode)
    requires i < |t| && !Live(t, i) && (forall b :: b in ow ==> FIRST_DATA <= b < BLOCK_NUM && Live(t, ow[b].i))
    requires SameData(d, d') && x.size == 0 && x.blocks == NULL_BLOCKS
    ensures FileOk(d', x, ow, i) && OthersKept(d, ow, d', ow, i)
    ensures forall b :: b in ow ==> ow[b].i != i
  {
    assert SlotMap(d', x) == map[];
  }
}
