/**
 * The good removes are exactly the removes that work, except for the last file of a disk.
 *
 * For a size that is a multiple of 512 above 4096, remove_file frees one entry of the indirect block too many.
 * That entry may hold any number, and the bit that free_block clears for it may be any bit of the disk.
 */
module RemoveExactness {
  import opened Layout
  import opened DiskImage
  import opened Bitmap
  import opened InodeTable
  import opened FileOps
  import opened Ownership
  import opened Files
  import opened ReadRemove
  import opened Refinement
  import opened Exactness
  import opened Corollaries

  /** remove_file deletes file i and nothing else, on a disk that stays consistent. */
  ghost predicate RemoveWorks(d: Image, i: nat, g: Garbage) {
    var o := RemoveFile(d, i, g);
    o.Done? && Inv(o.d) && FilesOf(o.d) == FilesOf(d) - {i}
  }

  lemma SomeBitSet(v: bv8) returns (k: nat)
    requires v != 0
    ensures k < 8 && v & Mask(k) != 0
  {
    if v & 1 != 0 { k := 0; }
    else if v & 2 != 0 { k := 1; }
    else if v & 4 != 0 { k := 2; }
    else if v & 8 != 0 { k := 3; }
    else if v & 16 != 0 { k := 4; }
    else if v & 32 != 0 { k := 5; }
    else if v & 64 != 0 { k := 6; }
    else { k := 7; }
  }

  lemma ClearChanges(b: byte) returns (k: nat)
    requires b != 0
    ensures k < 8 && ClearBit(b, k) != b
  {
    k := SomeBitSet(b as bv8);
    BitsOfClear(b, k, k);
  }

  /** The number for which free_block clears bit k of byte h of the record of inode j. */
  function AddressOf(j: nat, h: nat, k: nat): (id: u32)
    requires j < INODE_NUM && h < 2 && k < 8
    ensures BitmapBlock(id) == InodeBlock(j) && ByteOf(id) == 4 * InodeWord(j) + h && id % BITS_PER_BLOCK % 8 == k
  {
    var offset := 8 * (4 * InodeWord(j) + h) + k;
    assert offset < BITS_PER_BLOCK;
    (InodeBlock(j) - 1) * BITS_PER_BLOCK + offset
  }

  lemma TypeBytes(b: Block, w: nat)
    requires w < NINDIRECT
    ensures Word(b, w) % 0x1_0000 == b[4 * w] as int + 0x100 * b[4 * w + 1] as int
  {
  }

  lemma TypeAt(d: Image, j: nat)
    requires j < INODE_NUM
    ensures InodeAt(d, j).typ == Word(d[InodeBlock(j)], InodeWord(j)) % 0x1_0000
  {
  }

  /** An entry whose freeing damages the type of a live inode j. */
  lemma Victim(d: Image, j: nat) returns (id: u32)
    requires j < INODE_NUM && InodeAt(d, j).typ != 0
    ensures forall d' :: d'[InodeBlock(j)] == d[InodeBlock(j)] ==>
              InodeAt(FreeBlock(d', id), j).typ != InodeAt(d, j).typ
  {
    var w, b := InodeWord(j), d[InodeBlock(j)];
    TypeAt(d, j);
    TypeBytes(b, w);
    var h := if b[4 * w] != 0 then 0 else 1;
    var k := ClearChanges(b[4 * w + h]);
    id := AddressOf(j, h, k);
    forall d': Image | d'[InodeBlock(j)] == b
      ensures InodeAt(FreeBlock(d', id), j).typ != InodeAt(d, j).typ
    {
      VictimHit(d', j, b, w, h, k, id);
    }
  }

  lemma VictimHit(d: Image, j: nat, b: Block, w: nat, h: nat, k: nat, id: u32)
    requires j < INODE_NUM && w == InodeWord(j) && h < 2 && k < 8 && d[InodeBlock(j)] == b && id == AddressOf(j, h, k)
    requires ClearBit(b[4 * w + h], k) != b[4 * w + h]
    ensures InodeAt(FreeBlock(d, id), j).typ != Word(b, w) % 0x1_0000
  {
    ByteCleared(d, j, h, k);
    TypeAt(FreeBlock(d, id), j);
    OtherType(b, w, h, ClearBit(b[4 * w + h], k));
  }

  /** free_block with that number clears one bit of the table block. */
  lemma ByteCleared(d: Image, j: nat, h: nat, k: nat)
    requires j < INODE_NUM && h < 2 && k < 8
    ensures var b, p := d[InodeBlock(j)], 4 * InodeWord(j) + h;
            FreeBlock(d, AddressOf(j, h, k))[InodeBlock(j)] == b[p := ClearBit(b[p], k)]
  {
    RegionsDisjoint(0, j);
  }

  lemma OtherType(b: Block, w: nat, h: nat, v: byte)
    requires w < NINDIRECT && h < 2 && v != b[4 * w + h]
    ensures Word(b[4 * w + h := v], w) % 0x1_0000 != Word(b, w) % 0x1_0000
  {
    TypeBytes(b[4 * w + h := v], w);
    TypeBytes(b, w);
  }

  /** All nine pointers of a file with an indirect section refer to blocks. */
  lemma PointersInRange(d: Image, i: nat)
    requires Inv(d) && Live(Table(d), i) && BlocksFor(Table(d)[i].size) > NDIRECT
    ensures forall k :: 0 <= k <= NDIRECT ==> FIRST_DATA <= Table(d)[i].blocks[k] < BLOCK_NUM
  {
    var x := Table(d)[i];
    var ow :| Consistent(d, ow);
    forall k | 0 <= k <= NDIRECT
      ensures FIRST_DATA <= x.blocks[k] < BLOCK_NUM
    {
      PointerInRange(Used(d), Table(d), d, ow, i, k);
    }
  }

  lemma PointerInRange(used: set<nat>, t: seq<Inode>, d: Image, ow: Owners, i: nat, k: nat)
    requires Agrees(used, t, d, ow) && Live(t, i) && BlocksFor(t[i].size) > NDIRECT && k <= NDIRECT
    ensures FIRST_DATA <= t[i].blocks[k] < BLOCK_NUM
  {
    AgreesSlot(used, t, d, ow, i, if k == NDIRECT then INDIRECT_SLOT else k);
  }

  lemma FetchAfterFrees(d: Image, ids: seq<u32>, ind: u32, scratch: Block)
    requires FIRST_DATA <= ind < BLOCK_NUM && forall y :: 0 <= y < |ids| ==> ids[y] < BLOCK_NUM
    ensures Fetch(FreeAll(d, ids), ind, scratch) == d[ind]
  {
    FreeAllFrame(d, ids);
  }

  lemma FreeOrder(d: Image, direct: seq<u32>, entries: seq<u32>, last: nat)
    requires |entries| == last + 1
    ensures FreeAll(FreeAll(d, direct), entries) == FreeBlock(FreeAll(d, direct + entries[..last]), entries[last])
  {
    FreeAllAppend(d, direct, entries[..last]);
  }

  lemma IdsInRange(direct: seq<u32>, prev: Block, last: nat, g: Garbage)
    requires last <= NINDIRECT && forall y :: 0 <= y < |direct| ==> direct[y] < BLOCK_NUM
    requires forall v: nat :: v < last ==> Word(prev, v) < BLOCK_NUM
    ensures var ids := direct + Pointers(prev, 0, last + 1, g)[..last];
            forall y :: 0 <= y < |ids| ==> ids[y] < BLOCK_NUM
  {
    var entries := Pointers(prev, 0, last + 1, g);
    forall y | 0 <= y < last
      ensures entries[y] < BLOCK_NUM
    {
      assert entries[y] == Word(prev, y);
    }
  }

  lemma IdsAreSlots(d: Image, x: Inode, last: nat, g: Garbage)
    requires x.blocks[NDIRECT] < BLOCK_NUM && last <= NINDIRECT
    ensures var ids := x.blocks[..NDIRECT] + Pointers(d[x.blocks[NDIRECT]], 0, last + 1, g)[..last];
            |ids| == NDIRECT + last && forall k :: 0 <= k < |ids| ==> ids[k] == SlotId(d, x, k)
  {
    var entries := Pointers(d[x.blocks[NDIRECT]], 0, last + 1, g);
    forall y | 0 <= y < last
      ensures entries[y] == Word(d[x.blocks[NDIRECT]], y)
    {
    }
  }

  /** remove_file's frees, with the last one of the indirect entries set apart. */
  lemma BadRemoveOrder(d: Image, x: Inode, last: nat, g: Garbage) returns (ids: seq<u32>)
    requires DIRECT_BYTES < x.size <= MAX_BYTES && !GoodRemove(x.size) && last == BlocksFor(x.size) - NDIRECT
    requires forall k :: 0 <= k <= NDIRECT ==> FIRST_DATA <= x.blocks[k] < BLOCK_NUM
    requires forall v: nat :: v < last ==> Word(d[x.blocks[NDIRECT]], v) < BLOCK_NUM
    ensures FreeFile(d, x, g) == FreeBlock(FreeBlock(FreeAll(d, ids), StrayEntry(d, x, g)), x.blocks[NDIRECT])
    ensures forall y :: 0 <= y < |ids| ==> ids[y] < BLOCK_NUM
    ensures |ids| == BlocksFor(x.size) && forall k :: 0 <= k < |ids| ==> ids[k] == SlotId(d, x, k)
  {
    BadRemoveCount(x.size, last);
    ids := BadRemoveIds(d, x, last, g);
    BadRemoveFrees(d, x, last, g, ids);
  }

  /** All that is freed before the stray entry. */
  lemma BadRemoveIds(d: Image, x: Inode, last: nat, g: Garbage) returns (ids: seq<u32>)
    requires last <= NINDIRECT && forall k :: 0 <= k <= NDIRECT ==> FIRST_DATA <= x.blocks[k] < BLOCK_NUM
    requires forall v: nat :: v < last ==> Word(d[x.blocks[NDIRECT]], v) < BLOCK_NUM
    ensures ids == x.blocks[..NDIRECT] + Pointers(d[x.blocks[NDIRECT]], 0, last + 1, g)[..last]
    ensures forall y :: 0 <= y < |ids| ==> ids[y] < BLOCK_NUM
    ensures |ids| == NDIRECT + last && forall k :: 0 <= k < |ids| ==> ids[k] == SlotId(d, x, k)
  {
    IdsInRange(x.blocks[..NDIRECT], d[x.blocks[NDIRECT]], last, g);
    IdsAreSlots(d, x, last, g);
    ids := x.blocks[..NDIRECT] + Pointers(d[x.blocks[NDIRECT]], 0, last + 1, g)[..last];
  }

  lemma BadRemoveCount(s: nat, last: nat)
    requires DIRECT_BYTES < s <= MAX_BYTES && !GoodRemove(s) && last == BlocksFor(s) - NDIRECT
    ensures (s - DIRECT_BYTES) / BLOCK_SIZE == last <= NINDIRECT
  {
  }

  lemma BadRemoveFrees(d: Image, x: Inode, last: nat, g: Garbage, ids: seq<u32>)
    requires DIRECT_BYTES < x.size <= MAX_BYTES && (x.size - DIRECT_BYTES) / BLOCK_SIZE == last
    requires last == BlocksFor(x.size) - NDIRECT
    requires forall k :: 0 <= k <= NDIRECT ==> FIRST_DATA <= x.blocks[k] < BLOCK_NUM
    requires ids == x.blocks[..NDIRECT] + Pointers(d[x.blocks[NDIRECT]], 0, last + 1, g)[..last]
    ensures FreeFile(d, x, g) == FreeBlock(FreeBlock(FreeAll(d, ids), StrayEntry(d, x, g)), x.blocks[NDIRECT])
  {
    var prev, direct := d[x.blocks[NDIRECT]], x.blocks[..NDIRECT];
    var entries := Pointers(prev, 0, last + 1, g);
    FetchAfterFrees(d, direct, x.blocks[NDIRECT], g.unread(0));
    FreeLarge(d, x, prev, g, FreeAll(d, direct), entries);
    FreeOrder(d, direct, entries, last);
  }

  /** If that entry hits the record of another file, the file changes its type or disappears. */
  lemma BadRemoveBreaks(d: Image, i: nat, g: Garbage, j: nat, id: u32)
    requires Inv(d) && Live(Table(d), i) && !GoodRemove(Table(d)[i].size)
    requires BlocksFor(Table(d)[i].size) > NDIRECT && Table(d)[i].blocks[NDIRECT] < BLOCK_NUM
    requires j != i && Live(Table(d), j) && StrayEntry(d, Table(d)[i], g) == id
    requires forall d' :: d'[InodeBlock(j)] == d[InodeBlock(j)] ==>
               InodeAt(FreeBlock(d', id), j).typ != InodeAt(d, j).typ
    ensures !RemoveWorks(d, i, g)
  {
    var x := Table(d)[i];
    InvRecord(d, i);
    EntriesInRange(d, i);
    PointersInRange(d, i);
    var ids := BadRemoveOrder(d, x, BlocksFor(x.size) - NDIRECT, g);
    FreeAllFrame(d, ids);
    var d2 := FreeAll(d, ids);
    var d3 := FreeBlock(d2, id);
    var d4 := FreeBlock(d3, x.blocks[NDIRECT]);
    RegionsDisjoint(x.blocks[NDIRECT], j);
    SameBlockSameInode(d3, d4, j);
    BrokenRecord(d, i, j, g, d4);
  }

  lemma BrokenRecord(d: Image, i: nat, j: nat, g: Garbage, d1: Image)
    requires Live(Table(d), i) && Live(Table(d), j) && j != i
    requires d1 == FreeFile(d, Table(d)[i], g) && InodeAt(d1, j).typ != InodeAt(d, j).typ
    ensures !RemoveWorks(d, i, g)
  {
    assert RemoveFile(d, i, g) == FreeInode(d1, i);
    if FreeInode(d1, i).Done? {
      TypeOfOther(d1, FreeInode(d1, i).d, i, j);
      TypesDiffer(d, FreeInode(d1, i).d, i, j);
    }
  }

  lemma TypeOfOther(d: Image, d': Image, i: nat, j: nat)
    requires i < INODE_NUM && j < INODE_NUM && j != i && FreeInode(d, i) == Done(d')
    ensures InodeAt(d', j).typ == InodeAt(d, j).typ
  {
    PutThenAt(d, i, InodeAt(d, i).(typ := 0), j);
  }

  lemma TypesDiffer(d: Image, d': Image, i: nat, j: nat)
    requires Live(Table(d), j) && j != i && InodeAt(d', j).typ != InodeAt(d, j).typ
    ensures FilesOf(d') != FilesOf(d) - {i}
  {
    FileEntry(d, j);
    FileEntry(d', j);
    assert j in FilesOf(d) - {i} && (FilesOf(d) - {i})[j] == FilesOf(d)[j];
  }

  // ---- a stray entry that names a block of the disk -------------------------------------------------------

  ghost predicate SlotValues(d: Image, x: Inode, ids: seq<u32>) {
    |ids| == BlocksFor(x.size) && forall k :: 0 <= k < |ids| ==> ids[k] == SlotId(d, x, k)
  }

  /** The blocks of a file with an indirect section. */
  lemma SlotIds(d: Image, x: Inode, ids: seq<u32>, stray: u32)
    requires NDIRECT < BlocksFor(x.size) <= MAX_BLOCKS && SlotValues(d, x, ids)
    ensures Ids(ids + [stray, x.blocks[NDIRECT]]) == SlotMap(d, x).Values + {stray as nat}
  {
    var m, all := SlotMap(d, x), ids + [stray, x.blocks[NDIRECT]];
    assert all == ids + [stray] + [x.blocks[NDIRECT]];
    IdsSnoc(ids, stray);
    IdsSnoc(ids + [stray], x.blocks[NDIRECT]);
    forall b: nat
      ensures b in Ids(ids) + {x.blocks[NDIRECT] as nat} <==> b in m.Values
    {
      SlotValue(d, x, ids, b);
    }
  }

  lemma SlotValue(d: Image, x: Inode, ids: seq<u32>, b: nat)
    requires NDIRECT < BlocksFor(x.size) <= MAX_BLOCKS && SlotValues(d, x, ids)
    ensures b in Ids(ids) || b == x.blocks[NDIRECT] <==> b in SlotMap(d, x).Values
  {
    var m := SlotMap(d, x);
    if b in Ids(ids) {
      var k :| 0 <= k < |ids| && ids[k] == b;
      assert UsesSlot(x.size, k) && k in m && m[k] == b;
    }
    assert INDIRECT_SLOT in m && m[INDIRECT_SLOT] == x.blocks[NDIRECT];
    if b in m.Values {
      var k :| k in m && m[k] == b;
      assert k < |ids| ==> ids[k] == b;
    }
  }

  lemma FreeTwoMore(d: Image, ids: seq<u32>, a: u32, b: u32)
    ensures FreeBlock(FreeBlock(FreeAll(d, ids), a), b) == FreeAll(d, ids + [a, b])
  {
    var all := ids + [a, b];
    assert all[..|all| - 1] == ids + [a] && (ids + [a])[..|ids|] == ids;
  }

  lemma StrayOrder(d: Image, i: nat, g: Garbage) returns (all: seq<u32>)
    requires Inv(d) && Live(Table(d), i) && !GoodRemove(Table(d)[i].size)
    requires BlocksFor(Table(d)[i].size) > NDIRECT && Table(d)[i].blocks[NDIRECT] < BLOCK_NUM
    requires StrayEntry(d, Table(d)[i], g) < BLOCK_NUM
    ensures FreeFile(d, Table(d)[i], g) == FreeAll(d, all) && forall y :: 0 <= y < |all| ==> all[y] < BLOCK_NUM
    ensures Ids(all) == SlotMap(d, Table(d)[i]).Values + {StrayEntry(d, Table(d)[i], g) as nat}
  {
    var x, stray := Table(d)[i], StrayEntry(d, Table(d)[i], g);
    InvRecord(d, i);
    EntriesInRange(d, i);
    PointersInRange(d, i);
    var ids := BadRemoveOrder(d, x, BlocksFor(x.size) - NDIRECT, g);
    all := ids + [stray, x.blocks[NDIRECT]];
    FreeTwoMore(d, ids, stray, x.blocks[NDIRECT]);
    SlotIds(d, x, ids, stray);
  }

  lemma StrayFrees(d: Image, i: nat, g: Garbage) returns (d1: Image)
    requires Inv(d) && Live(Table(d), i) && !GoodRemove(Table(d)[i].size)
    requires BlocksFor(Table(d)[i].size) > NDIRECT && Table(d)[i].blocks[NDIRECT] < BLOCK_NUM
    requires StrayEntry(d, Table(d)[i], g) < BLOCK_NUM
    ensures d1 == FreeFile(d, Table(d)[i], g) && Table(d1) == Table(d) && SameData(d, d1)
    ensures Used(d1) == Used(d) - SlotMap(d, Table(d)[i]).Values - {StrayEntry(d, Table(d)[i], g) as nat}
  {
    var all := StrayOrder(d, i, g);
    FreeAllFrame(d, all);
    d1 := FreeAll(d, all);
    WithoutBoth(Used(d), SlotMap(d, Table(d)[i]).Values, StrayEntry(d, Table(d)[i], g));
  }

  lemma WithoutBoth(used: set<nat>, own: set<nat>, b: nat)
    ensures used - (own + {b}) == used - own - {b}
  {
  }

  /**
   * For the sizes that remove_file does not suit: as long as the stray entry names a block of the disk, the file
   * is gone and no other file changes, but that block is given back together with the file's own.
   */
  lemma StrayRemove(d: Image, i: nat, g: Garbage) returns (d': Image)
    requires Inv(d) && Live(Table(d), i) && !GoodRemove(Table(d)[i].size)
    requires BlocksFor(Table(d)[i].size) > NDIRECT && Table(d)[i].blocks[NDIRECT] < BLOCK_NUM
    requires StrayEntry(d, Table(d)[i], g) < BLOCK_NUM
    ensures RemoveFile(d, i, g) == Done(d') && FilesOf(d') == FilesOf(d) - {i}
    ensures Used(d') == Used(d) - SlotMap(d, Table(d)[i]).Values - {StrayEntry(d, Table(d)[i], g) as nat}
  {
    var ow :| Consistent(d, ow);
    var x := Table(d)[i].(typ := 0);
    var d1 := StrayFrees(d, i, g);
    RemoveIs(d, i, g, d1);
    d' := PutInode(d1, i, x);
    PutRefinesUpdate(d1, i, x);
    OthersAfterDrop(d, ow, i, d');
    OtherFilesKept(Used(d), Table(d), d, ow, d', DropInode(ow, i), i, x);
  }

  // ---- the last file of a disk ----------------------------------------------------------------------------

  /** No inode but i is in use. */
  ghost predicate Alone(t: seq<Inode>, i: nat) {
    forall j :: Live(t, j) ==> j == i
  }

  predicate OneBitByte(b: byte) {
    exists k: nat :: k < 8 && b as bv8 == Mask(k)
  }

  /** Exactly one of the sixteen bits of a type is set. */
  predicate OneBit(typ: u16) {
    || (typ / 0x100 == 0 && OneBitByte(typ % 0x100))
    || (typ % 0x100 == 0 && OneBitByte(typ / 0x100))
  }

  lemma ClearVector(v: bv8, k: nat)
    requires k < 8 && v != 0
    ensures v & !Mask(k) == 0 <==> v == Mask(k)
  {
    if k == 0 {} else if k == 1 {} else if k == 2 {} else if k == 3 {}
    else if k == 4 {} else if k == 5 {} else if k == 6 {} else {}
  }

  /** Clearing a bit of a byte leaves nothing exactly when there was at most that bit. */
  lemma ClearToZero(b: byte, k: nat)
    requires k < 8
    ensures ClearBit(b, k) == 0 <==> b == 0 || b as bv8 == Mask(k)
  {
    if b != 0 {
      assert b as bv8 != 0;
      ClearVector(b as bv8, k);
    } else {
      assert b as bv8 == 0;
    }
  }

  /** The two bytes of a type, after any bit of the block was cleared. */
  lemma TypeAfterClear(b: Block, w: nat, p: nat, k: nat)
    requires w < NINDIRECT && p < BLOCK_SIZE && k < 8
    ensures var typ, typ' := Word(b, w) % 0x1_0000, Word(b[p := ClearBit(b[p], k)], w) % 0x1_0000;
            && (typ == 0 ==> typ' == 0)
            && (typ != 0 && !OneBit(typ) ==> typ' != 0)
  {
    TypeBytes(b, w);
    TypeBytes(b[p := ClearBit(b[p], k)], w);
    ClearToZero(b[p], k);
  }

  /** free_block of any number revives no inode, and kills only inodes whose type has a single bit. */
  lemma TypeAfterFree(d: Image, id: u32, j: nat)
    requires j < INODE_NUM
    ensures var typ, typ' := InodeAt(d, j).typ, InodeAt(FreeBlock(d, id), j).typ;
            && (typ == 0 ==> typ' == 0)
            && (typ != 0 && !OneBit(typ) ==> typ' != 0)
  {
    TypeAt(d, j);
    TypeAt(FreeBlock(d, id), j);
    if BitmapBlock(id) == InodeBlock(j) {
      RegionsDisjoint(0, j);
      TypeAfterClear(d[InodeBlock(j)], InodeWord(j), ByteOf(id), id % BITS_PER_BLOCK % 8);
    } else {
      assert FreeBlock(d, id)[InodeBlock(j)] == d[InodeBlock(j)];
    }
  }

  lemma LoneOwner(used: set<nat>, t: seq<Inode>, d: Image, ow: Owners, i: nat, ids: seq<u32>)
    requires Agrees(used, t, d, ow) && Live(t, i) && Alone(t, i) && t[i].size <= MAX_BYTES
    requires |ids| == BlocksFor(t[i].size) && forall k :: 0 <= k < |ids| ==> ids[k] == SlotId(d, t[i], k)
    ensures used <= Ids(ids) + {t[i].blocks[NDIRECT] as nat}
  {
    var m := SlotMap(d, t[i]);
    assert FileOk(d, t[i], ow, i);
    forall b | b in used
      ensures b in Ids(ids) + {t[i].blocks[NDIRECT] as nat}
    {
      assert ow[b].i == i && ow[b].k in m && m[ow[b].k] == b;
    }
  }

  /** Without any file and any allocated block, a disk is consistent. */
  lemma EmptyDisk(d: Image)
    requires Used(d) == {} && forall j :: 0 <= j < INODE_NUM ==> InodeAt(d, j).typ == 0
    ensures Inv(d) && FilesOf(d) == map[]
  {
    assert Consistent(d, map[]);
  }

  /** The stray free can do no harm to the last file of a disk, unless it erases its type. */
  lemma LoneRemoveWorks(d: Image, i: nat, g: Garbage)
    requires Inv(d) && Live(Table(d), i) && !GoodRemove(Table(d)[i].size)
    requires Alone(Table(d), i) && !OneBit(Table(d)[i].typ)
    ensures RemoveWorks(d, i, g)
  {
    var x := Table(d)[i];
    InvRecord(d, i);
    assert x.size > DIRECT_BYTES;
    EntriesInRange(d, i);
    PointersInRange(d, i);
    var ids := BadRemoveOrder(d, x, BlocksFor(x.size) - NDIRECT, g);
    var ow :| Consistent(d, ow);
    LoneOwner(Used(d), Table(d), d, ow, i, ids);
    FreeAllFrame(d, ids);
    LoneFrees(d, i, FreeAll(d, ids), StrayEntry(d, x, g), x.blocks[NDIRECT]);
    LoneDone(d, i, FreeFile(d, x, g), g);
  }

  lemma LoneFrees(d: Image, i: nat, d2: Image, stray: u32, ind: u32)
    requires Live(Table(d), i) && Alone(Table(d), i) && !OneBit(Table(d)[i].typ) && ind < BLOCK_NUM
    requires Table(d2) == Table(d) && Used(d2) <= {ind as nat}
    ensures var d4 := FreeBlock(FreeBlock(d2, stray), ind);
            && Used(d4) == {} && InodeAt(d4, i).typ != 0
            && forall j :: 0 <= j < INODE_NUM && j != i ==> InodeAt(d4, j).typ == 0
  {
    var d3 := FreeBlock(d2, stray);
    var d4 := FreeBlock(d3, ind);
    UsedShrinks(d2, stray);
    FreeRefinesRemove(d3, ind);
    SameBlocksSameTable(d3, d4);
    forall j | 0 <= j < INODE_NUM
      ensures InodeAt(d4, j).typ == 0 <==> j != i
    {
      assert Table(d4)[j] == InodeAt(d3, j) && InodeAt(d2, j) == Table(d2)[j];
      assert j != i ==> !Live(Table(d), j);
      TypeAfterFree(d2, stray, j);
    }
  }

  lemma LoneDone(d: Image, i: nat, d4: Image, g: Garbage)
    requires Live(Table(d), i) && Alone(Table(d), i) && d4 == FreeFile(d, Table(d)[i], g)
    requires Used(d4) == {} && InodeAt(d4, i).typ != 0
    requires forall j :: 0 <= j < INODE_NUM && j != i ==> InodeAt(d4, j).typ == 0
    ensures RemoveWorks(d, i, g)
  {
    var x' := InodeAt(d4, i).(typ := 0);
    var d' := PutInode(d4, i, x');
    assert RemoveFile(d, i, g) == Done(d');
    PutRefinesUpdate(d4, i, x');
    forall j | 0 <= j < INODE_NUM
      ensures InodeAt(d', j).typ == 0
    {
      PutThenAt(d4, i, x', j);
    }
    EmptyDisk(d');
    assert FilesOf(d) - {i} == map[];
  }

  lemma OnlyBit(lo: byte, hi: byte) returns (h: nat, k: nat)
    requires OneBit(lo as int + 0x100 * hi as int)
    ensures h < 2 && k < 8 && (if h == 0 then hi == 0 && ClearBit(lo, k) == 0 else lo == 0 && ClearBit(hi, k) == 0)
  {
    var typ := lo as int + 0x100 * hi as int;
    assert typ % 0x100 == lo && typ / 0x100 == hi;
    if hi == 0 && OneBitByte(lo) {
      h := 0;
      k :| k < 8 && lo as bv8 == Mask(k);
      ClearToZero(lo, k);
    } else {
      h := 1;
      k :| k < 8 && hi as bv8 == Mask(k);
      ClearToZero(hi, k);
    }
  }

  /** If the stray entry hits the only bit of the type, free_inode finds no inode and crashes. */
  lemma LoneVictim(d: Image, i: nat) returns (id: u32)
    requires i < INODE_NUM && OneBit(InodeAt(d, i).typ)
    ensures forall d' :: d'[InodeBlock(i)] == d[InodeBlock(i)] ==> InodeAt(FreeBlock(d', id), i).typ == 0
  {
    var w, b := InodeWord(i), d[InodeBlock(i)];
    TypeAt(d, i);
    TypeBytes(b, w);
    var h, k := OnlyBit(b[4 * w], b[4 * w + 1]);
    id := AddressOf(i, h, k);
    forall d': Image | d'[InodeBlock(i)] == b
      ensures InodeAt(FreeBlock(d', id), i).typ == 0
    {
      LoneVictimHit(d', i, b, w, h, k, id);
    }
  }

  lemma LoneVictimHit(d: Image, i: nat, b: Block, w: nat, h: nat, k: nat, id: u32)
    requires i < INODE_NUM && w == InodeWord(i) && h < 2 && k < 8 && d[InodeBlock(i)] == b && id == AddressOf(i, h, k)
    requires b[4 * w + 1 - h] == 0 && ClearBit(b[4 * w + h], k) == 0
    ensures InodeAt(FreeBlock(d, id), i).typ == 0
  {
    ByteCleared(d, i, h, k);
    TypeAt(FreeBlock(d, id), i);
    TypeBytes(b[4 * w + h := 0], w);
  }

  lemma LoneRemoveBreaks(d: Image, i: nat, g: Garbage, id: u32)
    requires Inv(d) && Live(Table(d), i) && !GoodRemove(Table(d)[i].size)
    requires BlocksFor(Table(d)[i].size) > NDIRECT && Table(d)[i].blocks[NDIRECT] < BLOCK_NUM
    requires StrayEntry(d, Table(d)[i], g) == id
    requires forall d' :: d'[InodeBlock(i)] == d[InodeBlock(i)] ==> InodeAt(FreeBlock(d', id), i).typ == 0
    ensures RemoveFile(d, i, g) == Crashed
  {
    var x := Table(d)[i];
    InvRecord(d, i);
    EntriesInRange(d, i);
    PointersInRange(d, i);
    var ids := BadRemoveOrder(d, x, BlocksFor(x.size) - NDIRECT, g);
    FreeAllFrame(d, ids);
    var d3 := FreeBlock(FreeAll(d, ids), id);
    RegionsDisjoint(x.blocks[NDIRECT], i);
    SameBlockSameInode(d3, FreeBlock(d3, x.blocks[NDIRECT]), i);
  }

  // ---- exactness ------------------------------------------------------------------------------------------

  /** A twin and buffers for which the stray entry is id. */
  lemma MakeStray(d: Image, i: nat, j: nat, id: u32) returns (d': Image, g: Garbage)
    requires Inv(d) && Live(Table(d), i) && !GoodRemove(Table(d)[i].size) && j < INODE_NUM
    ensures Twin(d, d', Table(d)[i]) && Inv(d') && Table(d') == Table(d) && d'[InodeBlock(j)] == d[InodeBlock(j)]
    ensures BlocksFor(Table(d)[i].size) > NDIRECT && Table(d)[i].blocks[NDIRECT] < BLOCK_NUM
    ensures StrayEntry(d', Table(d)[i], g) == id
  {
    var x := Table(d)[i];
    InvRecord(d, i);
    BadRemoveSize(x.size);
    InvSlot(d, i, INDIRECT_SLOT);
    g := Quiet(id);
    if BlocksFor(x.size) < MAX_BLOCKS {
      d' := MakeTwin(d, i, id);
      TwinSameRecord(d, d', x, j);
    } else {
      d' := MakeSelf(d, x, id);
    }
  }

  lemma MakeSelf(d: Image, x: Inode, id: u32) returns (d': Image)
    requires BlocksFor(x.size) == MAX_BLOCKS && x.blocks[NDIRECT] < BLOCK_NUM
    ensures d' == d && Twin(d, d', x) && StrayEntry(d', x, Quiet(id)) == id
  {
    d' := d;
    TwinReflexive(d, x);
    FullStray(d, x, id);
  }

  lemma TwinSameRecord(d: Image, d': Image, x: Inode, j: nat)
    requires Twin(d, d', x) && FIRST_DATA <= x.blocks[NDIRECT] && j < INODE_NUM
    ensures d'[InodeBlock(j)] == d[InodeBlock(j)]
  {
    RegionsDisjoint(0, j);
  }

  lemma BadRemoveSize(s: nat)
    requires s <= MAX_BYTES && !GoodRemove(s)
    ensures NDIRECT < BlocksFor(s) <= MAX_BLOCKS
  {
  }

  /** What remove_file needs: a size that suits it, or nothing to damage. */
  ghost predicate RemoveDomain(t: seq<Inode>, i: nat)
    requires i < |t|
  {
    GoodRemove(t[i].size) || (Alone(t, i) && !OneBit(t[i].typ))
  }

  lemma BadRemoveFails(d: Image, i: nat) returns (d': Image, g: Garbage)
    requires Inv(d) && Live(Table(d), i) && !RemoveDomain(Table(d), i)
    ensures Twin(d, d', Table(d)[i]) && !RemoveWorks(d', i, g)
  {
    if Alone(Table(d), i) {
      var id := LoneVictim(d, i);
      d', g := MakeStray(d, i, i, id);
      LoneRemoveBreaks(d', i, g, id);
    } else {
      var j :| Live(Table(d), j) && j != i;
      var id := Victim(d, j);
      d', g := MakeStray(d, i, j, id);
      BadRemoveBreaks(d', i, g, j, id);
    }
  }

  lemma RemoveDomainWorks(d: Image, i: nat, d': Image, g: Garbage)
    requires Inv(d) && Live(Table(d), i) && RemoveDomain(Table(d), i) && Twin(d, d', Table(d)[i])
    ensures RemoveWorks(d', i, g)
  {
    var ow :| Consistent(d, ow);
    TwinConsistent(d, ow, i, d');
    if GoodRemove(Table(d)[i].size) {
      var d'' := GoodRemoveFiles(d', i, g);
    } else {
      LoneRemoveWorks(d', i, g);
    }
  }

  /**
   * Exactness: remove_file works for every twin and every content of its buffers if and only if the size is at
   * most 4096 or not a multiple of 512, or the file is the only one and its type has two bits or more.
   */
  lemma RemoveExact(d: Image, i: nat)
    requires Inv(d) && Live(Table(d), i)
    ensures (forall d', g :: Twin(d, d', Table(d)[i]) ==> RemoveWorks(d', i, g)) <==> RemoveDomain(Table(d), i)
  {
    if RemoveDomain(Table(d), i) {
      forall d', g | Twin(d, d', Table(d)[i])
        ensures RemoveWorks(d', i, g)
      {
        RemoveDomainWorks(d, i, d', g);
      }
    } else {
      var d', g := BadRemoveFails(d, i);
    }
  }
}
