/**
 * Who owns which block: the invariant of a consistent disk.
 *
 * Slot k of an inode is file block k for k < 136, and slot 136 is its indirect block.  An owner map
 * sends every allocated data block to the one slot that refers to it.
 */
module Ownership {
  import opened Layout
  import opened DiskImage
  import opened Bitmap
  import opened InodeTable
  import opened FileOps

  const INDIRECT_SLOT := MAX_BLOCKS

  datatype Slot = Slot(i: nat, k: nat)

  type Owners = map<nat, Slot>

  /** A file of s bytes uses slot k. */
  predicate UsesSlot(s: nat, k: nat) {
    k < BlocksFor(s) || (k == INDIRECT_SLOT && BlocksFor(s) > NDIRECT)
  }

  /** Number of slots that a file of s bytes uses. */
  function SlotCount(s: nat): nat {
    if BlocksFor(s) > NDIRECT then BlocksFor(s) + 1 else BlocksFor(s)
  }

  /** The block that slot k of inode x refers to. */
  function SlotId(d: Image, x: Inode, k: nat): u32 {
    if k < NDIRECT then x.blocks[k]
    else if k < INDIRECT_SLOT then Word(Fetch(d, x.blocks[NDIRECT], ZeroBlock()), k - NDIRECT)
    else x.blocks[NDIRECT]
  }

  ghost function SlotMap(d: Image, x: Inode): map<nat, nat> {
    map k: nat | k <= INDIRECT_SLOT && UsesSlot(x.size, k) :: SlotId(d, x, k)
  }

  /** Pointers that a file does not use are null; freeing them then disturbs no data block. */
  predicate InodeOk(x: Inode) {
    && x.size <= MAX_BYTES
    && (forall k :: BlocksFor(x.size) <= k < NDIRECT ==> x.blocks[k] == 0)
    && (BlocksFor(x.size) <= NDIRECT ==> x.blocks[NDIRECT] == 0)
  }

  /** The blocks that ow assigns to inode i are exactly those in m, slot by slot. */
  ghost predicate Owns(ow: Owners, i: nat, m: map<nat, nat>) {
    && (forall k :: k in m ==> m[k] in ow && ow[m[k]] == Slot(i, k))
    && (forall b :: b in ow && ow[b].i == i ==> ow[b].k in m && m[ow[b].k] == b)
  }

  /** Inode i holds record x, and its slots own their blocks. */
  ghost predicate FileOk(d: Image, x: Inode, ow: Owners, i: nat) {
    InodeOk(x) && Owns(ow, i, SlotMap(d, x))
  }

  predicate Live(t: seq<Inode>, i: int) {
    0 <= i < |t| && t[i].typ != 0
  }

  /** Allocated set, inode table and data blocks agree through the owner map. */
  ghost predicate Agrees(used: set<nat>, t: seq<Inode>, d: Image, ow: Owners) {
    && used == ow.Keys
    && (forall b :: b in ow ==> FIRST_DATA <= b < BLOCK_NUM && Live(t, ow[b].i))
    && (forall i: nat :: Live(t, i) ==> FileOk(d, t[i], ow, i))
  }

  /** The invariant, with its owner map. */
  ghost predicate Consistent(d: Image, ow: Owners) {
    Agrees(Used(d), Table(d), d, ow)
  }

  /** The invariant of a disk. */
  ghost predicate Inv(d: Image) {
    exists ow :: Consistent(d, ow)
  }

  // ---- what the primitives do to allocation, table and data -----------------------------------------------

  ghost function Ids(ids: seq<u32>): set<nat> {
    set x | 0 <= x < |ids| :: ids[x] as nat
  }

  lemma {:induction false} DistinctCount(ids: seq<u32>)
    requires forall x, y :: 0 <= x < y < |ids| ==> ids[x] != ids[y]
    ensures |Ids(ids)| == |ids|
    decreases |ids|
  {
    if ids == [] {
      assert Ids(ids) == {};
    } else {
      var n := |ids| - 1;
      DistinctCount(ids[..n]);
      IdsSnoc(ids[..n], ids[n]);
      assert ids == ids[..n] + [ids[n]];
      assert ids[n] as nat !in Ids(ids[..n]);
    }
  }

  lemma IdsSnoc(ids: seq<u32>, id: u32)
    ensures Ids(ids + [id]) == Ids(ids) + {id as nat}
  {
    var more := ids + [id];
    forall b | b in Ids(more)
      ensures b in Ids(ids) + {id as nat}
    {
      var x :| 0 <= x < |more| && more[x] == b;
      if x < |ids| {
        assert ids[x] == b;
      }
    }
    forall b | b in Ids(ids)
      ensures b in Ids(more)
    {
      var x :| 0 <= x < |ids| && ids[x] == b;
      assert more[x] == b;
    }
    assert more[|ids|] == id;
  }

  /** Freeing n distinct allocated blocks and any number of others lowers the count by n. */
  lemma {:induction false} FreedCount(used: set<nat>, ids: seq<u32>, n: nat)
    requires n <= |ids| && forall x :: 0 <= x < |ids| ==> (ids[x] in used <==> x < n)
    requires forall x, y :: 0 <= x < y < n ==> ids[x] != ids[y]
    ensures |used - Ids(ids)| == |used| - n
    decreases |ids|
  {
    if n == |ids| {
      DistinctCount(ids);
      assert Ids(ids) <= used;
    } else {
      var m := |ids| - 1;
      FreedCount(used, ids[..m], n);
      IdsSnoc(ids[..m], ids[m]);
      assert ids == ids[..m] + [ids[m]];
      assert used - Ids(ids) == used - Ids(ids[..m]);
    }
  }

  ghost predicate SameData(d: Image, d': Image) {
    forall b :: FIRST_DATA <= b < BLOCK_NUM ==> d'[b] == d[b]
  }

  lemma {:induction false} FreeAllFrame(d: Image, ids: seq<u32>)
    requires forall x :: 0 <= x < |ids| ==> ids[x] < BLOCK_NUM
    ensures Used(FreeAll(d, ids)) == Used(d) - Ids(ids)
    ensures forall b :: 9 <= b < BLOCK_NUM ==> FreeAll(d, ids)[b] == d[b]
    ensures Table(FreeAll(d, ids)) == Table(d) && SameData(d, FreeAll(d, ids))
    decreases |ids|
  {
    if ids != [] {
      var n := |ids| - 1;
      var d1 := FreeAll(d, ids[..n]);
      FreeAllFrame(d, ids[..n]);
      FreeRefinesRemove(d1, ids[n]);
      IdsSnoc(ids[..n], ids[n]);
      assert ids == ids[..n] + [ids[n]];
    }
    SameBlocksSameTable(d, FreeAll(d, ids));
  }

  /** alloc_block on a disk that is not full. */
  lemma AllocFrame(d: Image) returns (d': Image, id: nat)
    requires |Used(d)| < DATA_BLOCKS
    ensures AllocBlock(d) == (d', id) && id !in Used(d) && FIRST_DATA <= id < BLOCK_NUM
    ensures Used(d') == Used(d) + {id} && |Used(d')| == |Used(d)| + 1
    ensures Table(d') == Table(d) && SameData(d, d')
  {
    AllocRefinesLeastFree(d);
    FullMeansAllUsed(d);
    d', id := AllocBlock(d).0, AllocBlock(d).1;
    SameBlocksSameTable(d, d');
  }

  /** What alloc_block can return. */
  predicate FreshOrNone(id: u32) {
    id == NO_BLOCK || FIRST_DATA <= id < BLOCK_NUM
  }

  lemma AllocAny(d: Image)
    ensures var (d', id) := AllocBlock(d);
            && FreshOrNone(id) && Table(d') == Table(d)
            && |Used(d')| == |Used(d)| + if id == NO_BLOCK then 0 else 1
  {
    AllocRefinesLeastFree(d);
    SameBlocksSameTable(d, AllocBlock(d).0);
  }

  // ---- owner maps -----------------------------------------------------------------------------------------

  /** Every block owned by another inode keeps its owner and its contents, and no other block joins them. */
  ghost predicate OthersKept(d0: Image, ow0: Owners, d: Image, ow: Owners, i: nat) {
    && (forall b :: b in ow0 && ow0[b].i != i && b < BLOCK_NUM ==> b in ow && ow[b] == ow0[b] && d[b] == d0[b])
    && (forall b :: b in ow && ow[b].i != i ==> b in ow0 && ow0[b] == ow[b])
  }

  /** The direct pointers of a file: its first blocks, then nulls. */
  lemma DirectPointers(used: set<nat>, t: seq<Inode>, d: Image, ow: Owners, i: nat)
    requires Agrees(used, t, d, ow) && Live(t, i)
    ensures forall j :: 0 <= j < NDIRECT ==>
              var b := t[i].blocks[j];
              b < BLOCK_NUM && (j < BlocksFor(t[i].size) ==> b in ow && ow[b as nat] == Slot(i, j))
              && (j >= BlocksFor(t[i].size) ==> b == 0)
    ensures forall b :: b in ow && ow[b].i == i && ow[b].k < NDIRECT ==>
              ow[b].k < BlocksFor(t[i].size) && t[i].blocks[ow[b].k] == b
  {
    var x := t[i];
    var m := SlotMap(d, x);
    assert FileOk(d, x, ow, i);
    forall j: nat | j < NDIRECT
      ensures j < BlocksFor(x.size) ==> j in m && m[j] == x.blocks[j]
    {
      assert j < BlocksFor(x.size) ==> UsesSlot(x.size, j);
    }
  }

  /** The indirect block of a file that has one. */
  lemma IndirectPointer(used: set<nat>, t: seq<Inode>, d: Image, ow: Owners, i: nat)
    requires Agrees(used, t, d, ow) && Live(t, i) && BlocksFor(t[i].size) > NDIRECT
    ensures var b := t[i].blocks[NDIRECT];
            FIRST_DATA <= b < BLOCK_NUM && b in ow && ow[b as nat] == Slot(i, INDIRECT_SLOT)
  {
    var m := SlotMap(d, t[i]);
    assert FileOk(d, t[i], ow, i);
    assert INDIRECT_SLOT in m && m[INDIRECT_SLOT] == t[i].blocks[NDIRECT];
  }

  lemma AddOwner(ow: Owners, i: nat, m: map<nat, nat>, k: nat, id: nat)
    requires Owns(ow, i, m) && k !in m && id !in ow
    ensures Owns(ow[id := Slot(i, k)], i, m[k := id])
  {
  }

  lemma SameIndirectSameSlots(d0: Image, d: Image, x: Inode)
    requires BlocksFor(x.size) > NDIRECT ==>
               Fetch(d, x.blocks[NDIRECT], ZeroBlock()) == Fetch(d0, x.blocks[NDIRECT], ZeroBlock())
    ensures SlotMap(d, x) == SlotMap(d0, x)
  {
  }

  /** Inode j does not notice a change that keeps its record and its blocks. */
  lemma OtherInodeKept(used0: set<nat>, t: seq<Inode>, d0: Image, ow0: Owners, d: Image, ow: Owners, i: nat, j: nat)
    requires Agrees(used0, t, d0, ow0) && OthersKept(d0, ow0, d, ow, i)
    requires j != i && Live(t, j)
    ensures SlotMap(d, t[j]) == SlotMap(d0, t[j])
    ensures FileOk(d, t[j], ow, j)
  {
    var x := t[j];
    assert FileOk(d0, x, ow0, j);
    var m := SlotMap(d0, x);
    if BlocksFor(x.size) > NDIRECT {
      assert INDIRECT_SLOT in m;
      var b := m[INDIRECT_SLOT];
      assert b in ow0 && ow0[b] == Slot(j, INDIRECT_SLOT);
      assert d[b] == d0[b];
    }
    SameIndirectSameSlots(d0, d, x);
    assert Owns(ow0, j, m);
  }

  /** Replacing the record of inode i, with the owner map adjusted to it, gives agreement again. */
  lemma Reassemble(used0: set<nat>, t: seq<Inode>, d0: Image, ow0: Owners,
                   used: set<nat>, d: Image, ow: Owners, i: nat, x: Inode)
    requires i < |t| && Agrees(used0, t, d0, ow0) && OthersKept(d0, ow0, d, ow, i)
    requires used == ow.Keys && forall b :: b in ow ==> FIRST_DATA <= b < BLOCK_NUM
    requires x.typ != 0 ==> FileOk(d, x, ow, i)
    requires x.typ == 0 ==> forall b :: b in ow ==> ow[b].i != i
    ensures Agrees(used, t[i := x], d, ow)
  {
    var t' := t[i := x];
    forall j: nat | Live(t', j)
      ensures FileOk(d, t'[j], ow, j)
    {
      if j != i {
        OtherInodeKept(used0, t, d0, ow0, d, ow, i, j);
      }
    }
    OwnersStayLive(t, ow0, ow, i, x);
  }

  lemma OwnersStayLive(t: seq<Inode>, ow0: Owners, ow: Owners, i: nat, x: Inode)
    requires i < |t| && forall b :: b in ow0 ==> Live(t, ow0[b].i)
    requires forall b :: b in ow && ow[b].i != i ==> b in ow0 && ow0[b] == ow[b]
    requires x.typ == 0 ==> forall b :: b in ow ==> ow[b].i != i
    ensures forall b :: b in ow ==> Live(t[i := x], ow[b].i)
  {
  }
}
