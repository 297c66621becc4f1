/**
 * One inode among others that are being read and written at the same time.
 *
 * A call on inode i relies on its own table block and on the blocks it owns, and on nothing else; every access
 * it makes changes only these, takes only free blocks and gives back only its own.
 */
module Sharing {
  import opened Layout
  import opened DiskImage
  import opened Bitmap
  import opened InodeTable
  import opened FileOps
  import opened Ownership
  import opened Files
  import opened WriteLoop
  import opened WriteProof
  import Accesses

  // ---- rely and guarantee ---------------------------------------------------------------------------------

  /** own is the part of an owner map that belongs to inode i. */
  ghost predicate Own(own: Owners, i: nat) {
    forall b :: b in own ==> FIRST_DATA <= b < BLOCK_NUM && own[b].i == i
  }

  /** What an access of a call on inode i promises to others. */
  ghost predicate Guarantee(i: nat, d: Image, own: Owners, d': Image, own': Owners)
    requires i < INODE_NUM
  {
    && Own(own', i)
    && Used(d') == Used(d) - own.Keys + own'.Keys
    && (forall b :: b in own' && b !in own ==> b !in Used(d))
    && (forall b :: FIRST_DATA <= b < BLOCK_NUM && b !in own && b !in own' ==> d'[b] == d[b])
    && (forall b :: 9 <= b <= 122 && b != InodeBlock(i) ==> d'[b] == d[b])
    && (forall j :: 0 <= j < INODE_NUM && j != i ==> Table(d')[j] == Table(d)[j])
  }

  lemma NothingChanges(i: nat, d: Image, own: Owners)
    requires i < INODE_NUM && Own(own, i) && own.Keys <= Used(d)
    ensures Guarantee(i, d, own, d, own)
  {
  }

  /** Freeing an own block. */
  lemma FreesOwn(i: nat, d: Image, own: Owners, id: nat)
    requires i < INODE_NUM && Own(own, i) && own.Keys <= Used(d) && id in own
    ensures Guarantee(i, d, own, FreeBlock(d, id), own - {id}) && SameData(d, FreeBlock(d, id))
    ensures FreeBlock(d, id)[InodeBlock(i)] == d[InodeBlock(i)]
  {
    FreeRefinesRemove(d, id);
    SameBlocksSameTable(d, FreeBlock(d, id));
    RegionsDisjoint(0, i);
  }

  /** Freeing a null pointer. */
  lemma FreesNull(i: nat, d: Image, own: Owners)
    requires i < INODE_NUM && Own(own, i) && own.Keys <= Used(d)
    ensures Guarantee(i, d, own, FreeBlock(d, 0), own) && SameData(d, FreeBlock(d, 0))
    ensures FreeBlock(d, 0)[InodeBlock(i)] == d[InodeBlock(i)]
  {
    FreeRefinesRemove(d, 0);
    SameBlocksSameTable(d, FreeBlock(d, 0));
    RegionsDisjoint(0, i);
  }

  /** Allocating a block for slot k. */
  lemma Allocates(i: nat, d: Image, own: Owners, k: nat) returns (d': Image, id: nat, own': Owners)
    requires i < INODE_NUM && Own(own, i) && own.Keys <= Used(d) && |Used(d)| < DATA_BLOCKS
    ensures AllocBlock(d) == (d', id) && own' == own[id := Slot(i, k)] && FIRST_DATA <= id < BLOCK_NUM && id !in own
    ensures Guarantee(i, d, own, d', own') && SameData(d, d') && d'[InodeBlock(i)] == d[InodeBlock(i)]
  {
    d', id := AllocFrame(d);
    own' := own[id := Slot(i, k)];
    AllocKeepsTable(d, i, d');
    AllocGuarantee(i, d, own, d', id, k);
  }

  lemma AllocKeepsTable(d: Image, i: nat, d': Image)
    requires i < INODE_NUM && d' == AllocBlock(d).0
    ensures (forall b :: 9 <= b <= 122 ==> d'[b] == d[b]) && d'[InodeBlock(i)] == d[InodeBlock(i)]
  {
    AllocRefinesLeastFree(d);
    RegionsDisjoint(0, i);
  }

  lemma AllocGuarantee(i: nat, d: Image, own: Owners, d': Image, id: nat, k: nat)
    requires i < INODE_NUM && Own(own, i) && own.Keys <= Used(d) && id !in Used(d) && FIRST_DATA <= id < BLOCK_NUM
    requires Used(d') == Used(d) + {id}
    requires SameData(d, d') && Table(d') == Table(d) && forall b :: 9 <= b <= 122 ==> d'[b] == d[b]
    ensures Guarantee(i, d, own, d', own[id := Slot(i, k)])
  {
    var own' := own[id := Slot(i, k)];
    assert own'.Keys == own.Keys + {id};
    UsedAfterAlloc(Used(d), own.Keys, id);
  }

  lemma UsedAfterAlloc(used: set<nat>, mine: set<nat>, id: nat)
    requires mine <= used && id !in used
    ensures used + {id} == used - mine + (mine + {id})
  {
  }

  /** Writing an own block. */
  lemma StoresOwn(i: nat, d: Image, own: Owners, id: nat, b: Block) returns (d': Image)
    requires i < INODE_NUM && Own(own, i) && own.Keys <= Used(d) && id in own
    ensures d' == Store(d, id, b) && Guarantee(i, d, own, d', own) && d'[id] == b && OnlyBlock(d, d', id)
    ensures d'[InodeBlock(i)] == d[InodeBlock(i)]
  {
    d' := StoreFrame(d, id, b);
    RegionsDisjoint(0, i);
  }

  /** Writing the own record. */
  lemma StoresRecord(i: nat, d: Image, own: Owners, x: Inode)
    requires i < INODE_NUM && Own(own, i) && own.Keys <= Used(d)
    ensures Guarantee(i, d, own, PutInode(d, i, x), own) && SameData(d, PutInode(d, i, x))
    ensures InodeAt(PutInode(d, i, x), i) == x
  {
    PutRefinesUpdate(d, i, x);
    PutThenAt(d, i, x, i);
  }

  // ---- a file at rest -------------------------------------------------------------------------------------

  /** Record x holds file f, and its slots are what inode i owns. */
  ghost predicate Holds(d: Image, own: Owners, i: nat, x: Inode, f: File) {
    Own(own, i) && x.typ != 0 && FileOk(d, x, own, i) && FileOf(d, x) == f
  }

  ghost predicate Steady(d: Image, own: Owners, i: nat, f: File)
    requires i < INODE_NUM
  {
    Holds(d, own, i, InodeAt(d, i), f)
  }

  lemma HoldsStill(d: Image, own: Owners, i: nat, x: Inode, f: File, d': Image)
    requires Holds(d, own, i, x, f) && forall b :: b in own ==> d'[b] == d[b]
    ensures Holds(d', own, i, x, f)
  {
    var m := SlotMap(d, x);
    if BlocksFor(x.size) > NDIRECT {
      assert INDIRECT_SLOT in m && m[INDIRECT_SLOT] in own;
    }
    SameIndirectSameSlots(d, d', x);
    forall k | k in m
      ensures Fetch(d', m[k], ZeroBlock()) == Fetch(d, m[k], ZeroBlock())
    {
      assert m[k] in own;
    }
    SameSlotsSameBytes(d, d', x);
  }

  // ---- the states of a write ------------------------------------------------------------------------------

  /** The write as the loop's lemmas see it, with no other owners in sight. */
  ghost predicate IsWork(w: Job, i: nat, j: Accesses.Request) {
    w.ow0 == map[] && w.i == i && w.x == j.x && w.data == j.data && w.g == j.g
  }

  function At(d: Image, v: Accesses.Locals): Cursor {
    Cursor(d, v.blocks, v.final)
  }

  /** The indirect block that the inode had before the write. */
  function OldIndirect(d: Image, x: Inode): Block {
    Fetch(d, x.blocks[NDIRECT], ZeroBlock())
  }

  /** Slots from k on, as the inode and its indirect block had them. */
  ghost function RestSlots(x: Inode, prev: Block, k: nat): map<nat, nat> {
    map s: nat | s <= INDIRECT_SLOT && UsesSlot(x.size, s) && s >= k :: RestId(x, prev, s)
  }

  function RestId(x: Inode, prev: Block, s: nat): nat {
    if s < NDIRECT then x.blocks[s] else if s < INDIRECT_SLOT then Word(prev, s - NDIRECT) else x.blocks[NDIRECT]
  }

  /** Direct blocks below k are freed. */
  ghost predicate Freeing(d: Image, own: Owners, i: nat, x: Inode, k: nat) {
    Own(own, i) && k <= NDIRECT && Owns(own, i, RestSlots(x, OldIndirect(d, x), k))
  }

  /** k iterations are done. */
  ghost predicate Looping(d: Image, own: Owners, i: nat, j: Accesses.Request, v: Accesses.Locals, k: nat) {
    Own(own, i) && exists w :: IsWork(w, i, j) && LoopInv(At(d, v), own, k, w)
  }

  lemma FreeingStarts(d: Image, own: Owners, i: nat, x: Inode, f: File)
    requires Holds(d, own, i, x, f)
    ensures Freeing(d, own, i, x, 0)
  {
    var m, r := SlotMap(d, x), RestSlots(x, OldIndirect(d, x), 0);
    forall s: nat
      ensures s in m <==> s in r
      ensures s in m ==> m[s] == r[s]
    {
    }
    assert m == r;
  }

  /** The slots do not change with the disk, as long as the indirect block does not. */
  lemma SameRest(d: Image, own: Owners, i: nat, x: Inode, k: nat, d': Image)
    requires Freeing(d, own, i, x, k) && forall b :: b in own ==> d'[b] == d[b]
    ensures RestSlots(x, OldIndirect(d', x), k) == RestSlots(x, OldIndirect(d, x), k)
  {
    var r := RestSlots(x, OldIndirect(d, x), k);
    if BlocksFor(x.size) > NDIRECT {
      assert INDIRECT_SLOT in r && r[INDIRECT_SLOT] == x.blocks[NDIRECT];
    }
  }

  lemma RestDrops(own: Owners, i: nat, x: Inode, prev: Block, k: nat)
    requires Owns(own, i, RestSlots(x, prev, k)) && k < NDIRECT && InodeOk(x)
    ensures if k < BlocksFor(x.size)
            then x.blocks[k] in own && Owns(own - {x.blocks[k] as nat}, i, RestSlots(x, prev, k + 1))
            else x.blocks[k] == 0 && Owns(own, i, RestSlots(x, prev, k + 1))
  {
    var r, r' := RestSlots(x, prev, k), RestSlots(x, prev, k + 1);
    assert forall s: nat :: s in r' <==> s in r && s != k;
    assert forall s: nat :: s in r' ==> r'[s] == r[s];
    if k < BlocksFor(x.size) {
      assert k in r && r[k] == x.blocks[k];
    } else {
      assert k !in r;
    }
  }

  /** Freeing direct pointer k. */
  lemma FreeingStep(d: Image, own: Owners, i: nat, x: Inode, k: nat) returns (d': Image, own': Owners)
    requires i < INODE_NUM && Freeing(d, own, i, x, k) && k < NDIRECT && InodeOk(x) && own.Keys <= Used(d)
    ensures d' == FreeBlock(d, x.blocks[k]) && Guarantee(i, d, own, d', own')
    ensures Freeing(d', own', i, x, k + 1) && d'[InodeBlock(i)] == d[InodeBlock(i)]
  {
    RestDrops(own, i, x, OldIndirect(d, x), k);
    d' := FreeBlock(d, x.blocks[k]);
    if k < BlocksFor(x.size) {
      own' := FreeingOwn(d, own, i, x, k);
    } else {
      own' := own;
      FreesNull(i, d, own);
      FreeingAcross(d, own, i, x, k + 1, d');
    }
  }

  lemma FreeingOwn(d: Image, own: Owners, i: nat, x: Inode, k: nat) returns (own': Owners)
    requires i < INODE_NUM && Own(own, i) && own.Keys <= Used(d) && k < NDIRECT && x.blocks[k] in own
    requires Owns(own - {x.blocks[k] as nat}, i, RestSlots(x, OldIndirect(d, x), k + 1))
    ensures Guarantee(i, d, own, FreeBlock(d, x.blocks[k]), own')
    ensures Freeing(FreeBlock(d, x.blocks[k]), own', i, x, k + 1)
    ensures FreeBlock(d, x.blocks[k])[InodeBlock(i)] == d[InodeBlock(i)]
  {
    own' := own - {x.blocks[k] as nat};
    FreesOwn(i, d, own, x.blocks[k]);
    FreeingAcross(d, own', i, x, k + 1, FreeBlock(d, x.blocks[k]));
  }

  lemma FreeingAcross(d: Image, own: Owners, i: nat, x: Inode, k: nat, d': Image)
    requires Own(own, i) && k <= NDIRECT && Owns(own, i, RestSlots(x, OldIndirect(d, x), k)) && SameData(d, d')
    ensures Freeing(d', own, i, x, k)
  {
    SameRest(d, own, i, x, k, d');
  }

  lemma FreeingStill(d: Image, own: Owners, i: nat, x: Inode, k: nat, d': Image)
    requires Freeing(d, own, i, x, k) && forall b :: b in own ==> d'[b] == d[b]
    ensures Freeing(d', own, i, x, k)
  {
    SameRest(d, own, i, x, k, d');
  }

  lemma LoopStarts(d: Image, own: Owners, i: nat, j: Accesses.Request)
    requires Freeing(d, own, i, j.x, NDIRECT) && |j.data| <= MAX_BYTES
    ensures Looping(d, own, i, j, Accesses.Locals(j.x.blocks, j.g.final), 0)
  {
    var c, n, prev := Cursor(d, j.x.blocks, j.g.final), BlocksFor(j.x.size), OldIndirect(d, j.x);
    RestIsHeld(c, j.x, prev);
    var w := Job(d, map[], i, j.x, prev, j.data, j.g);
    assert LoopInv(At(d, Accesses.Locals(j.x.blocks, j.g.final)), own, 0, w);
  }

  lemma RestIsHeld(c: Cursor, x: Inode, prev: Block)
    requires c.blocks == x.blocks
    ensures RestSlots(x, prev, NDIRECT) == Held(c, prev, BlocksFor(x.size), 0)
  {
    var n := BlocksFor(x.size);
    var r, h := RestSlots(x, prev, NDIRECT), Held(c, prev, n, 0);
    forall s: nat
      ensures s in r <==> s in h
      ensures s in r ==> r[s] == h[s]
    {
      assert s <= INDIRECT_SLOT && UsesSlot(x.size, s) && s >= NDIRECT <==> s <= INDIRECT_SLOT && HoldsSlot(n, 0, s);
    }
  }

  lemma LoopingStill(d: Image, own: Owners, i: nat, j: Accesses.Request, v: Accesses.Locals, k: nat, d': Image)
    requires Looping(d, own, i, j, v, k) && forall b :: b in own ==> d'[b] == d[b]
    ensures Looping(d', own, i, j, v, k)
  {
    var w :| IsWork(w, i, j) && LoopInv(At(d, v), own, k, w);
    LoopInvStill(At(d, v), own, k, w, At(d', v));
  }

  lemma LoopInvStill(c: Cursor, own: Owners, k: nat, w: Job, c': Cursor)
    requires LoopInv(c, own, k, w) && c' == c.(d := c'.d) && w.ow0 == map[]
    requires forall b :: b in own ==> own[b].i == w.i && c'.d[b] == c.d[b]
    ensures LoopInv(c', own, k, w)
  {
    MidStill(c, own, k, w, c');
    DataStill(c, own, k, w, c');
  }

  lemma MidStill(c: Cursor, own: Owners, k: nat, w: Job, c': Cursor)
    requires Mid(c, own, k, w) && c' == c.(d := c'.d) && w.ow0 == map[]
    requires forall b :: b in own ==> own[b].i == w.i && c'.d[b] == c.d[b]
    ensures Mid(c', own, k, w)
  {
    var n := w.OldBlocks();
    var h := Held(c, w.prev, n, k);
    SameHeld(c, c', w.prev, n, k);
    if n > NDIRECT {
      assert HoldsSlot(n, k, INDIRECT_SLOT) && INDIRECT_SLOT in h && h[INDIRECT_SLOT] == w.x.blocks[NDIRECT];
    }
  }

  lemma SameHeld(c: Cursor, c': Cursor, prev: Block, n: nat, k: nat)
    requires ValidCursor(c) && c' == c.(d := c'.d)
    ensures Held(c', prev, n, k) == Held(c, prev, n, k)
  {
  }

  lemma DataStill(c: Cursor, own: Owners, k: nat, w: Job, c': Cursor)
    requires LoopInv(c, own, k, w) && c' == c.(d := c'.d)
    requires forall b :: b in own ==> c'.d[b] == c.d[b]
    ensures DataPlaced(c', k, w)
  {
    var n := w.OldBlocks();
    var h := Held(c, w.prev, n, k);
    forall s: nat | s < k
      ensures Fetch(c'.d, HeldId(c', w.prev, k, s), ZeroBlock()) == Chunk(w.data, s, w.g.fill(s))
    {
      assert HoldsSlot(n, k, s) && s in h && h[s] in own;
    }
  }

  lemma AddThenRemove(own: Owners, id: nat, slot: Slot)
    requires id !in own
    ensures own[id := slot] - {id} == own
  {
  }

  lemma RemoveThenAdd(own: Owners, id: nat, slot: Slot)
    requires id in own && own[id] == slot
    ensures (own - {id})[id := slot] == own
  {
  }

  lemma RemoveThenAddTwo(own: Owners, id: nat, ind: nat, slot: Slot, slot': Slot)
    requires id in own && own[id] == slot && ind in own && own[ind] == slot' && id != ind
    ensures (own - {id} - {ind})[ind := slot'][id := slot] == own
  {
  }

  // ---- an iteration of a write ----------------------------------------------------------------------------

  lemma LoopingAcross(d: Image, own: Owners, i: nat, j: Accesses.Request, v: Accesses.Locals, k: nat, d': Image)
    requires Looping(d, own, i, j, v, k) && SameData(d, d')
    ensures Looping(d', own, i, j, v, k)
  {
    LoopingStill(d, own, i, j, v, k, d');
  }

  /** A fresh block id is reserved for slot k. */
  ghost predicate PlacingNew(d: Image, own: Owners, i: nat, j: Accesses.Request, v: Accesses.Locals, k: nat, id: u32) {
    && Own(own, i) && id in own && own[id as nat] == Slot(i, k) && k < BlocksFor(|j.data|)
    && (k < NDIRECT || (k >= BlocksFor(j.x.size) && Max(k, BlocksFor(j.x.size)) > NDIRECT))
    && Looping(d, own - {id as nat}, i, j, v, k)
  }

  /** Block id of the old file is about to be overwritten. */
  ghost predicate PlacingOld(d: Image, own: Owners, i: nat, j: Accesses.Request, v: Accesses.Locals, k: nat, id: u32) {
    && NDIRECT <= k < MAX_BLOCKS && k < BlocksFor(|j.data|) && k < BlocksFor(j.x.size)
    && id == Word(OldIndirect(d, j.x), k - NDIRECT) && Looping(d, own, i, j, v, k)
  }

  /** The locals before the indirect block was allocated. */
  function Bare(v: Accesses.Locals): Accesses.Locals
    requires |v.blocks| == NDIRECT + 1
  {
    v.(blocks := v.blocks[NDIRECT := 0])
  }

  lemma BareBefore(v: Accesses.Locals, id: u32)
    requires |v.blocks| == NDIRECT + 1 && v.blocks[NDIRECT] == 0
    ensures Bare(v.(blocks := v.blocks[NDIRECT := id])) == v
  {
  }

  lemma BareAfter(v: Accesses.Locals)
    requires |v.blocks| == NDIRECT + 1
    ensures Bare(v).blocks[NDIRECT := v.blocks[NDIRECT]] == v.blocks
  {
  }

  /** The indirect block is allocated. */
  ghost predicate HasIndirect(d: Image, own: Owners, i: nat, j: Accesses.Request, v: Accesses.Locals) {
    && Own(own, i) && |v.blocks| == NDIRECT + 1 && BlocksFor(j.x.size) <= NDIRECT < BlocksFor(|j.data|)
    && v.blocks[NDIRECT] in own && own[v.blocks[NDIRECT] as nat] == Slot(i, INDIRECT_SLOT)
    && Looping(d, own - {v.blocks[NDIRECT] as nat}, i, j, Bare(v), NDIRECT)
  }

  /** And so is the first data block behind it. */
  ghost predicate PlacingFirst(d: Image, own: Owners, i: nat, j: Accesses.Request, v: Accesses.Locals, id: u32) {
    Own(own, i) && id in own && own[id as nat] == Slot(i, NDIRECT) && HasIndirect(d, own - {id as nat}, i, j, v)
  }

  lemma ReserveNew(d: Image, own: Owners, i: nat, j: Accesses.Request, v: Accesses.Locals, k: nat)
    returns (d': Image, id: u32, own': Owners)
    requires i < INODE_NUM && Looping(d, own, i, j, v, k) && own.Keys <= Used(d) && |Used(d)| < DATA_BLOCKS
    requires k < BlocksFor(|j.data|)
    requires k < NDIRECT || (k >= BlocksFor(j.x.size) && Max(k, BlocksFor(j.x.size)) > NDIRECT)
    ensures AllocBlock(d) == (d', id) && Guarantee(i, d, own, d', own') && d'[InodeBlock(i)] == d[InodeBlock(i)]
    ensures PlacingNew(d', own', i, j, v, k, id)
  {
    d', id, own' := Allocates(i, d, own, k);
    AddThenRemove(own, id, Slot(i, k));
    LoopingAcross(d, own, i, j, v, k, d');
  }

  lemma ReserveIndirect(d: Image, own: Owners, i: nat, j: Accesses.Request, v: Accesses.Locals)
    returns (d': Image, id: u32, own': Owners)
    requires i < INODE_NUM && Looping(d, own, i, j, v, NDIRECT) && own.Keys <= Used(d) && |Used(d)| < DATA_BLOCKS
    requires BlocksFor(j.x.size) <= NDIRECT < BlocksFor(|j.data|) && |v.blocks| == NDIRECT + 1 && v.blocks[NDIRECT] == 0
    ensures AllocBlock(d) == (d', id) && Guarantee(i, d, own, d', own') && d'[InodeBlock(i)] == d[InodeBlock(i)]
    ensures HasIndirect(d', own', i, j, v.(blocks := v.blocks[NDIRECT := id]))
  {
    d', id, own' := Allocates(i, d, own, INDIRECT_SLOT);
    AddThenRemove(own, id, Slot(i, INDIRECT_SLOT));
    BareBefore(v, id);
    LoopingAcross(d, own, i, j, v, NDIRECT, d');
  }

  lemma ReserveFirst(d: Image, own: Owners, i: nat, j: Accesses.Request, v: Accesses.Locals)
    returns (d': Image, id: u32, own': Owners)
    requires i < INODE_NUM && HasIndirect(d, own, i, j, v) && own.Keys <= Used(d) && |Used(d)| < DATA_BLOCKS
    ensures AllocBlock(d) == (d', id) && Guarantee(i, d, own, d', own') && d'[InodeBlock(i)] == d[InodeBlock(i)]
    ensures PlacingFirst(d', own', i, j, v, id)
  {
    d', id, own' := Allocates(i, d, own, NDIRECT);
    AddThenRemove(own, id, Slot(i, NDIRECT));
    LoopingAcross(d, own - {v.blocks[NDIRECT] as nat}, i, j, Bare(v), NDIRECT, d');
  }

  /** The chunk is written to a direct block. */
  lemma PlaceDirect(d: Image, own: Owners, i: nat, j: Accesses.Request, v: Accesses.Locals, k: nat, id: u32)
    returns (d': Image)
    requires i < INODE_NUM && PlacingNew(d, own, i, j, v, k, id) && k < NDIRECT && own.Keys <= Used(d)
    requires |v.blocks| == NDIRECT + 1
    ensures d' == Store(d, id, Chunk(j.data, k, j.g.fill(k))) && Guarantee(i, d, own, d', own)
    ensures Looping(d', own, i, j, v.(blocks := v.blocks[k := id]), k + 1)
    ensures d'[InodeBlock(i)] == d[InodeBlock(i)]
  {
    d' := StoresOwn(i, d, own, id, Chunk(j.data, k, j.g.fill(k)));
    DirectPlaced(d, own, i, j, v, k, id, d');
  }

  lemma DirectPlaced(d: Image, own: Owners, i: nat, j: Accesses.Request, v: Accesses.Locals, k: nat, id: u32, d': Image)
    requires PlacingNew(d, own, i, j, v, k, id) && k < NDIRECT && |v.blocks| == NDIRECT + 1
    requires OnlyBlock(d, d', id) && d'[id] == Chunk(j.data, k, j.g.fill(k))
    ensures Looping(d', own, i, j, v.(blocks := v.blocks[k := id]), k + 1)
  {
    var own1: Owners := own - {id as nat};
    var w :| IsWork(w, i, j) && LoopInv(At(d, v), own1, k, w);
    RemoveThenAdd(own, id, Slot(i, k));
    LoopDirect(At(d, v), At(d', v.(blocks := v.blocks[k := id])), own1, k, w, id);
  }

  /** The chunk is written to a fresh block behind the indirect block. */
  lemma PlaceGrow(d: Image, own: Owners, i: nat, j: Accesses.Request, v: Accesses.Locals, k: nat, id: u32)
    returns (d': Image)
    requires i < INODE_NUM && PlacingNew(d, own, i, j, v, k, id) && NDIRECT <= k < MAX_BLOCKS && own.Keys <= Used(d)
    ensures d' == Store(d, id, Chunk(j.data, k, j.g.fill(k))) && Guarantee(i, d, own, d', own)
    ensures Looping(d', own, i, j, v.(final := SetWord(v.final, k - NDIRECT, id)), k + 1)
    ensures d'[InodeBlock(i)] == d[InodeBlock(i)]
  {
    d' := StoresOwn(i, d, own, id, Chunk(j.data, k, j.g.fill(k)));
    SetWordReplaces(v.final, k - NDIRECT, id);
    GrowPlaced(d, own, i, j, v, k, id, d', SetWord(v.final, k - NDIRECT, id));
  }

  lemma GrowPlaced(d: Image, own: Owners, i: nat, j: Accesses.Request, v: Accesses.Locals, k: nat, id: u32,
                   d': Image, final: Block)
    requires PlacingNew(d, own, i, j, v, k, id) && NDIRECT <= k < MAX_BLOCKS
    requires OnlyBlock(d, d', id) && d'[id] == Chunk(j.data, k, j.g.fill(k))
    requires EntryReplaced(v.final, final, k - NDIRECT, id)
    ensures Looping(d', own, i, j, v.(final := final), k + 1)
  {
    var own1: Owners := own - {id as nat};
    var w :| IsWork(w, i, j) && LoopInv(At(d, v), own1, k, w);
    RemoveThenAdd(own, id, Slot(i, k));
    LoopPointer(At(d, v), At(d', v.(final := final)), own1, k, w, id);
  }

  /** The chunk is written to a block of the old file. */
  lemma PlaceOld(d: Image, own: Owners, i: nat, j: Accesses.Request, v: Accesses.Locals, k: nat, id: u32)
    returns (d': Image)
    requires i < INODE_NUM && PlacingOld(d, own, i, j, v, k, id) && own.Keys <= Used(d)
    ensures d' == Store(d, id, Chunk(j.data, k, j.g.fill(k))) && Guarantee(i, d, own, d', own)
    ensures Looping(d', own, i, j, v.(final := SetWord(v.final, k - NDIRECT, id)), k + 1)
    ensures d'[InodeBlock(i)] == d[InodeBlock(i)]
  {
    OldIsOwn(d, own, i, j, v, k, id);
    d' := StoresOwn(i, d, own, id, Chunk(j.data, k, j.g.fill(k)));
    SetWordReplaces(v.final, k - NDIRECT, id);
    OldPlaced(d, own, i, j, v, k, id, d', SetWord(v.final, k - NDIRECT, id));
  }

  lemma OldIsOwn(d: Image, own: Owners, i: nat, j: Accesses.Request, v: Accesses.Locals, k: nat, id: u32)
    requires PlacingOld(d, own, i, j, v, k, id)
    ensures id in own && own[id as nat] == Slot(i, k)
  {
    var w :| IsWork(w, i, j) && LoopInv(At(d, v), own, k, w);
    var id' := ReusedId(At(d, v), own, k, w);
  }

  lemma OldPlaced(d: Image, own: Owners, i: nat, j: Accesses.Request, v: Accesses.Locals, k: nat, id: u32,
                   d': Image, final: Block)
    requires PlacingOld(d, own, i, j, v, k, id) && id in own && own[id as nat] == Slot(i, k)
    requires OnlyBlock(d, d', id) && d'[id] == Chunk(j.data, k, j.g.fill(k))
    requires EntryReplaced(v.final, final, k - NDIRECT, id)
    ensures Looping(d', own, i, j, v.(final := final), k + 1)
  {
    var w :| IsWork(w, i, j) && LoopInv(At(d, v), own, k, w);
    LoopPointer(At(d, v), At(d', v.(final := final)), own, k, w, id);
  }

  /** The chunk is written to the first block behind a new indirect block. */
  lemma PlaceFirst(d: Image, own: Owners, i: nat, j: Accesses.Request, v: Accesses.Locals, id: u32)
    returns (d': Image)
    requires i < INODE_NUM && PlacingFirst(d, own, i, j, v, id) && own.Keys <= Used(d)
    ensures d' == Store(d, id, Chunk(j.data, NDIRECT, j.g.fill(NDIRECT))) && Guarantee(i, d, own, d', own)
    ensures Looping(d', own, i, j, v.(final := SetWord(v.final, 0, id)), NDIRECT + 1)
    ensures d'[InodeBlock(i)] == d[InodeBlock(i)]
  {
    var ind, b := v.blocks[NDIRECT], Chunk(j.data, NDIRECT, j.g.fill(NDIRECT));
    d' := StoresOwn(i, d, own, id, b);
    FirstPlaced(d, own, i, j, v, id, d');
  }

  lemma FirstPlaced(d: Image, own: Owners, i: nat, j: Accesses.Request, v: Accesses.Locals, id: u32, d': Image)
    requires PlacingFirst(d, own, i, j, v, id) && OnlyBlock(d, d', id)
    requires d'[id] == Chunk(j.data, NDIRECT, j.g.fill(NDIRECT))
    ensures Looping(d', own, i, j, v.(final := SetWord(v.final, 0, id)), NDIRECT + 1)
  {
    var ind := v.blocks[NDIRECT];
    var own1: Owners := own - {id as nat} - {ind as nat};
    var w :| IsWork(w, i, j) && LoopInv(At(d, Bare(v)), own1, NDIRECT, w);
    RemoveThenAddTwo(own, id, ind, Slot(i, NDIRECT), Slot(i, INDIRECT_SLOT));
    SetWordReplaces(v.final, 0, id);
    BareAfter(v);
    LoopFirstPointer(At(d, Bare(v)), At(d', v.(final := SetWord(v.final, 0, id))), own1, w, ind, id);
  }

  // ---- after the loop of a write --------------------------------------------------------------------------

  /** The slots of the new file, and slots from `from` to n - 1 of the old one. */
  ghost function TailSlots(c: Cursor, nb: nat, prev: Block, from: int, n: nat): map<nat, nat>
    requires ValidCursor(c)
  {
    map s: nat | s <= INDIRECT_SLOT && (HoldsSlot(0, nb, s) || from <= s < n) :: TailId(c, nb, prev, s)
  }

  function TailId(c: Cursor, nb: nat, prev: Block, s: nat): nat
    requires ValidCursor(c)
  {
    if HoldsSlot(0, nb, s) then HeldId(c, ZeroBlock(), nb, s) else RestWord(prev, s)
  }

  function RestWord(prev: Block, s: nat): nat {
    if NDIRECT <= s < INDIRECT_SLOT then Word(prev, s - NDIRECT) else 0
  }

  /** ids are the entries from `from` on, of the old file, that are still to be freed. */
  ghost predicate Entries(prev: Block, nb: nat, from: nat, n: nat, ids: seq<u32>) {
    && from + |ids| == n && (ids != [] ==> NDIRECT < nb <= from && n <= MAX_BLOCKS)
    && forall y :: 0 <= y < |ids| ==> ids[y] == RestWord(prev, from + y)
  }

  ghost predicate TailInv(c: Cursor, own: Owners, w: Job, from: nat, ids: seq<u32>) {
    && w.Valid() && ValidCursor(c) && Entries(w.prev, w.NewBlocks(), from, w.OldBlocks(), ids)
    && Owns(own, w.i, TailSlots(c, w.NewBlocks(), w.prev, from, w.OldBlocks()))
    && ChunksAt(c.d, c, w) && PointersKept(c, w.x, w.NewBlocks())
  }

  ghost predicate Trimming(d: Image, own: Owners, i: nat, j: Accesses.Request, v: Accesses.Locals, ids: seq<u32>) {
    Own(own, i) && exists w, from: nat :: IsWork(w, i, j) && TailInv(At(d, v), own, w, from, ids)
  }

  /** The loop is over and nothing is to be freed. */
  lemma TailEmpty(c: Cursor, own: Owners, w: Job)
    requires LoopInv(c, own, w.NewBlocks(), w) && (w.OldBlocks() <= w.NewBlocks() || w.OldBlocks() <= NDIRECT)
    requires w.OldBlocks() > NDIRECT ==> w.NewBlocks() > NDIRECT
    ensures TailInv(c, own, w, w.OldBlocks(), [])
  {
    OwnsNoTail(c, own, w.i, w.prev, w.OldBlocks(), w.NewBlocks());
    ChunksAfterLoop(c, own, w, c.d);
  }

  lemma OwnsNoTail(c: Cursor, own: Owners, i: nat, prev: Block, n: nat, nb: nat)
    requires ValidCursor(c) && Owns(own, i, Held(c, prev, n, nb)) && nb <= MAX_BLOCKS
    requires (n > NDIRECT ==> nb > NDIRECT) && (n <= nb || n <= NDIRECT)
    ensures Owns(own, i, TailSlots(c, nb, prev, n, n))
  {
    OwnsAfterTail(c, own, i, prev, n, nb);
    NoTail(c, own, i, prev, n, nb);
    EmptyTail(c, nb, prev, n);
  }

  lemma EmptyTail(c: Cursor, nb: nat, prev: Block, n: nat)
    requires ValidCursor(c)
    ensures TailSlots(c, nb, prev, n, n) == FinalSlots(c, nb)
  {
  }

  /** The loop is over and the blocks past the new end are to be freed. */
  lemma TailFull(c: Cursor, own: Owners, w: Job, ids: seq<u32>)
    requires LoopInv(c, own, w.NewBlocks(), w) && NDIRECT < w.NewBlocks() <= w.OldBlocks() <= MAX_BLOCKS
    requires Entries(w.prev, w.NewBlocks(), w.NewBlocks(), w.OldBlocks(), ids)
    ensures TailInv(c, own, w, w.NewBlocks(), ids)
  {
    HeldIsTail(c, w.NewBlocks(), w.prev, w.OldBlocks());
    ChunksAfterLoop(c, own, w, c.d);
  }

  lemma HeldIsTail(c: Cursor, nb: nat, prev: Block, n: nat)
    requires ValidCursor(c) && NDIRECT < nb <= n <= MAX_BLOCKS
    ensures Held(c, prev, n, nb) == TailSlots(c, nb, prev, nb, n)
  {
    var h, t := Held(c, prev, n, nb), TailSlots(c, nb, prev, nb, n);
    forall s: nat
      ensures s in h <==> s in t
      ensures s in h ==> h[s] == t[s]
    {
    }
  }

  lemma TailStarts(d: Image, own: Owners, i: nat, j: Accesses.Request, v: Accesses.Locals)
    requires Looping(d, own, i, j, v, BlocksFor(|j.data|)) && InodeOk(j.x) && SizesFit(j.x.size, |j.data|)
    ensures |v.blocks| == NDIRECT + 1
    ensures Trimming(d, own, i, j, v, TrailingIds(At(d, v), |j.data|, j.x.size, j.g))
  {
    var w :| IsWork(w, i, j) && LoopInv(At(d, v), own, BlocksFor(|j.data|), w);
    var c, s, o := At(d, v), |j.data|, j.x.size;
    FitShape(o, s);
    IndirectFlag(s, BlocksFor(s));
    if BlocksFor(s) > NDIRECT && s < o {
      LoopPrev(c, own, w);
      var ids := InsideIds(c, s, o, j.g, w.prev);
      TailFull(c, own, w, ids);
    } else {
      TailEmpty(c, own, w);
    }
  }

  lemma LoopPrev(c: Cursor, own: Owners, w: Job)
    requires LoopInv(c, own, w.NewBlocks(), w) && w.OldBlocks() > NDIRECT
    ensures c.blocks[NDIRECT] < BLOCK_NUM && c.d[c.blocks[NDIRECT]] == w.prev
  {
    var h := Held(c, w.prev, w.OldBlocks(), w.NewBlocks());
    assert HoldsSlot(w.OldBlocks(), w.NewBlocks(), INDIRECT_SLOT) && INDIRECT_SLOT in h;
  }

  lemma InsideIds(c: Cursor, s: nat, o: nat, g: Garbage, prev: Block) returns (ids: seq<u32>)
    requires ValidCursor(c) && c.blocks[NDIRECT] < BLOCK_NUM && c.d[c.blocks[NDIRECT]] == prev
    requires DIRECT_BYTES + BLOCK_SIZE <= s < o <= MAX_BYTES && BlocksFor(o - s) == BlocksFor(o) - BlocksFor(s)
    ensures ids == TrailingIds(c, s, o, g) && NDIRECT < BlocksFor(s) <= BlocksFor(o) <= MAX_BLOCKS
    ensures Entries(prev, BlocksFor(s), BlocksFor(s), BlocksFor(o), ids)
  {
    IndirectFlag(s, BlocksFor(s));
    ids := Pointers(prev, BlocksFor(s) - NDIRECT, BlocksFor(o - s), g);
  }

  /** The next entry is freed. */
  lemma TailStep(d: Image, own: Owners, i: nat, j: Accesses.Request, v: Accesses.Locals, ids: seq<u32>)
    returns (d': Image, own': Owners)
    requires i < INODE_NUM && Trimming(d, own, i, j, v, ids) && ids != [] && own.Keys <= Used(d)
    ensures d' == FreeBlock(d, ids[0]) && Guarantee(i, d, own, d', own') && d'[InodeBlock(i)] == d[InodeBlock(i)]
    ensures Trimming(d', own', i, j, v, ids[1..])
  {
    var w, from: nat :| IsWork(w, i, j) && TailInv(At(d, v), own, w, from, ids);
    TailDrops(At(d, v), own, w, from, ids);
    d', own' := FreeBlock(d, ids[0]), own - {ids[0] as nat};
    FreesOwn(i, d, own, ids[0]);
    TailInvStill(At(d, v), own', w, from + 1, ids[1..], At(d', v));
  }

  lemma TailDrops(c: Cursor, own: Owners, w: Job, from: nat, ids: seq<u32>)
    requires TailInv(c, own, w, from, ids) && ids != []
    ensures ids[0] in own && TailInv(c, own - {ids[0] as nat}, w, from + 1, ids[1..])
  {
    OwnsLess(c, own, w.i, w.NewBlocks(), w.prev, from, w.OldBlocks(), ids[0]);
    EntriesDrop(w.prev, w.NewBlocks(), from, w.OldBlocks(), ids);
  }

  lemma EntriesDrop(prev: Block, nb: nat, from: nat, n: nat, ids: seq<u32>)
    requires Entries(prev, nb, from, n, ids) && ids != []
    ensures ids[0] == RestWord(prev, from) && Entries(prev, nb, from + 1, n, ids[1..])
  {
  }

  lemma OwnsLess(c: Cursor, own: Owners, i: nat, nb: nat, prev: Block, from: nat, n: nat, id: u32)
    requires ValidCursor(c) && Owns(own, i, TailSlots(c, nb, prev, from, n)) && NDIRECT < nb <= from < n <= MAX_BLOCKS
    requires id == RestWord(prev, from)
    ensures id in own && Owns(own - {id as nat}, i, TailSlots(c, nb, prev, from + 1, n))
  {
    var t, t' := TailSlots(c, nb, prev, from, n), TailSlots(c, nb, prev, from + 1, n);
    assert from in t && t[from] == id;
    assert forall s: nat :: s in t' <==> s in t && s != from;
    assert forall s: nat :: s in t' ==> t'[s] == t[s];
  }

  lemma TailInvStill(c: Cursor, own: Owners, w: Job, from: nat, ids: seq<u32>, c': Cursor)
    requires TailInv(c, own, w, from, ids) && c' == c.(d := c'.d)
    requires forall b :: b in own ==> FIRST_DATA <= b < BLOCK_NUM && c'.d[b] == c.d[b]
    ensures TailInv(c', own, w, from, ids)
  {
    var nb, n := w.NewBlocks(), w.OldBlocks();
    var t := TailSlots(c, nb, w.prev, from, n);
    SameTail(c, c', nb, w.prev, from, n);
    forall s: nat | s < nb
      ensures Fetch(c'.d, HeldId(c', ZeroBlock(), nb, s), ZeroBlock()) == Chunk(w.data, s, w.g.fill(s))
    {
      assert HoldsSlot(0, nb, s) && s in t && t[s] in own;
    }
  }

  lemma SameTail(c: Cursor, c': Cursor, nb: nat, prev: Block, from: int, n: nat)
    requires ValidCursor(c) && c' == c.(d := c'.d)
    ensures TailSlots(c', nb, prev, from, n) == TailSlots(c, nb, prev, from, n)
    ensures FinalSlots(c', nb) == FinalSlots(c, nb)
  {
  }

  lemma TrimmingStill(d: Image, own: Owners, i: nat, j: Accesses.Request, v: Accesses.Locals, ids: seq<u32>, d': Image)
    requires Trimming(d, own, i, j, v, ids) && forall b :: b in own ==> d'[b] == d[b]
    ensures Trimming(d', own, i, j, v, ids)
  {
    var w, from: nat :| IsWork(w, i, j) && TailInv(At(d, v), own, w, from, ids);
    TailInvStill(At(d, v), own, w, from, ids, At(d', v));
  }

  ghost predicate InPlace(d: Image, own: Owners, c: Cursor, w: Job) {
    w.Valid() && SettledWith(d, own, c, w) && PointersKept(c, w.x, w.NewBlocks())
  }

  /** The new file is in place, up to its indirect block and its record. */
  ghost predicate Settling(d: Image, own: Owners, i: nat, j: Accesses.Request, v: Accesses.Locals) {
    && Own(own, i) && |v.blocks| == NDIRECT + 1
    && exists w :: IsWork(w, i, j) && InPlace(d, own, At(d, v), w)
  }

  /** And its indirect block is written. */
  ghost predicate Flushed(d: Image, own: Owners, i: nat, j: Accesses.Request, v: Accesses.Locals) {
    Settling(d, own, i, j, v) && (BlocksFor(|j.data|) > NDIRECT ==> Fetch(d, v.blocks[NDIRECT], ZeroBlock()) == v.final)
  }

  lemma TailEnds(d: Image, own: Owners, i: nat, j: Accesses.Request, v: Accesses.Locals)
    requires Trimming(d, own, i, j, v, [])
    ensures Settling(d, own, i, j, v)
  {
    var w, from: nat :| IsWork(w, i, j) && TailInv(At(d, v), own, w, from, []);
    EmptyTail(At(d, v), w.NewBlocks(), w.prev, w.OldBlocks());
    TailSettles(At(d, v), own, w);
  }

  lemma TailSettles(c: Cursor, own: Owners, w: Job)
    requires w.Valid() && w.ow0 == map[] && Own(own, w.i) && ValidCursor(c)
    requires Owns(own, w.i, FinalSlots(c, w.NewBlocks())) && ChunksAt(c.d, c, w)
    ensures SettledWith(c.d, own, c, w)
  {
  }

  lemma SettlingStill(d: Image, own: Owners, i: nat, j: Accesses.Request, v: Accesses.Locals, d': Image)
    requires Settling(d, own, i, j, v) && forall b :: b in own ==> d'[b] == d[b]
    ensures Settling(d', own, i, j, v)
  {
    var w :| IsWork(w, i, j) && InPlace(d, own, At(d, v), w);
    SettledStill(d, own, At(d, v), w, d', At(d', v));
  }

  lemma SettledStill(d: Image, own: Owners, c: Cursor, w: Job, d': Image, c': Cursor)
    requires SettledWith(d, own, c, w) && w.ow0 == map[] && c' == c.(d := c'.d)
    requires forall b :: b in own ==> own[b].i == w.i && d'[b] == d[b]
    ensures SettledWith(d', own, c', w)
  {
    var nb, f := w.NewBlocks(), FinalSlots(c, w.NewBlocks());
    SameTail(c, c', nb, w.prev, 0, 0);
    forall s: nat | s < nb
      ensures Fetch(d', HeldId(c', ZeroBlock(), nb, s), ZeroBlock()) == Chunk(w.data, s, w.g.fill(s))
    {
      assert HoldsSlot(0, nb, s) && s in f && f[s] in own;
    }
  }

  lemma FlushedStill(d: Image, own: Owners, i: nat, j: Accesses.Request, v: Accesses.Locals, d': Image)
    requires Flushed(d, own, i, j, v) && forall b :: b in own ==> d'[b] == d[b]
    ensures Flushed(d', own, i, j, v)
  {
    SettlingStill(d, own, i, j, v, d');
    if BlocksFor(|j.data|) > NDIRECT {
      IndirectIsOwn(d, own, i, j, v);
    }
  }

  lemma IndirectIsOwn(d: Image, own: Owners, i: nat, j: Accesses.Request, v: Accesses.Locals)
    requires Settling(d, own, i, j, v) && BlocksFor(|j.data|) > NDIRECT
    ensures v.blocks[NDIRECT] in own
  {
    var w :| IsWork(w, i, j) && InPlace(d, own, At(d, v), w);
    var f := FinalSlots(At(d, v), w.NewBlocks());
    assert HoldsSlot(0, w.NewBlocks(), INDIRECT_SLOT) && INDIRECT_SLOT in f && f[INDIRECT_SLOT] == v.blocks[NDIRECT];
  }

  /** The indirect block is written back, if there is one. */
  lemma FlushStep(d: Image, own: Owners, i: nat, j: Accesses.Request, v: Accesses.Locals) returns (d': Image)
    requires i < INODE_NUM && Settling(d, own, i, j, v) && own.Keys <= Used(d) && SizesFit(j.x.size, |j.data|)
    ensures d' == if Accesses.Wrote(j) then Store(d, v.blocks[NDIRECT], v.final) else d
    ensures Guarantee(i, d, own, d', own) && d'[InodeBlock(i)] == d[InodeBlock(i)] && Flushed(d', own, i, j, v)
  {
    FitShape(j.x.size, |j.data|);
    IndirectFlag(|j.data|, BlocksFor(|j.data|));
    if BlocksFor(|j.data|) > NDIRECT {
      IndirectIsOwn(d, own, i, j, v);
      d' := StoresOwn(i, d, own, v.blocks[NDIRECT], v.final);
      FlushSettles(d, own, i, j, v, d');
    } else {
      d' := d;
      NothingChanges(i, d, own);
    }
  }

  lemma FlushSettles(d: Image, own: Owners, i: nat, j: Accesses.Request, v: Accesses.Locals, d': Image)
    requires Settling(d, own, i, j, v) && BlocksFor(|j.data|) > NDIRECT
    requires OnlyBlock(d, d', v.blocks[NDIRECT]) && v.blocks[NDIRECT] < BLOCK_NUM && d'[v.blocks[NDIRECT]] == v.final
    ensures Flushed(d', own, i, j, v)
  {
    var w :| IsWork(w, i, j) && InPlace(d, own, At(d, v), w);
    SettleAfterFlush(d, own, At(d, v), w, d');
    SettledAt(d', own, At(d, v), w, At(d', v));
  }

  /** The cursor's own disk plays no part. */
  lemma SettledAt(d: Image, own: Owners, c: Cursor, w: Job, c': Cursor)
    requires SettledWith(d, own, c, w) && c' == c.(d := c'.d)
    ensures SettledWith(d, own, c', w)
  {
    SameTail(c, c', w.NewBlocks(), w.prev, 0, 0);
    forall s: nat | s < w.NewBlocks()
      ensures Fetch(d, HeldId(c', ZeroBlock(), w.NewBlocks(), s), ZeroBlock()) == Chunk(w.data, s, w.g.fill(s))
    {
      assert HeldId(c', ZeroBlock(), w.NewBlocks(), s) == HeldId(c, ZeroBlock(), w.NewBlocks(), s);
    }
  }

  /** With the indirect block written, the new record describes the new file. */
  lemma FlushedHolds(d: Image, own: Owners, i: nat, j: Accesses.Request, v: Accesses.Locals)
    requires Flushed(d, own, i, j, v) && j.x.typ != 0 && InodeOk(j.x) && SizesFit(j.x.size, |j.data|)
    ensures Holds(d, own, i, Accesses.NewInodeOf(j, v), File(j.x.typ, j.data, j.x.atime, j.x.mtime, j.x.ctime))
  {
    var w :| IsWork(w, i, j) && InPlace(d, own, At(d, v), w);
    var c := At(d, v);
    FinalSlotMap(d, c, w);
    FinalBytes(d, c, w);
    FinalInodeOk(c, w);
  }

  /** The null indirect pointer of a short file is freed. */
  lemma DropStep(d: Image, own: Owners, i: nat, j: Accesses.Request, v: Accesses.Locals) returns (d': Image)
    requires i < INODE_NUM && Flushed(d, own, i, j, v) && own.Keys <= Used(d)
    requires j.x.typ != 0 && InodeOk(j.x) && SizesFit(j.x.size, |j.data|)
    ensures d' == if |j.data| <= DIRECT_BYTES then FreeBlock(d, v.blocks[NDIRECT]) else d
    ensures Guarantee(i, d, own, d', own) && d'[InodeBlock(i)] == d[InodeBlock(i)]
    ensures Holds(d', own, i, Accesses.NewInodeOf(j, v), File(j.x.typ, j.data, j.x.atime, j.x.mtime, j.x.ctime))
  {
    FlushedHolds(d, own, i, j, v);
    if |j.data| <= DIRECT_BYTES {
      NoIndirect(d, own, i, j, v);
      d' := FreeBlock(d, 0);
      FreesNull(i, d, own);
      HoldsStill(d, own, i, Accesses.NewInodeOf(j, v), File(j.x.typ, j.data, j.x.atime, j.x.mtime, j.x.ctime), d');
    } else {
      d' := d;
      NothingChanges(i, d, own);
    }
  }

  lemma NoIndirect(d: Image, own: Owners, i: nat, j: Accesses.Request, v: Accesses.Locals)
    requires Settling(d, own, i, j, v) && InodeOk(j.x) && SizesFit(j.x.size, |j.data|) && |j.data| <= DIRECT_BYTES
    ensures v.blocks[NDIRECT] == 0
  {
    var w :| IsWork(w, i, j) && InPlace(d, own, At(d, v), w);
    FitShape(j.x.size, |j.data|);
  }
}
