/** Every single access of a call on one inode keeps what the call has achieved so far, whatever the other calls do. */
module Interleaving {
  import opened Layout
  import opened DiskImage
  import opened Bitmap
  import opened InodeTable
  import opened FileOps
  import opened Ownership
  import opened Files
  import opened WriteLoop
  import opened ReadRemove
  import opened Refinement
  import opened Accesses
  import opened Sharing

  // ---- what a call on a file amounts to -------------------------------------------------------------------

  predicate IsCall(op: Op) {
    op.Read? || op.Write?
  }

  function FileAfter(f: File, op: Op): File
    requires IsCall(op)
  {
    match op
    case Write(_, data, _) => if |data| <= MAX_BYTES then f.(bytes := data) else f
    case Read(_, now, _) => f.(atime := now)
  }

  function ReplyFor(f: File, op: Op): Reply
    requires IsCall(op)
  {
    if op.Write? then Nothing else Answer(Contents(|f.bytes|, f.bytes))
  }

  /** A write whose sizes fit. */
  predicate Fitting(s: nat, op: Op) {
    op.Write? && |op.data| <= MAX_BYTES ==> SizesFit(s, |op.data|)
  }

  function Begin(op: Op): (t: Task)
    requires IsCall(op)
    ensures ValidTask(t)
  {
    match op
    case Write(_, data, g) => WBegin(data, g)
    case Read(_, now, g) => RBegin(now, g)
  }

  // ---- how far a call has come ----------------------------------------------------------------------------

  /** A write that has read its inode. */
  ghost predicate Writing(i: nat, j: Request, op: Op, f: File, d: Image)
    requires i < INODE_NUM
  {
    && op == Write(i, j.data, j.g) && InodeAt(d, i) == j.x && j.x.typ != 0
    && InodeOk(j.x) && SizesFit(j.x.size, |j.data|)
    && f.typ == j.x.typ && f.atime == j.x.atime && f.mtime == j.x.mtime && f.ctime == j.x.ctime
  }

  /** The block for iteration k is chosen. */
  ghost predicate Placing(d: Image, own: Owners, i: nat, j: Request, v: Locals, k: nat, id: u32) {
    if NDIRECT <= k < BlocksFor(j.x.size) then PlacingOld(d, own, i, j, v, k, id)
    else if k == NDIRECT && BlocksFor(j.x.size) <= NDIRECT then PlacingFirst(d, own, i, j, v, id)
    else PlacingNew(d, own, i, j, v, k, id)
  }

  /** The record has been read and not yet been stored again. */
  ghost predicate Storing(d: Image, own: Owners, i: nat, x: Inode, f: File, op: Op) {
    IsCall(op) && Holds(d, own, i, x, FileAfter(f, op))
  }

  /** A read that has stored the access time. */
  ghost predicate Reading(d: Image, own: Owners, i: nat, x: Inode, f: File, op: Op)
    requires i < INODE_NUM
  {
    op.Read? && InodeAt(d, i) == x && Holds(d, own, i, x, FileAfter(f, op))
  }

  /** k blocks are read. */
  ghost predicate Copying(d: Image, x: Inode, ind: Block, k: nat, bytes: seq<byte>, f: File) {
    && x.size <= MAX_BYTES && |f.bytes| == x.size && k <= BlocksFor(x.size)
    && (BlocksFor(x.size) > NDIRECT ==> ind == Fetch(d, x.blocks[NDIRECT], ZeroBlock()))
    && bytes == f.bytes[..Min(BLOCK_SIZE * k, x.size)]
  }

  /** Inode i held f when the call op on it began, and task t is a possible state of that call. */
  ghost predicate TaskOk(i: nat, t: Task, op: Op, f: File, d: Image, own: Owners)
    requires i < INODE_NUM && IsCall(op)
  {
    match t
    case WBegin(data, g) => op == Write(i, data, g) && Fitting(|f.bytes|, op) && Steady(d, own, i, f)
    case WFreeing(j, k) => Writing(i, j, op, f, d) && Freeing(d, own, i, j.x, k)
    case WIter(j, v, k) => Writing(i, j, op, f, d) && Looping(d, own, i, j, v, k)
    case WSecond(j, v, k) => Writing(i, j, op, f, d) && k == NDIRECT && HasIndirect(d, own, i, j, v)
    case WPlace(j, v, k, id) => Writing(i, j, op, f, d) && Placing(d, own, i, j, v, k, id)
    case WTail(j, v, ids) => Writing(i, j, op, f, d) && Trimming(d, own, i, j, v, ids)
    case WFlush(j, v) => Writing(i, j, op, f, d) && Settling(d, own, i, j, v)
    case WDrop(j, v) => Writing(i, j, op, f, d) && Flushed(d, own, i, j, v)
    case WPut(x) => op.Write? && Storing(d, own, i, x, f, op)
    case WPutStore(x, buf) => op.Write? && Storing(d, own, i, x, f, op) && buf == d[InodeBlock(i)]
    case RBegin(now, g) => op == Read(i, now, g) && Steady(d, own, i, f)
    case RPut(x, g) => op.Read? && Storing(d, own, i, x, f, op)
    case RPutStore(x, g, buf) => op.Read? && Storing(d, own, i, x, f, op) && buf == d[InodeBlock(i)]
    case RIndirect(x, g) => Reading(d, own, i, x, f, op)
    case RLoop(x, g, ind, k, bytes) => Reading(d, own, i, x, f, op) && Copying(d, x, ind, k, bytes, f)
    case Finished(r) => Steady(d, own, i, FileAfter(f, op)) && r == ReplyFor(f, op)
  }

  // ---- others do not disturb it ---------------------------------------------------------------------------

  lemma PlacingNewStill(d: Image, own: Owners, i: nat, j: Request, v: Locals, k: nat, id: u32, d': Image)
    requires PlacingNew(d, own, i, j, v, k, id) && forall b :: b in own ==> d'[b] == d[b]
    ensures PlacingNew(d', own, i, j, v, k, id)
  {
    LoopingStill(d, own - {id as nat}, i, j, v, k, d');
  }

  lemma PlacingOldStill(d: Image, own: Owners, i: nat, j: Request, v: Locals, k: nat, id: u32, d': Image)
    requires PlacingOld(d, own, i, j, v, k, id) && forall b :: b in own ==> d'[b] == d[b]
    ensures PlacingOld(d', own, i, j, v, k, id)
  {
    LoopingStill(d, own, i, j, v, k, d');
    OldIndirectOwn(d, own, i, j, v, k);
  }

  lemma OldIndirectOwn(d: Image, own: Owners, i: nat, j: Request, v: Locals, k: nat)
    requires Looping(d, own, i, j, v, k) && BlocksFor(j.x.size) > NDIRECT
    ensures j.x.blocks[NDIRECT] in own
  {
    var w :| IsWork(w, i, j) && LoopInv(At(d, v), own, k, w);
    var h := Held(At(d, v), w.prev, w.OldBlocks(), k);
    assert HoldsSlot(w.OldBlocks(), k, INDIRECT_SLOT) && INDIRECT_SLOT in h && h[INDIRECT_SLOT] == w.x.blocks[NDIRECT];
  }

  lemma HasIndirectStill(d: Image, own: Owners, i: nat, j: Request, v: Locals, d': Image)
    requires HasIndirect(d, own, i, j, v) && forall b :: b in own ==> d'[b] == d[b]
    ensures HasIndirect(d', own, i, j, v)
  {
    LoopingStill(d, own - {v.blocks[NDIRECT] as nat}, i, j, Bare(v), NDIRECT, d');
  }

  lemma PlacingStill(d: Image, own: Owners, i: nat, j: Request, v: Locals, k: nat, id: u32, d': Image)
    requires Placing(d, own, i, j, v, k, id) && forall b :: b in own ==> d'[b] == d[b]
    ensures Placing(d', own, i, j, v, k, id)
  {
    if NDIRECT <= k < BlocksFor(j.x.size) {
      PlacingOldStill(d, own, i, j, v, k, id, d');
    } else if k == NDIRECT && BlocksFor(j.x.size) <= NDIRECT {
      HasIndirectStill(d, own - {id as nat}, i, j, v, d');
    } else {
      PlacingNewStill(d, own, i, j, v, k, id, d');
    }
  }

  lemma SameRecord(d: Image, i: nat, d': Image)
    requires i < INODE_NUM && d'[InodeBlock(i)] == d[InodeBlock(i)]
    ensures InodeAt(d', i) == InodeAt(d, i)
  {
    SameBlockSameInode(d, d', i);
  }

  lemma CopyingStill(d: Image, own: Owners, i: nat, x: Inode, f: File, g: File, ind: Block, k: nat,
                     bytes: seq<byte>, d': Image)
    requires Holds(d, own, i, x, g) && Copying(d, x, ind, k, bytes, f) && forall b :: b in own ==> d'[b] == d[b]
    ensures Copying(d', x, ind, k, bytes, f)
  {
    if BlocksFor(x.size) > NDIRECT {
      var m := SlotMap(d, x);
      assert INDIRECT_SLOT in m && m[INDIRECT_SLOT] == x.blocks[NDIRECT];
    }
  }

  lemma WritingStill(i: nat, t: Task, op: Op, f: File, d: Image, own: Owners, d': Image)
    requires i < INODE_NUM && IsCall(op) && TaskOk(i, t, op, f, d, own)
    requires t.WFreeing? || t.WIter? || t.WSecond? || t.WPlace? || t.WTail? || t.WFlush? || t.WDrop?
    requires d'[InodeBlock(i)] == d[InodeBlock(i)] && forall b :: b in own ==> d'[b] == d[b]
    ensures TaskOk(i, t, op, f, d', own)
  {
    SameRecord(d, i, d');
    match t
    case WFreeing(j, k) => FreeingStill(d, own, i, j.x, k, d');
    case WIter(j, v, k) => LoopingStill(d, own, i, j, v, k, d');
    case WSecond(j, v, k) => HasIndirectStill(d, own, i, j, v, d');
    case WPlace(j, v, k, id) => PlacingStill(d, own, i, j, v, k, id, d');
    case WTail(j, v, ids) => TrimmingStill(d, own, i, j, v, ids, d');
    case WFlush(j, v) => SettlingStill(d, own, i, j, v, d');
    case WDrop(j, v) => FlushedStill(d, own, i, j, v, d');
  }

  lemma ReadingStill(i: nat, t: Task, op: Op, f: File, d: Image, own: Owners, d': Image)
    requires i < INODE_NUM && IsCall(op) && TaskOk(i, t, op, f, d, own)
    requires t.RBegin? || t.RPut? || t.RPutStore? || t.RIndirect? || t.RLoop?
    requires d'[InodeBlock(i)] == d[InodeBlock(i)] && forall b :: b in own ==> d'[b] == d[b]
    ensures TaskOk(i, t, op, f, d', own)
  {
    SameRecord(d, i, d');
    var x, after := InodeAt(d, i), FileAfter(f, op);
    match t
    case RBegin(_, _) => HoldsStill(d, own, i, x, f, d');
    case RPut(y, _) => HoldsStill(d, own, i, y, after, d');
    case RPutStore(y, _, _) => HoldsStill(d, own, i, y, after, d');
    case RIndirect(y, _) => HoldsStill(d, own, i, y, after, d');
    case RLoop(y, _, ind, k, bytes) =>
      HoldsStill(d, own, i, y, after, d');
      CopyingStill(d, own, i, y, f, after, ind, k, bytes, d');
  }

  lemma EndsStill(i: nat, t: Task, op: Op, f: File, d: Image, own: Owners, d': Image)
    requires i < INODE_NUM && IsCall(op) && TaskOk(i, t, op, f, d, own)
    requires t.WBegin? || t.WPut? || t.WPutStore? || t.Finished?
    requires d'[InodeBlock(i)] == d[InodeBlock(i)] && forall b :: b in own ==> d'[b] == d[b]
    ensures TaskOk(i, t, op, f, d', own)
  {
    SameRecord(d, i, d');
    var x, after := InodeAt(d, i), FileAfter(f, op);
    match t
    case WBegin(_, _) => HoldsStill(d, own, i, x, f, d');
    case WPut(y) => HoldsStill(d, own, i, y, after, d');
    case WPutStore(y, _) => HoldsStill(d, own, i, y, after, d');
    case Finished(_) => HoldsStill(d, own, i, x, after, d');
  }

  /** As long as its table block and its blocks stay as they are, a call is not disturbed. */
  lemma TaskStill(i: nat, t: Task, op: Op, f: File, d: Image, own: Owners, d': Image)
    requires i < INODE_NUM && IsCall(op) && TaskOk(i, t, op, f, d, own)
    requires d'[InodeBlock(i)] == d[InodeBlock(i)] && forall b :: b in own ==> d'[b] == d[b]
    ensures TaskOk(i, t, op, f, d', own)
  {
    if t.RBegin? || t.RPut? || t.RPutStore? || t.RIndirect? || t.RLoop? {
      ReadingStill(i, t, op, f, d, own, d');
    } else if t.WBegin? || t.WPut? || t.WPutStore? || t.Finished? {
      EndsStill(i, t, op, f, d, own, d');
    } else {
      WritingStill(i, t, op, f, d, own, d');
    }
  }

  // ---- its own accesses -----------------------------------------------------------------------------------

  /** The next access calls alloc_block. */
  predicate Allocating(t: Task) {
    match t
    case WSecond(_, _, _) => true
    case WIter(j, _, k) =>
      && k < BlocksFor(|j.data|)
      && (AllocatesData(|j.data|, ToInt(j.x.size), k) || AllocatesIndirect(|j.data|, ToInt(j.x.size), k))
    case _ => false
  }

  /** If the next access calls alloc_block, it finds a free block. */
  ghost predicate Room(t: Task, d: Image) {
    Allocating(t) ==> |Used(d)| < DATA_BLOCKS
  }

  /** The next access leads to a state of the same call and keeps its promise to others. */
  ghost predicate Advances(i: nat, t: Task, op: Op, f: File, d: Image, own: Owners)
    requires i < INODE_NUM && IsCall(op) && ValidTask(t)
  {
    exists own' :: Moves(i, op, f, d, own, Access(i, t, d).0, Access(i, t, d).1, own')
  }

  ghost predicate Moves(i: nat, op: Op, f: File, d: Image, own: Owners, t': Task, d': Image, own': Owners)
    requires i < INODE_NUM && IsCall(op)
  {
    TaskOk(i, t', op, f, d', own') && Guarantee(i, d, own, d', own')
  }

  lemma AdvancesBy(i: nat, t: Task, op: Op, f: File, d: Image, own: Owners, t': Task, d': Image, own': Owners)
    requires i < INODE_NUM && IsCall(op) && ValidTask(t) && Access(i, t, d) == (t', d')
    requires TaskOk(i, t', op, f, d', own') && Guarantee(i, d, own, d', own')
    ensures Advances(i, t, op, f, d, own)
  {
    assert Moves(i, op, f, d, own, Access(i, t, d).0, Access(i, t, d).1, own');
  }

  lemma OwnBlocks(i: nat, t: Task, op: Op, f: File, d: Image, own: Owners)
    requires i < INODE_NUM && IsCall(op) && TaskOk(i, t, op, f, d, own)
    ensures Own(own, i)
  {
  }

  lemma WBeginAdvances(i: nat, op: Op, f: File, d: Image, own: Owners)
    requires i < INODE_NUM && op.Write? && own.Keys <= Used(d) && TaskOk(i, WBegin(op.data, op.g), op, f, d, own)
    ensures Advances(i, WBegin(op.data, op.g), op, f, d, own)
  {
    var t, x := WBegin(op.data, op.g), InodeAt(d, i);
    NothingChanges(i, d, own);
    if |op.data| > MAX_BYTES {
      AdvancesBy(i, t, op, f, d, own, Finished(Nothing), d, own);
    } else {
      FreeingStarts(d, own, i, x, f);
      AdvancesBy(i, t, op, f, d, own, WFreeing(Request(op.data, op.g, x), 0), d, own);
    }
  }

  lemma WritingKept(i: nat, j: Request, op: Op, f: File, d: Image, d': Image)
    requires i < INODE_NUM && Writing(i, j, op, f, d) && d'[InodeBlock(i)] == d[InodeBlock(i)]
    ensures Writing(i, j, op, f, d')
  {
    SameRecord(d, i, d');
  }

  lemma WFreeingAdvances(i: nat, j: Request, k: nat, op: Op, f: File, d: Image, own: Owners)
    requires i < INODE_NUM && IsCall(op) && ValidTask(WFreeing(j, k)) && own.Keys <= Used(d)
    requires Writing(i, j, op, f, d) && Freeing(d, own, i, j.x, k)
    ensures Advances(i, WFreeing(j, k), op, f, d, own)
  {
    if k < NDIRECT {
      var d', own' := FreeingStep(d, own, i, j.x, k);
      WritingKept(i, j, op, f, d, d');
      FreeingMoves(i, j, k, d);
      AdvancesBy(i, WFreeing(j, k), op, f, d, own, WFreeing(j, k + 1), d', own');
    } else {
      FreeingEndAdvances(i, j, op, f, d, own);
    }
  }

  lemma FreeingEndAdvances(i: nat, j: Request, op: Op, f: File, d: Image, own: Owners)
    requires i < INODE_NUM && IsCall(op) && ValidTask(WFreeing(j, NDIRECT)) && own.Keys <= Used(d)
    requires Writing(i, j, op, f, d) && Freeing(d, own, i, j.x, NDIRECT)
    ensures Advances(i, WFreeing(j, NDIRECT), op, f, d, own)
  {
    LoopStarts(d, own, i, j);
    NothingChanges(i, d, own);
    AdvancesBy(i, WFreeing(j, NDIRECT), op, f, d, own, WIter(j, Locals(j.x.blocks, j.g.final), 0), d, own);
  }

  /** Which of the accesses an iteration begins with. */
  lemma IterKind(j: Request, k: nat)
    requires SizesFit(j.x.size, |j.data|) && InodeOk(j.x) && k < BlocksFor(|j.data|)
    ensures var s, o, n := |j.data|, ToInt(j.x.size), BlocksFor(j.x.size);
            && o == j.x.size
            && (k < NDIRECT || (k >= n && Max(k, n) > NDIRECT) <==> AllocatesData(s, o, k))
            && (k == NDIRECT && n <= NDIRECT <==> AllocatesIndirect(s, o, k))
            && (WritesDirect(s, k) <==> k < NDIRECT)
  {
    StepKind(j.x.size, |j.data|, k);
  }

  lemma WIterAdvances(i: nat, j: Request, v: Locals, k: nat, op: Op, f: File, d: Image, own: Owners)
    requires i < INODE_NUM && IsCall(op) && ValidTask(WIter(j, v, k)) && own.Keys <= Used(d) && Room(WIter(j, v, k), d)
    requires TaskOk(i, WIter(j, v, k), op, f, d, own) && k < BlocksFor(|j.data|)
    ensures Advances(i, WIter(j, v, k), op, f, d, own)
  {
    IterKind(j, k);
    IterAccessIs(i, j, v, k, d);
    var n := BlocksFor(j.x.size);
    if k < NDIRECT || (k >= n && Max(k, n) > NDIRECT) {
      var d', id, own' := ReserveNew(d, own, i, j, v, k);
      WritingKept(i, j, op, f, d, d');
      AdvancesBy(i, WIter(j, v, k), op, f, d, own, WPlace(j, v, k, id), d', own');
    } else if n <= NDIRECT {
      BareYet(d, own, i, j, v);
      var d', id, own' := ReserveIndirect(d, own, i, j, v);
      WritingKept(i, j, op, f, d, d');
      AdvancesBy(i, WIter(j, v, k), op, f, d, own, WSecond(j, v.(blocks := v.blocks[NDIRECT := id]), k), d', own');
    } else {
      var id := Word(Fetch(d, v.blocks[NDIRECT], j.g.unread(k)), k - NDIRECT);
      FindsOld(d, own, i, j, v, k);
      NothingChanges(i, d, own);
      AdvancesBy(i, WIter(j, v, k), op, f, d, own, WPlace(j, v, k, id), d, own);
    }
  }

  lemma BareYet(d: Image, own: Owners, i: nat, j: Request, v: Locals)
    requires Looping(d, own, i, j, v, NDIRECT) && InodeOk(j.x) && BlocksFor(j.x.size) <= NDIRECT
    ensures |v.blocks| == NDIRECT + 1 && v.blocks[NDIRECT] == 0
  {
    var w :| IsWork(w, i, j) && LoopInv(At(d, v), own, NDIRECT, w);
  }

  lemma FindsOld(d: Image, own: Owners, i: nat, j: Request, v: Locals, k: nat)
    requires Looping(d, own, i, j, v, k) && NDIRECT <= k < BlocksFor(j.x.size)
    requires k < BlocksFor(|j.data|) && k < MAX_BLOCKS
    requires |v.blocks| == NDIRECT + 1
    ensures PlacingOld(d, own, i, j, v, k, Word(Fetch(d, v.blocks[NDIRECT], j.g.unread(k)), k - NDIRECT))
  {
    OldIndirectOwn(d, own, i, j, v, k);
    var w :| IsWork(w, i, j) && LoopInv(At(d, v), own, k, w);
    assert v.blocks[NDIRECT] == j.x.blocks[NDIRECT];
  }

  lemma WIterEndAdvances(i: nat, j: Request, v: Locals, k: nat, op: Op, f: File, d: Image, own: Owners)
    requires i < INODE_NUM && IsCall(op) && own.Keys <= Used(d) && ValidTask(WIter(j, v, k)) && k == BlocksFor(|j.data|)
    requires TaskOk(i, WIter(j, v, k), op, f, d, own)
    ensures Advances(i, WIter(j, v, k), op, f, d, own)
  {
    TailStarts(d, own, i, j, v);
    NothingChanges(i, d, own);
    var ids := TrailingIds(At(d, v), |j.data|, j.x.size, j.g);
    AdvancesBy(i, WIter(j, v, k), op, f, d, own, WTail(j, v, ids), d, own);
  }

  lemma WSecondAdvances(i: nat, j: Request, v: Locals, k: nat, op: Op, f: File, d: Image, own: Owners)
    requires i < INODE_NUM && IsCall(op) && ValidTask(WSecond(j, v, k))
    requires own.Keys <= Used(d) && Room(WSecond(j, v, k), d)
    requires TaskOk(i, WSecond(j, v, k), op, f, d, own)
    ensures Advances(i, WSecond(j, v, k), op, f, d, own)
  {
    var d', id, own' := ReserveFirst(d, own, i, j, v);
    WritingKept(i, j, op, f, d, d');
    AdvancesBy(i, WSecond(j, v, k), op, f, d, own, WPlace(j, v, k, id), d', own');
  }

  /** The chunk is written to the chosen block. */
  lemma PlaceChunk(i: nat, j: Request, v: Locals, k: nat, id: u32, d: Image, own: Owners) returns (d': Image)
    requires i < INODE_NUM && ValidTask(WPlace(j, v, k, id)) && own.Keys <= Used(d)
    requires InodeOk(j.x) && SizesFit(j.x.size, |j.data|) && Placing(d, own, i, j, v, k, id)
    ensures d' == Store(d, id, Chunk(j.data, k, j.g.fill(k))) && Guarantee(i, d, own, d', own)
    ensures Looping(d', own, i, j, PlacedLocals(j, v, k, id), k + 1) && d'[InodeBlock(i)] == d[InodeBlock(i)]
  {
    IterKind(j, k);
    PlacedAs(j, v, k, id);
    if k < NDIRECT {
      d' := PlaceDirect(d, own, i, j, v, k, id);
    } else {
      d' := PlaceIndirect(i, j, v, k, id, d, own);
    }
  }

  lemma PlacedAs(j: Request, v: Locals, k: nat, id: u32)
    requires ValidTask(WPlace(j, v, k, id)) && (WritesDirect(|j.data|, k) <==> k < NDIRECT)
    ensures PlacedLocals(j, v, k, id) ==
            if k < NDIRECT then v.(blocks := v.blocks[k := id]) else v.(final := SetWord(v.final, k - NDIRECT, id))
  {
  }

  lemma PlaceIndirect(i: nat, j: Request, v: Locals, k: nat, id: u32, d: Image, own: Owners) returns (d': Image)
    requires i < INODE_NUM && NDIRECT <= k < BlocksFor(|j.data|) && |j.data| <= MAX_BYTES && own.Keys <= Used(d)
    requires |v.blocks| == NDIRECT + 1 && Placing(d, own, i, j, v, k, id)
    ensures d' == Store(d, id, Chunk(j.data, k, j.g.fill(k))) && Guarantee(i, d, own, d', own)
    ensures Looping(d', own, i, j, v.(final := SetWord(v.final, k - NDIRECT, id)), k + 1)
    ensures d'[InodeBlock(i)] == d[InodeBlock(i)]
  {
    if k < BlocksFor(j.x.size) {
      d' := PlaceOld(d, own, i, j, v, k, id);
    } else if k == NDIRECT && BlocksFor(j.x.size) <= NDIRECT {
      d' := PlaceFirst(d, own, i, j, v, id);
    } else {
      d' := PlaceGrow(d, own, i, j, v, k, id);
    }
  }

  lemma PlaceMoves(i: nat, j: Request, v: Locals, k: nat, id: u32, d: Image)
    requires i < INODE_NUM && ValidTask(WPlace(j, v, k, id))
    ensures Access(i, WPlace(j, v, k, id), d) ==
            (WIter(j, PlacedLocals(j, v, k, id), k + 1), Store(d, id, Chunk(j.data, k, j.g.fill(k))))
  {
  }

  lemma WPlaceAdvances(i: nat, j: Request, v: Locals, k: nat, id: u32, op: Op, f: File, d: Image, own: Owners)
    requires i < INODE_NUM && IsCall(op) && ValidTask(WPlace(j, v, k, id)) && own.Keys <= Used(d)
    requires Writing(i, j, op, f, d) && Placing(d, own, i, j, v, k, id)
    ensures Advances(i, WPlace(j, v, k, id), op, f, d, own)
  {
    var d' := PlaceChunk(i, j, v, k, id, d, own);
    WritingKept(i, j, op, f, d, d');
    PlaceMoves(i, j, v, k, id, d);
    AdvancesBy(i, WPlace(j, v, k, id), op, f, d, own, WIter(j, PlacedLocals(j, v, k, id), k + 1), d', own);
  }

  lemma WTailAdvances(i: nat, j: Request, v: Locals, ids: seq<u32>, op: Op, f: File, d: Image, own: Owners)
    requires i < INODE_NUM && IsCall(op) && ValidTask(WTail(j, v, ids)) && own.Keys <= Used(d)
    requires TaskOk(i, WTail(j, v, ids), op, f, d, own)
    ensures Advances(i, WTail(j, v, ids), op, f, d, own)
  {
    if ids == [] {
      TailEnds(d, own, i, j, v);
      NothingChanges(i, d, own);
      AdvancesBy(i, WTail(j, v, ids), op, f, d, own, WFlush(j, v), d, own);
    } else {
      var d', own' := TailStep(d, own, i, j, v, ids);
      WritingKept(i, j, op, f, d, d');
      AdvancesBy(i, WTail(j, v, ids), op, f, d, own, WTail(j, v, ids[1..]), d', own');
    }
  }

  lemma WFlushAdvances(i: nat, j: Request, v: Locals, op: Op, f: File, d: Image, own: Owners)
    requires i < INODE_NUM && IsCall(op) && ValidTask(WFlush(j, v)) && own.Keys <= Used(d)
    requires TaskOk(i, WFlush(j, v), op, f, d, own)
    ensures Advances(i, WFlush(j, v), op, f, d, own)
  {
    var d' := FlushStep(d, own, i, j, v);
    WritingKept(i, j, op, f, d, d');
    AdvancesBy(i, WFlush(j, v), op, f, d, own, WDrop(j, v), d', own);
  }

  lemma WDropAdvances(i: nat, j: Request, v: Locals, op: Op, f: File, d: Image, own: Owners)
    requires i < INODE_NUM && IsCall(op) && ValidTask(WDrop(j, v)) && own.Keys <= Used(d)
    requires TaskOk(i, WDrop(j, v), op, f, d, own)
    ensures Advances(i, WDrop(j, v), op, f, d, own)
  {
    var d' := DropStep(d, own, i, j, v);
    AdvancesBy(i, WDrop(j, v), op, f, d, own, WPut(NewInodeOf(j, v)), d', own);
  }

  // ---- storing the record, and reading --------------------------------------------------------------------

  /** The second half of put_inode, on a table block that nobody else has touched. */
  lemma RecordStored(i: nat, d: Image, own: Owners, x: Inode, buf: Block, f: File) returns (d': Image)
    requires i < INODE_NUM && own.Keys <= Used(d) && Holds(d, own, i, x, f) && buf == d[InodeBlock(i)]
    ensures d' == StoreRecord(d, i, x, buf) && Guarantee(i, d, own, d', own)
    ensures InodeAt(d', i) == x && Holds(d', own, i, x, f)
  {
    d' := PutInode(d, i, x);
    StoresRecord(i, d, own, x);
    HoldsStill(d, own, i, x, f, d');
  }

  lemma WPutAdvances(i: nat, x: Inode, op: Op, f: File, d: Image, own: Owners)
    requires i < INODE_NUM && IsCall(op) && own.Keys <= Used(d) && TaskOk(i, WPut(x), op, f, d, own)
    ensures Advances(i, WPut(x), op, f, d, own)
  {
    NothingChanges(i, d, own);
    AdvancesBy(i, WPut(x), op, f, d, own, WPutStore(x, d[InodeBlock(i)]), d, own);
  }

  lemma RPutAdvances(i: nat, x: Inode, g: Garbage, op: Op, f: File, d: Image, own: Owners)
    requires i < INODE_NUM && IsCall(op) && own.Keys <= Used(d) && TaskOk(i, RPut(x, g), op, f, d, own)
    ensures Advances(i, RPut(x, g), op, f, d, own)
  {
    NothingChanges(i, d, own);
    AdvancesBy(i, RPut(x, g), op, f, d, own, RPutStore(x, g, d[InodeBlock(i)]), d, own);
  }

  lemma WPutStoreAdvances(i: nat, x: Inode, buf: Block, op: Op, f: File, d: Image, own: Owners)
    requires i < INODE_NUM && IsCall(op) && own.Keys <= Used(d) && TaskOk(i, WPutStore(x, buf), op, f, d, own)
    ensures Advances(i, WPutStore(x, buf), op, f, d, own)
  {
    var d' := RecordStored(i, d, own, x, buf, FileAfter(f, op));
    AdvancesBy(i, WPutStore(x, buf), op, f, d, own, Finished(Nothing), d', own);
  }

  lemma RPutStoreAdvances(i: nat, x: Inode, g: Garbage, buf: Block, op: Op, f: File, d: Image, own: Owners)
    requires i < INODE_NUM && IsCall(op) && own.Keys <= Used(d) && TaskOk(i, RPutStore(x, g, buf), op, f, d, own)
    ensures Advances(i, RPutStore(x, g, buf), op, f, d, own)
  {
    var d' := RecordStored(i, d, own, x, buf, FileAfter(f, op));
    AdvancesBy(i, RPutStore(x, g, buf), op, f, d, own, RIndirect(x, g), d', own);
  }

  lemma RBeginAdvances(i: nat, op: Op, f: File, d: Image, own: Owners)
    requires i < INODE_NUM && op.Read? && own.Keys <= Used(d) && TaskOk(i, RBegin(op.now, op.g), op, f, d, own)
    ensures Advances(i, RBegin(op.now, op.g), op, f, d, own)
  {
    var x := InodeAt(d, i);
    NothingChanges(i, d, own);
    Touched(d, own, i, x, f, op.now);
    ReadBeginMoves(i, op.now, op.g, d, x);
    AdvancesBy(i, RBegin(op.now, op.g), op, f, d, own, RPut(x.(atime := op.now), op.g), d, own);
  }

  lemma Touched(d: Image, own: Owners, i: nat, x: Inode, f: File, now: u32)
    requires Holds(d, own, i, x, f)
    ensures Holds(d, own, i, x.(atime := now), f.(atime := now))
  {
    var y := x.(atime := now);
    assert SlotMap(d, y) == SlotMap(d, x);
    SameFieldsSameBytes(d, x, y);
  }

  lemma RIndirectAdvances(i: nat, x: Inode, g: Garbage, op: Op, f: File, d: Image, own: Owners)
    requires i < INODE_NUM && IsCall(op) && own.Keys <= Used(d) && TaskOk(i, RIndirect(x, g), op, f, d, own)
    ensures Advances(i, RIndirect(x, g), op, f, d, own)
  {
    NothingChanges(i, d, own);
    var ind := Fetch(d, x.blocks[NDIRECT], g.unread(0));
    IndirectFound(d, own, i, x, FileAfter(f, op), g.unread(0));
    assert Copying(d, x, ind, 0, [], f);
    AdvancesBy(i, RIndirect(x, g), op, f, d, own, RLoop(x, g, ind, 0, []), d, own);
  }

  lemma IndirectFound(d: Image, own: Owners, i: nat, x: Inode, f: File, scratch: Block)
    requires Holds(d, own, i, x, f)
    ensures x.size <= MAX_BYTES && |f.bytes| == x.size
    ensures BlocksFor(x.size) > NDIRECT ==>
              Fetch(d, x.blocks[NDIRECT], scratch) == Fetch(d, x.blocks[NDIRECT], ZeroBlock())
  {
    if BlocksFor(x.size) > NDIRECT {
      var m := SlotMap(d, x);
      assert INDIRECT_SLOT in m && m[INDIRECT_SLOT] == x.blocks[NDIRECT];
    }
  }

  /** Block k is copied. */
  lemma CopyStep(d: Image, own: Owners, i: nat, x: Inode, f: File, h: File, g: Garbage, ind: Block, k: nat,
                 bytes: seq<byte>)
    requires Holds(d, own, i, x, h) && h.bytes == f.bytes && Copying(d, x, ind, k, bytes, f) && k < BlocksFor(x.size)
    ensures ToInt(x.size) == x.size && Copying(d, x, ind, k + 1, bytes + ReadStep(d, x, ind, k, g), f)
  {
    var ind' := Fetch(d, x.blocks[NDIRECT], g.unread(0));
    IndirectFound(d, own, i, x, h, g.unread(0));
    OwnedIsReadable(d, x, own, i);
    ReadStepBytes(d, x, ind', k, g);
    assert ReadStep(d, x, ind, k, g) == ReadStep(d, x, ind', k, g);
    SplitPrefix(f.bytes, BLOCK_SIZE * k, Min(BLOCK_SIZE * (k + 1), x.size));
  }

  lemma RLoopAdvances(i: nat, x: Inode, g: Garbage, ind: Block, k: nat, bytes: seq<byte>, op: Op, f: File, d: Image,
                      own: Owners)
    requires i < INODE_NUM && IsCall(op) && own.Keys <= Used(d) && ValidTask(RLoop(x, g, ind, k, bytes))
    requires TaskOk(i, RLoop(x, g, ind, k, bytes), op, f, d, own) && k < BlocksFor(x.size)
    ensures Advances(i, RLoop(x, g, ind, k, bytes), op, f, d, own)
  {
    NothingChanges(i, d, own);
    CopyStep(d, own, i, x, f, FileAfter(f, op), g, ind, k, bytes);
    AdvancesBy(i, RLoop(x, g, ind, k, bytes), op, f, d, own,
               RLoop(x, g, ind, k + 1, bytes + ReadStep(d, x, ind, k, g)), d, own);
  }

  lemma RLoopEndAdvances(i: nat, x: Inode, g: Garbage, ind: Block, k: nat, bytes: seq<byte>, op: Op, f: File, d: Image,
                         own: Owners)
    requires i < INODE_NUM && IsCall(op) && own.Keys <= Used(d) && ValidTask(RLoop(x, g, ind, k, bytes))
    requires TaskOk(i, RLoop(x, g, ind, k, bytes), op, f, d, own) && k == BlocksFor(x.size)
    ensures Advances(i, RLoop(x, g, ind, k, bytes), op, f, d, own)
  {
    NothingChanges(i, d, own);
    assert bytes == f.bytes;
    AdvancesBy(i, RLoop(x, g, ind, k, bytes), op, f, d, own, Finished(Answer(Contents(x.size, bytes))), d, own);
  }

  lemma AnyIterAdvances(i: nat, j: Request, v: Locals, k: nat, op: Op, f: File, d: Image, own: Owners)
    requires i < INODE_NUM && IsCall(op) && ValidTask(WIter(j, v, k)) && own.Keys <= Used(d) && Room(WIter(j, v, k), d)
    requires TaskOk(i, WIter(j, v, k), op, f, d, own)
    ensures Advances(i, WIter(j, v, k), op, f, d, own)
  {
    if k < BlocksFor(|j.data|) {
      WIterAdvances(i, j, v, k, op, f, d, own);
    } else {
      WIterEndAdvances(i, j, v, k, op, f, d, own);
    }
  }

  lemma IterationAdvances(i: nat, t: Task, op: Op, f: File, d: Image, own: Owners)
    requires i < INODE_NUM && op.Write? && ValidTask(t) && TaskOk(i, t, op, f, d, own)
    requires own.Keys <= Used(d) && Room(t, d) && (t.WIter? || t.WSecond? || t.WPlace?)
    ensures Advances(i, t, op, f, d, own)
  {
    if t.WSecond? {
      WSecondAdvances(i, t.j, t.v, t.k, op, f, d, own);
    } else if t.WPlace? {
      WPlaceAdvances(i, t.j, t.v, t.k, t.id, op, f, d, own);
    } else {
      AnyIterAdvances(i, t.j, t.v, t.k, op, f, d, own);
    }
  }

  lemma WriteAdvances(i: nat, t: Task, op: Op, f: File, d: Image, own: Owners)
    requires i < INODE_NUM && op.Write? && ValidTask(t) && !t.Finished? && TaskOk(i, t, op, f, d, own)
    requires own.Keys <= Used(d) && Room(t, d)
    ensures Advances(i, t, op, f, d, own)
  {
    if t.WBegin? {
      WBeginAdvances(i, op, f, d, own);
    } else if t.WFreeing? {
      WFreeingAdvances(i, t.j, t.k, op, f, d, own);
    } else if t.WIter? || t.WSecond? || t.WPlace? {
      IterationAdvances(i, t, op, f, d, own);
    } else {
      EndAdvances(i, t, op, f, d, own);
    }
  }

  lemma EndAdvances(i: nat, t: Task, op: Op, f: File, d: Image, own: Owners)
    requires i < INODE_NUM && op.Write? && ValidTask(t) && TaskOk(i, t, op, f, d, own) && own.Keys <= Used(d)
    requires t.WTail? || t.WFlush? || t.WDrop? || t.WPut? || t.WPutStore?
    ensures Advances(i, t, op, f, d, own)
  {
    match t
    case WTail(j, v, ids) => WTailAdvances(i, j, v, ids, op, f, d, own);
    case WFlush(j, v) => WFlushAdvances(i, j, v, op, f, d, own);
    case WDrop(j, v) => WDropAdvances(i, j, v, op, f, d, own);
    case WPut(x) => WPutAdvances(i, x, op, f, d, own);
    case WPutStore(x, buf) => WPutStoreAdvances(i, x, buf, op, f, d, own);
  }

  lemma ReadAdvances(i: nat, t: Task, op: Op, f: File, d: Image, own: Owners)
    requires i < INODE_NUM && op.Read? && ValidTask(t) && !t.Finished? && TaskOk(i, t, op, f, d, own)
    requires own.Keys <= Used(d)
    ensures Advances(i, t, op, f, d, own)
  {
    match t
    case RBegin(_, _) => RBeginAdvances(i, op, f, d, own);
    case RPut(x, g) => RPutAdvances(i, x, g, op, f, d, own);
    case RPutStore(x, g, buf) => RPutStoreAdvances(i, x, g, buf, op, f, d, own);
    case RIndirect(x, g) => RIndirectAdvances(i, x, g, op, f, d, own);
    case RLoop(x, g, ind, k, bytes) =>
      if k < BlocksFor(x.size) {
        RLoopAdvances(i, x, g, ind, k, bytes, op, f, d, own);
      } else {
        RLoopEndAdvances(i, x, g, ind, k, bytes, op, f, d, own);
      }
  }

  /** Every access of a call on a file; one that allocates must find a free block. */
  lemma AccessAdvances(i: nat, t: Task, op: Op, f: File, d: Image, own: Owners)
    requires i < INODE_NUM && IsCall(op) && ValidTask(t) && !t.Finished? && TaskOk(i, t, op, f, d, own)
    requires own.Keys <= Used(d) && Room(t, d)
    ensures Advances(i, t, op, f, d, own)
  {
    if op.Write? {
      WriteAdvances(i, t, op, f, d, own);
    } else {
      ReadAdvances(i, t, op, f, d, own);
    }
  }
}
