/**
 * read_file and write_file of one inode, cut into the single disk accesses they consist of.  (Allocating or
 * freeing a block, which the code does under the bitmap mutex, is one access.)  A task is a thread's place in
 * its critical section; its denotation is what is left to happen if nobody interferes.
 */
module Accesses {
  import opened Layout
  import opened DiskImage
  import opened Bitmap
  import opened InodeTable
  import opened FileOps
  import opened ReadRemove
  import opened Refinement

  /** What a write knows once it has read the inode. */
  datatype Request = Request(data: seq<byte>, g: Garbage, x: Inode)

  predicate ValidRequest(j: Request) {
    |j.data| <= MAX_BYTES
  }

  /** The local variables of write_file's loop. */
  datatype Locals = Locals(blocks: seq<u32>, final: Block)

  datatype Task =
    | WBegin(data: seq<byte>, g: Garbage)
    | WFreeing(j: Request, k: nat)
    | WIter(j: Request, v: Locals, k: nat)
    | WSecond(j: Request, v: Locals, k: nat)              // the indirect block is allocated, the data block not yet
    | WPlace(j: Request, v: Locals, k: nat, id: u32)      // the block for iteration k is chosen, not yet written
    | WTail(j: Request, v: Locals, ids: seq<u32>)
    | WFlush(j: Request, v: Locals)
    | WDrop(j: Request, v: Locals)
    | WPut(x: Inode)
    | WPutStore(x: Inode, buf: Block)
    | RBegin(now: u32, g: Garbage)
    | RPut(x: Inode, g: Garbage)
    | RPutStore(x: Inode, g: Garbage, buf: Block)
    | RIndirect(x: Inode, g: Garbage)
    | RLoop(x: Inode, g: Garbage, ind: Block, k: nat, bytes: seq<byte>)
    | Finished(reply: Reply)

  predicate ValidTask(t: Task) {
    match t
    case WFreeing(j, k) => ValidRequest(j) && k <= NDIRECT
    case WIter(j, v, k) => ValidRequest(j) && |v.blocks| == NDIRECT + 1 && k <= BlocksFor(|j.data|)
    case WSecond(j, v, k) =>
      ValidRequest(j) && |v.blocks| == NDIRECT + 1 && NDIRECT <= k < BlocksFor(|j.data|) && !WritesDirect(|j.data|, k)
    case WPlace(j, v, k, _) =>
      ValidRequest(j) && |v.blocks| == NDIRECT + 1 && k < BlocksFor(|j.data|) &&
      (WritesDirect(|j.data|, k) || k >= NDIRECT)
    case WTail(j, v, _) => ValidRequest(j) && |v.blocks| == NDIRECT + 1
    case WFlush(j, v) => ValidRequest(j) && |v.blocks| == NDIRECT + 1
    case WDrop(j, v) => ValidRequest(j) && |v.blocks| == NDIRECT + 1
    case RLoop(x, _, _, k, _) => k <= BlocksFor(ToInt(x.size))
    case _ => true
  }

  function Wrote(j: Request): bool {
    WroteIndirect(|j.data|, BlocksFor(|j.data|))
  }

  function NewInodeOf(j: Request, v: Locals): Inode
    requires ValidRequest(j) && |v.blocks| == NDIRECT + 1
  {
    j.x.(size := |j.data|, blocks := v.blocks)
  }

  function PlacedLocals(j: Request, v: Locals, k: nat, id: u32): (v': Locals)
    requires ValidTask(WPlace(j, v, k, id))
    ensures |v'.blocks| == NDIRECT + 1
  {
    if WritesDirect(|j.data|, k) then v.(blocks := v.blocks[k := id])
    else v.(final := SetWord(v.final, k - NDIRECT, id))
  }

  /** The second half of put_inode. */
  function StoreRecord(d: Image, i: nat, x: Inode, buf: Block): Image
    requires i < INODE_NUM
  {
    d[InodeBlock(i) := SetWords(buf, InodeWord(i), InodeWords(x))]
  }

  /** The three ways an iteration can begin, each finishing as WriteStep does. */
  predicate AllocatesData(s: nat, o: int, k: nat) {
    || WritesDirect(s, k)
    || (s >= o && o > DIRECT_BYTES && Written(s, k) >= o)
    || (s >= o && o <= DIRECT_BYTES && k != NDIRECT)
  }

  predicate AllocatesIndirect(s: nat, o: int, k: nat) {
    !WritesDirect(s, k) && s >= o && o <= DIRECT_BYTES && k == NDIRECT
  }

  /** The cursor once block id holds chunk k. */
  function PlacedCursor(j: Request, v: Locals, k: nat, id: u32, d: Image): (c: Cursor)
    requires ValidTask(WPlace(j, v, k, id))
    ensures ValidCursor(c)
  {
    var v' := PlacedLocals(j, v, k, id);
    Cursor(Store(d, id, Chunk(j.data, k, j.g.fill(k))), v'.blocks, v'.final)
  }

  /** The first access of iteration k, or the end of the loop. */
  function IterAccess(j: Request, v: Locals, k: nat, d: Image): (r: (Task, Image))
    requires ValidTask(WIter(j, v, k))
    ensures ValidTask(r.0)
  {
    var s, o := |j.data|, ToInt(j.x.size);
    if k == BlocksFor(s) then (WTail(j, v, TrailingIds(Cursor(d, v.blocks, v.final), s, o, j.g)), d)
    else if AllocatesData(s, o, k) then
      var (d', id) := AllocBlock(d);
      (WPlace(j, v, k, id), d')
    else if AllocatesIndirect(s, o, k) then
      var (d', id) := AllocBlock(d);
      (WSecond(j, v.(blocks := v.blocks[NDIRECT := id]), k), d')
    else
      (WPlace(j, v, k, Word(Fetch(d, v.blocks[NDIRECT], j.g.unread(k)), k - NDIRECT)), d)
  }

  /** One access by the thread that works on inode i: its next task and the disk afterwards. */
  function Access(i: nat, t: Task, d: Image): (r: (Task, Image))
    requires i < INODE_NUM && ValidTask(t)
    ensures ValidTask(r.0)
  {
    match t
    case WBegin(data, g) =>
      if |data| > MAX_BYTES then (Finished(Nothing), d)
      else
        (match GetInode(d, i)
         case None => (Finished(Nothing), d)
         case Some(x) => (WFreeing(Request(data, g, x), 0), d))
    case WFreeing(j, k) =>
      if k < NDIRECT then (WFreeing(j, k + 1), FreeBlock(d, j.x.blocks[k]))
      else (WIter(j, Locals(j.x.blocks, j.g.final), 0), d)
    case WIter(j, v, k) => IterAccess(j, v, k, d)
    case WSecond(j, v, k) =>
      var (d', id) := AllocBlock(d);
      (WPlace(j, v, k, id), d')
    case WPlace(j, v, k, id) =>
      (WIter(j, PlacedLocals(j, v, k, id), k + 1), Store(d, id, Chunk(j.data, k, j.g.fill(k))))
    case WTail(j, v, ids) =>
      if ids == [] then (WFlush(j, v), d) else (WTail(j, v, ids[1..]), FreeBlock(d, ids[0]))
    case WFlush(j, v) => (WDrop(j, v), if Wrote(j) then Store(d, v.blocks[NDIRECT], v.final) else d)
    case WDrop(j, v) =>
      (WPut(NewInodeOf(j, v)), if |j.data| <= DIRECT_BYTES then FreeBlock(d, v.blocks[NDIRECT]) else d)
    case WPut(x) => (WPutStore(x, d[InodeBlock(i)]), d)
    case WPutStore(x, buf) => (Finished(Nothing), StoreRecord(d, i, x, buf))
    case RBegin(now, g) =>
      (match GetInode(d, i)
       case None => (Finished(Answer(NoFile)), d)
       case Some(x) => (RPut(x.(atime := now), g), d))
    case RPut(x, g) => (RPutStore(x, g, d[InodeBlock(i)]), d)
    case RPutStore(x, g, buf) => (RIndirect(x, g), StoreRecord(d, i, x, buf))
    case RIndirect(x, g) => (RLoop(x, g, Fetch(d, x.blocks[NDIRECT], g.unread(0)), 0, []), d)
    case RLoop(x, g, ind, k, bytes) =>
      if k == BlocksFor(ToInt(x.size)) then (Finished(Answer(Contents(ToInt(x.size), bytes))), d)
      else (RLoop(x, g, ind, k + 1, bytes + ReadStep(d, x, ind, k, g)), d)
    case Finished(_) => (t, d)
  }

  // ---- what is left to happen -----------------------------------------------------------------------------

  /** Iterations k, k + 1, ... to the end. */
  function WriteFrom(c: Cursor, data: seq<byte>, o: int, k: nat, g: Garbage): (c': Cursor)
    requires ValidCursor(c) && |data| <= MAX_BYTES && k <= BlocksFor(|data|)
    ensures ValidCursor(c')
    decreases BlocksFor(|data|) - k
  {
    if k == BlocksFor(|data|) then c else WriteFrom(WriteStep(c, data, o, k, g), data, o, k + 1, g)
  }

  lemma UnfoldRest(c: Cursor, c1: Cursor, data: seq<byte>, o: int, k: nat, g: Garbage)
    requires ValidCursor(c) && |data| <= MAX_BYTES && k < BlocksFor(|data|) && c1 == WriteUpTo(c, data, o, k, g)
    ensures WriteFrom(c1, data, o, k, g) == WriteFrom(WriteUpTo(c, data, o, k + 1, g), data, o, k + 1, g)
  {
    UnfoldWrite(c, data, o, k, g, c1, WriteStep(c1, data, o, k, g));
  }

  lemma {:induction false} WriteFromIsRest(c: Cursor, data: seq<byte>, o: int, k: nat, g: Garbage)
    requires ValidCursor(c) && |data| <= MAX_BYTES && k <= BlocksFor(|data|)
    ensures WriteFrom(WriteUpTo(c, data, o, k, g), data, o, k, g) == WriteUpTo(c, data, o, BlocksFor(|data|), g)
    decreases BlocksFor(|data|) - k
  {
    if k < BlocksFor(|data|) {
      WriteFromIsRest(c, data, o, k + 1, g);
      UnfoldRest(c, WriteUpTo(c, data, o, k, g), data, o, k, g);
    }
  }

  /** From a cursor at the end of the loop to the end of write_file. */
  function Complete(i: nat, j: Request, c: Cursor): Image
    requires i < INODE_NUM && ValidRequest(j) && ValidCursor(c)
  {
    PutInode(FinishWrite(c, |j.data|, ToInt(j.x.size), j.g), i, NewInodeOf(j, Locals(c.blocks, c.final)))
  }

  function Continue(i: nat, j: Request, c: Cursor, k: nat): Image
    requires i < INODE_NUM && ValidRequest(j) && ValidCursor(c) && k <= BlocksFor(|j.data|)
  {
    Complete(i, j, WriteFrom(c, j.data, ToInt(j.x.size), k, j.g))
  }

  /** From the trailing frees on. */
  function AfterTail(i: nat, j: Request, v: Locals, d: Image): Image
    requires i < INODE_NUM && ValidRequest(j) && |v.blocks| == NDIRECT + 1
  {
    PutInode(Flush(d, v.blocks, v.final, |j.data|), i, NewInodeOf(j, v))
  }

  function AfterFlush(i: nat, j: Request, v: Locals, d: Image): Image
    requires i < INODE_NUM && ValidRequest(j) && |v.blocks| == NDIRECT + 1
  {
    PutInode(if |j.data| <= DIRECT_BYTES then FreeBlock(d, v.blocks[NDIRECT]) else d, i, NewInodeOf(j, v))
  }

  /** Blocks k, k + 1, ... of the file. */
  function ReadFrom(d: Image, x: Inode, ind: Block, k: nat, g: Garbage): seq<byte>
    requires k <= BlocksFor(ToInt(x.size))
    decreases BlocksFor(ToInt(x.size)) - k
  {
    if k == BlocksFor(ToInt(x.size)) then [] else ReadStep(d, x, ind, k, g) + ReadFrom(d, x, ind, k + 1, g)
  }

  lemma {:induction false} ReadFromIsRest(d: Image, x: Inode, ind: Block, k: nat, g: Garbage)
    requires k <= BlocksFor(ToInt(x.size))
    ensures ReadUpTo(d, x, ind, k, g) + ReadFrom(d, x, ind, k, g) == ReadUpTo(d, x, ind, BlocksFor(ToInt(x.size)), g)
    decreases BlocksFor(ToInt(x.size)) - k
  {
    if k < BlocksFor(ToInt(x.size)) {
      ReadFromIsRest(d, x, ind, k + 1, g);
      UnfoldRead(d, x, ind, k, g);
      Associative(ReadUpTo(d, x, ind, k, g), ReadStep(d, x, ind, k, g), ReadFrom(d, x, ind, k + 1, g));
    }
  }

  lemma UnfoldRead(d: Image, x: Inode, ind: Block, k: nat, g: Garbage)
    requires k < BlocksFor(ToInt(x.size))
    ensures ReadUpTo(d, x, ind, k + 1, g) == ReadUpTo(d, x, ind, k, g) + ReadStep(d, x, ind, k, g)
    ensures ReadFrom(d, x, ind, k, g) == ReadStep(d, x, ind, k, g) + ReadFrom(d, x, ind, k + 1, g)
  {
  }

  lemma Associative(a: seq<byte>, b: seq<byte>, c: seq<byte>)
    ensures a + (b + c) == a + b + c
  {
  }

  function ReadRest(x: Inode, g: Garbage, d: Image): (Image, Reply) {
    (d, Answer(Contents(ToInt(x.size), ReadFrom(d, x, Fetch(d, x.blocks[NDIRECT], g.unread(0)), 0, g))))
  }

  /** The disk and the reply that the rest of the task leads to, if it runs alone from d. */
  function Denotation(i: nat, t: Task, d: Image): (Image, Reply)
    requires i < INODE_NUM && ValidTask(t)
  {
    match t
    case WBegin(data, g) => (WriteFile(d, i, data, g), Nothing)
    case WFreeing(j, k) =>
      (Continue(i, j, Cursor(FreeAll(d, j.x.blocks[k..NDIRECT]), j.x.blocks, j.g.final), 0), Nothing)
    case WIter(j, v, k) => (Continue(i, j, Cursor(d, v.blocks, v.final), k), Nothing)
    case WSecond(j, v, k) =>
      (Continue(i, j, StepGrow(Cursor(d, v.blocks, v.final), k, Chunk(j.data, k, j.g.fill(k))), k + 1), Nothing)
    case WPlace(j, v, k, id) => (Continue(i, j, PlacedCursor(j, v, k, id, d), k + 1), Nothing)
    case WTail(j, v, ids) => (AfterTail(i, j, v, FreeAll(d, ids)), Nothing)
    case WFlush(j, v) => (AfterTail(i, j, v, d), Nothing)
    case WDrop(j, v) => (AfterFlush(i, j, v, d), Nothing)
    case WPut(x) => (PutInode(d, i, x), Nothing)
    case WPutStore(x, buf) => (StoreRecord(d, i, x, buf), Nothing)
    case RBegin(now, g) => var (d', r) := ReadFile(d, i, now, g); (d', Answer(r))
    case RPut(x, g) => ReadRest(x, g, PutInode(d, i, x))
    case RPutStore(x, g, buf) => ReadRest(x, g, StoreRecord(d, i, x, buf))
    case RIndirect(x, g) => ReadRest(x, g, d)
    case RLoop(x, g, ind, k, bytes) => (d, Answer(Contents(ToInt(x.size), bytes + ReadFrom(d, x, ind, k, g))))
    case Finished(reply) => (d, reply)
  }

  // ---- every access keeps the denotation ------------------------------------------------------------------

  ghost predicate Keeps(i: nat, t: Task, d: Image)
    requires i < INODE_NUM && ValidTask(t)
  {
    var (t', d') := Access(i, t, d);
    Denotation(i, t', d') == Denotation(i, t, d)
  }

  lemma FreeFirst(d: Image, ids: seq<u32>)
    requires ids != []
    ensures FreeAll(d, ids) == FreeAll(FreeBlock(d, ids[0]), ids[1..])
  {
    FreeAllAppend(d, [ids[0]], ids[1..]);
    assert ids == [ids[0]] + ids[1..];
    assert FreeAll(d, [ids[0]]) == FreeBlock(FreeAll(d, []), ids[0]);
  }

  lemma BeginKeeps(i: nat, data: seq<byte>, g: Garbage, d: Image)
    requires i < INODE_NUM
    ensures Keeps(i, WBegin(data, g), d)
  {
    if |data| <= MAX_BYTES && GetInode(d, i) != None {
      var x := GetInode(d, i).value;
      WriteFromIsRest(StartWrite(d, x, g), data, ToInt(x.size), 0, g);
      assert x.blocks[0..NDIRECT] == x.blocks[..NDIRECT];
    }
  }

  /** A task and the access that follows it, each with its denotation written out. */
  lemma KeptBy(i: nat, t: Task, d: Image, t': Task, d': Image, e: Image, r: Reply)
    requires i < INODE_NUM && ValidTask(t) && ValidTask(t')
    requires Access(i, t, d) == (t', d') && Denotation(i, t, d) == (e, r) && Denotation(i, t', d') == (e, r)
    ensures Keeps(i, t, d)
  {
  }

  lemma FreeingMoves(i: nat, j: Request, k: nat, d: Image)
    requires i < INODE_NUM && ValidTask(WFreeing(j, k)) && k < NDIRECT
    ensures Access(i, WFreeing(j, k), d) == (WFreeing(j, k + 1), FreeBlock(d, j.x.blocks[k]))
  {
  }

  lemma FreeingMeans(i: nat, j: Request, k: nat, d: Image, ids: seq<u32>, d': Image)
    requires i < INODE_NUM && ValidTask(WFreeing(j, k)) && ids == j.x.blocks[k..NDIRECT] && d' == FreeAll(d, ids)
    ensures Denotation(i, WFreeing(j, k), d) == (Continue(i, j, Cursor(d', j.x.blocks, j.g.final), 0), Nothing)
  {
  }

  lemma FreeingKeeps(i: nat, j: Request, k: nat, d: Image)
    requires i < INODE_NUM && ValidTask(WFreeing(j, k))
    ensures Keeps(i, WFreeing(j, k), d)
  {
    var ids := j.x.blocks[k..NDIRECT];
    var d' := FreeAll(d, ids);
    FreeingMeans(i, j, k, d, ids, d');
    var (e, r) := Denotation(i, WFreeing(j, k), d);
    if k < NDIRECT {
      var d1 := FreeBlock(d, j.x.blocks[k]);
      FreeFirst(d, ids);
      assert ids[1..] == j.x.blocks[k + 1..NDIRECT];
      FreeingMoves(i, j, k, d);
      FreeingMeans(i, j, k + 1, d1, ids[1..], d');
      KeptBy(i, WFreeing(j, k), d, WFreeing(j, k + 1), d1, e, r);
    } else {
      assert ids == [];
    }
  }

  lemma StepPlaces(j: Request, v: Locals, k: nat, d: Image)
    requires ValidTask(WIter(j, v, k)) && k < BlocksFor(|j.data|) && AllocatesData(|j.data|, ToInt(j.x.size), k)
    ensures ValidTask(WPlace(j, v, k, AllocBlock(d).1))
    ensures WriteStep(Cursor(d, v.blocks, v.final), j.data, ToInt(j.x.size), k, j.g) ==
            PlacedCursor(j, v, k, AllocBlock(d).1, AllocBlock(d).0)
  {
  }

  lemma StepSecond(j: Request, v: Locals, k: nat, d: Image)
    requires ValidTask(WIter(j, v, k)) && k < BlocksFor(|j.data|) && AllocatesIndirect(|j.data|, ToInt(j.x.size), k)
    ensures WriteStep(Cursor(d, v.blocks, v.final), j.data, ToInt(j.x.size), k, j.g) ==
            StepGrow(Cursor(AllocBlock(d).0, v.blocks[NDIRECT := AllocBlock(d).1], v.final), k,
                     Chunk(j.data, k, j.g.fill(k)))
  {
  }

  lemma StepReplaces(j: Request, v: Locals, k: nat, d: Image)
    requires ValidTask(WIter(j, v, k)) && k < BlocksFor(|j.data|)
    requires !AllocatesData(|j.data|, ToInt(j.x.size), k) && !AllocatesIndirect(|j.data|, ToInt(j.x.size), k)
    ensures k >= NDIRECT
    ensures var id := Word(Fetch(d, v.blocks[NDIRECT], j.g.unread(k)), k - NDIRECT);
            WriteStep(Cursor(d, v.blocks, v.final), j.data, ToInt(j.x.size), k, j.g) == PlacedCursor(j, v, k, id, d)
  {
  }

  lemma ContinueStep(i: nat, j: Request, c: Cursor, c': Cursor, k: nat)
    requires i < INODE_NUM && ValidRequest(j) && ValidCursor(c) && k < BlocksFor(|j.data|)
    requires c' == WriteStep(c, j.data, ToInt(j.x.size), k, j.g)
    ensures Continue(i, j, c, k) == Continue(i, j, c', k + 1)
  {
  }

  lemma IterKeepsPlace(i: nat, j: Request, v: Locals, k: nat, d: Image, d': Image, id: u32)
    requires i < INODE_NUM && ValidTask(WIter(j, v, k)) && k < BlocksFor(|j.data|) && ValidTask(WPlace(j, v, k, id))
    requires Access(i, WIter(j, v, k), d) == (WPlace(j, v, k, id), d')
    requires PlacedCursor(j, v, k, id, d') == WriteStep(Cursor(d, v.blocks, v.final), j.data, ToInt(j.x.size), k, j.g)
    ensures Keeps(i, WIter(j, v, k), d)
  {
    ContinueStep(i, j, Cursor(d, v.blocks, v.final), PlacedCursor(j, v, k, id, d'), k);
    var e := Continue(i, j, Cursor(d, v.blocks, v.final), k);
    IterMeans(i, j, v, k, d);
    PlaceMeans(i, j, v, k, id, d');
    KeptBy(i, WIter(j, v, k), d, WPlace(j, v, k, id), d', e, Nothing);
  }

  lemma IterMeans(i: nat, j: Request, v: Locals, k: nat, d: Image)
    requires i < INODE_NUM && ValidTask(WIter(j, v, k))
    ensures Denotation(i, WIter(j, v, k), d) == (Continue(i, j, Cursor(d, v.blocks, v.final), k), Nothing)
  {
  }

  lemma PlaceMeans(i: nat, j: Request, v: Locals, k: nat, id: u32, d: Image)
    requires i < INODE_NUM && ValidTask(WPlace(j, v, k, id))
    ensures Denotation(i, WPlace(j, v, k, id), d) == (Continue(i, j, PlacedCursor(j, v, k, id, d), k + 1), Nothing)
  {
  }

  lemma IterKeepsSecond(i: nat, j: Request, v: Locals, k: nat, d: Image, d': Image, v': Locals)
    requires i < INODE_NUM && ValidTask(WIter(j, v, k)) && k < BlocksFor(|j.data|) && ValidTask(WSecond(j, v', k))
    requires Access(i, WIter(j, v, k), d) == (WSecond(j, v', k), d')
    requires StepGrow(Cursor(d', v'.blocks, v'.final), k, Chunk(j.data, k, j.g.fill(k))) ==
             WriteStep(Cursor(d, v.blocks, v.final), j.data, ToInt(j.x.size), k, j.g)
    ensures Keeps(i, WIter(j, v, k), d)
  {
    ContinueStep(i, j, Cursor(d, v.blocks, v.final),
                 StepGrow(Cursor(d', v'.blocks, v'.final), k, Chunk(j.data, k, j.g.fill(k))), k);
  }

  /** What the first access of iteration k is. */
  lemma IterAccessIs(i: nat, j: Request, v: Locals, k: nat, d: Image)
    requires i < INODE_NUM && ValidTask(WIter(j, v, k)) && k < BlocksFor(|j.data|)
    ensures var s, o := |j.data|, ToInt(j.x.size);
            && (AllocatesData(s, o, k) ==>
                  Access(i, WIter(j, v, k), d) == (WPlace(j, v, k, AllocBlock(d).1), AllocBlock(d).0))
            && (AllocatesIndirect(s, o, k) ==>
                  Access(i, WIter(j, v, k), d) ==
                  (WSecond(j, v.(blocks := v.blocks[NDIRECT := AllocBlock(d).1]), k), AllocBlock(d).0))
            && (!AllocatesData(s, o, k) && !AllocatesIndirect(s, o, k) ==>
                  && k >= NDIRECT
                  && Access(i, WIter(j, v, k), d) ==
                     (WPlace(j, v, k, Word(Fetch(d, v.blocks[NDIRECT], j.g.unread(k)), k - NDIRECT)), d))
  {
  }

  lemma IterKeeps(i: nat, j: Request, v: Locals, k: nat, d: Image)
    requires i < INODE_NUM && ValidTask(WIter(j, v, k)) && k < BlocksFor(|j.data|)
    ensures Keeps(i, WIter(j, v, k), d)
  {
    var s, o := |j.data|, ToInt(j.x.size);
    IterAccessIs(i, j, v, k, d);
    if AllocatesData(s, o, k) {
      StepPlaces(j, v, k, d);
      IterKeepsPlace(i, j, v, k, d, AllocBlock(d).0, AllocBlock(d).1);
    } else if AllocatesIndirect(s, o, k) {
      StepSecond(j, v, k, d);
      IterKeepsSecond(i, j, v, k, d, AllocBlock(d).0, v.(blocks := v.blocks[NDIRECT := AllocBlock(d).1]));
    } else {
      StepReplaces(j, v, k, d);
      IterKeepsPlace(i, j, v, k, d, d, Word(Fetch(d, v.blocks[NDIRECT], j.g.unread(k)), k - NDIRECT));
    }
  }

  lemma IterEndKeeps(i: nat, j: Request, v: Locals, d: Image)
    requires i < INODE_NUM && ValidTask(WIter(j, v, BlocksFor(|j.data|)))
    ensures Keeps(i, WIter(j, v, BlocksFor(|j.data|)), d)
  {
    var c := Cursor(d, v.blocks, v.final);
    assert WriteFrom(c, j.data, ToInt(j.x.size), BlocksFor(|j.data|), j.g) == c;
  }

  lemma GrowPlaces(j: Request, v: Locals, k: nat, d: Image)
    requires ValidTask(WSecond(j, v, k))
    ensures StepGrow(Cursor(d, v.blocks, v.final), k, Chunk(j.data, k, j.g.fill(k))) ==
            PlacedCursor(j, v, k, AllocBlock(d).1, AllocBlock(d).0)
  {
  }

  lemma SecondKeeps(i: nat, j: Request, v: Locals, k: nat, d: Image)
    requires i < INODE_NUM && ValidTask(WSecond(j, v, k))
    ensures Keeps(i, WSecond(j, v, k), d)
  {
    GrowPlaces(j, v, k, d);
  }

  lemma TailKeeps(i: nat, j: Request, v: Locals, ids: seq<u32>, d: Image)
    requires i < INODE_NUM && ValidTask(WTail(j, v, ids))
    ensures Keeps(i, WTail(j, v, ids), d)
  {
    if ids != [] {
      FreeFirst(d, ids);
    }
  }

  lemma ReadBeginMoves(i: nat, now: u32, g: Garbage, d: Image, x: Inode)
    requires i < INODE_NUM && GetInode(d, i) == Some(x)
    ensures Access(i, RBegin(now, g), d) == (RPut(x.(atime := now), g), d)
  {
  }

  lemma ReadBeginMeans(i: nat, now: u32, g: Garbage, d: Image, d': Image, r: ReadResult)
    requires i < INODE_NUM && ReadFile(d, i, now, g) == (d', r)
    ensures Denotation(i, RBegin(now, g), d) == (d', Answer(r))
  {
  }

  lemma ReadPutMeans(i: nat, x: Inode, g: Garbage, d: Image, d': Image)
    requires i < INODE_NUM && d' == PutInode(d, i, x)
    ensures Denotation(i, RPut(x, g), d) == ReadRest(x, g, d')
  {
  }

  lemma ReadBeginKeeps(i: nat, now: u32, g: Garbage, d: Image)
    requires i < INODE_NUM
    ensures Keeps(i, RBegin(now, g), d)
  {
    if GetInode(d, i) != None {
      var x0 := GetInode(d, i).value;
      var x := x0.(atime := now);
      var d' := PutInode(d, i, x);
      var (e, r) := ReadRest(x, g, d');
      ReadIsRest(i, x, now, g, d, d');
      ReadBeginMoves(i, now, g, d, x0);
      ReadBeginMeans(i, now, g, d, e, r.r);
      ReadPutMeans(i, x, g, d, d');
      KeptBy(i, RBegin(now, g), d, RPut(x, g), d, e, r);
    }
  }

  lemma ReadIsRest(i: nat, x: Inode, now: u32, g: Garbage, d: Image, d': Image)
    requires i < INODE_NUM && GetInode(d, i) != None && x == GetInode(d, i).value.(atime := now)
    requires d' == PutInode(d, i, x)
    ensures var r := ReadRest(x, g, d'); r.1.Answer? && ReadFile(d, i, now, g) == (r.0, r.1.r)
  {
    var ind := Fetch(d', x.blocks[NDIRECT], g.unread(0));
    ReadFromIsRest(d', x, ind, 0, g);
    assert ReadUpTo(d', x, ind, 0, g) == [];
    NoPrefix(ReadFrom(d', x, ind, 0, g));
  }

  lemma NoPrefix(s: seq<byte>)
    ensures [] + s == s
  {
  }

  lemma ReadLoopKeeps(i: nat, x: Inode, g: Garbage, ind: Block, k: nat, bytes: seq<byte>, d: Image)
    requires i < INODE_NUM && k <= BlocksFor(ToInt(x.size))
    ensures Keeps(i, RLoop(x, g, ind, k, bytes), d)
  {
    if k < BlocksFor(ToInt(x.size)) {
      CopyKeeps(i, x, g, ind, k, bytes, d);
    } else {
      assert bytes + [] == bytes;
    }
  }

  lemma CopyMeans(i: nat, x: Inode, g: Garbage, ind: Block, k: nat, bytes: seq<byte>, d: Image, all: seq<byte>)
    requires i < INODE_NUM && k <= BlocksFor(ToInt(x.size)) && all == bytes + ReadFrom(d, x, ind, k, g)
    ensures Denotation(i, RLoop(x, g, ind, k, bytes), d) == (d, Answer(Contents(ToInt(x.size), all)))
  {
  }

  lemma CopyKeeps(i: nat, x: Inode, g: Garbage, ind: Block, k: nat, bytes: seq<byte>, d: Image)
    requires i < INODE_NUM && k < BlocksFor(ToInt(x.size))
    ensures Keeps(i, RLoop(x, g, ind, k, bytes), d)
  {
    var b, rest := ReadStep(d, x, ind, k, g), ReadFrom(d, x, ind, k + 1, g);
    assert ReadFrom(d, x, ind, k, g) == b + rest;
    assert bytes + (b + rest) == bytes + b + rest;
    CopyMeans(i, x, g, ind, k, bytes, d, bytes + b + rest);
    CopyMeans(i, x, g, ind, k + 1, bytes + b, d, bytes + b + rest);
    KeptBy(i, RLoop(x, g, ind, k, bytes), d, RLoop(x, g, ind, k + 1, bytes + b), d,
           d, Answer(Contents(ToInt(x.size), bytes + b + rest)));
  }

  lemma PlaceKeeps(i: nat, j: Request, v: Locals, k: nat, id: u32, d: Image)
    requires i < INODE_NUM && ValidTask(WPlace(j, v, k, id))
    ensures Keeps(i, WPlace(j, v, k, id), d)
  {
  }

  lemma FlushKeeps(i: nat, j: Request, v: Locals, d: Image)
    requires i < INODE_NUM && ValidTask(WFlush(j, v))
    ensures Keeps(i, WFlush(j, v), d) && Keeps(i, WDrop(j, v), d)
  {
  }

  lemma PutKeeps(i: nat, x: Inode, d: Image)
    requires i < INODE_NUM
    ensures Keeps(i, WPut(x), d)
  {
    assert StoreRecord(d, i, x, d[InodeBlock(i)]) == PutInode(d, i, x);
  }

  lemma PutStoreKeeps(i: nat, x: Inode, buf: Block, d: Image)
    requires i < INODE_NUM
    ensures Keeps(i, WPutStore(x, buf), d)
  {
  }

  lemma ReadPutKeeps(i: nat, x: Inode, g: Garbage, d: Image)
    requires i < INODE_NUM
    ensures Keeps(i, RPut(x, g), d)
  {
    ReadPutMeans(i, x, g, d, PutInode(d, i, x));
    var (e, r) := ReadRest(x, g, PutInode(d, i, x));
    KeptBy(i, RPut(x, g), d, RPutStore(x, g, d[InodeBlock(i)]), d, e, r);
  }

  lemma ReadPutStoreKeeps(i: nat, x: Inode, g: Garbage, buf: Block, d: Image)
    requires i < INODE_NUM
    ensures Keeps(i, RPutStore(x, g, buf), d)
  {
  }

  lemma IndirectKeeps(i: nat, x: Inode, g: Garbage, d: Image)
    requires i < INODE_NUM
    ensures Keeps(i, RIndirect(x, g), d)
  {
    NoPrefix(ReadFrom(d, x, Fetch(d, x.blocks[NDIRECT], g.unread(0)), 0, g));
  }

  lemma WriteAccessKeeps(i: nat, t: Task, d: Image)
    requires i < INODE_NUM && ValidTask(t) && (t.WFreeing? || t.WIter? || t.WSecond? || t.WPlace?)
    ensures Keeps(i, t, d)
  {
    match t
    case WFreeing(j, k) => FreeingKeeps(i, j, k, d);
    case WIter(j, v, k) =>
      if k < BlocksFor(|j.data|) {
        IterKeeps(i, j, v, k, d);
      } else {
        IterEndKeeps(i, j, v, d);
      }
    case WSecond(j, v, k) => SecondKeeps(i, j, v, k, d);
    case WPlace(j, v, k, id) => PlaceKeeps(i, j, v, k, id, d);
  }

  /** Each single access, of a read or a write, leaves unchanged what the operation will end up doing. */
  lemma AccessKeepsDenotation(i: nat, t: Task, d: Image)
    requires i < INODE_NUM && ValidTask(t)
    ensures Keeps(i, t, d)
  {
    match t
    case WBegin(data, g) => BeginKeeps(i, data, g, d);
    case WFreeing(_, _) => WriteAccessKeeps(i, t, d);
    case WIter(_, _, _) => WriteAccessKeeps(i, t, d);
    case WSecond(_, _, _) => WriteAccessKeeps(i, t, d);
    case WPlace(_, _, _, _) => WriteAccessKeeps(i, t, d);
    case WTail(j, v, ids) => TailKeeps(i, j, v, ids, d);
    case WFlush(j, v) => FlushKeeps(i, j, v, d);
    case WDrop(j, v) => FlushKeeps(i, j, v, d);
    case WPut(x) => PutKeeps(i, x, d);
    case WPutStore(x, buf) => PutStoreKeeps(i, x, buf, d);
    case RBegin(now, g) => ReadBeginKeeps(i, now, g, d);
    case RPut(x, g) => ReadPutKeeps(i, x, g, d);
    case RPutStore(x, g, buf) => ReadPutStoreKeeps(i, x, g, buf, d);
    case RIndirect(x, g) => IndirectKeeps(i, x, g, d);
    case RLoop(x, g, ind, k, bytes) => ReadLoopKeeps(i, x, g, ind, k, bytes, d);
    case Finished(_) =>
  }

  // ---- every call completes -------------------------------------------------------------------------------

  /** How far a task is from its end, in phases ... */
  function Phase(t: Task): nat {
    match t
    case WBegin(_, _) => 8
    case WFreeing(_, _) => 7
    case WIter(_, _, _) => 6
    case WSecond(_, _, _) => 6
    case WPlace(_, _, _, _) => 6
    case WTail(_, _, _) => 5
    case WFlush(_, _) => 4
    case WDrop(_, _) => 3
    case WPut(_) => 2
    case WPutStore(_, _) => 1
    case RBegin(_, _) => 5
    case RPut(_, _) => 4
    case RPutStore(_, _, _) => 3
    case RIndirect(_, _) => 2
    case RLoop(_, _, _, _, _) => 1
    case Finished(_) => 0
  }

  /** ... and in accesses within its phase. */
  function AccessesLeft(t: Task): nat
    requires ValidTask(t)
  {
    match t
    case WFreeing(_, k) => NDIRECT - k
    case WIter(j, _, k) => 3 * (BlocksFor(|j.data|) - k)
    case WSecond(j, _, k) => 3 * (BlocksFor(|j.data|) - k) - 1
    case WPlace(j, _, k, _) => 3 * (BlocksFor(|j.data|) - k) - 2
    case WTail(_, _, ids) => |ids|
    case RLoop(x, _, _, k, _) => BlocksFor(ToInt(x.size)) - k
    case _ => 0
  }

  predicate Nearer(t': Task, t: Task)
    requires ValidTask(t') && ValidTask(t)
  {
    Phase(t') < Phase(t) || (Phase(t') == Phase(t) && AccessesLeft(t') < AccessesLeft(t))
  }

  lemma IterNearer(i: nat, j: Request, v: Locals, k: nat, d: Image)
    requires i < INODE_NUM && ValidTask(WIter(j, v, k))
    ensures Nearer(Access(i, WIter(j, v, k), d).0, WIter(j, v, k))
  {
    if k < BlocksFor(|j.data|) {
      IterAccessIs(i, j, v, k, d);
    }
  }

  /** Every access brings an unfinished call nearer to its end. */
  lemma AccessNearer(i: nat, t: Task, d: Image)
    requires i < INODE_NUM && ValidTask(t) && !t.Finished?
    ensures Nearer(Access(i, t, d).0, t)
  {
    if t.WIter? {
      IterNearer(i, t.j, t.v, t.k, d);
    }
  }

  /** A task run to its end by its thread alone: the disk it leaves and its reply. */
  ghost function RunAlone(i: nat, t: Task, d: Image): (Image, Reply)
    requires i < INODE_NUM && ValidTask(t)
    decreases Phase(t), AccessesLeft(t)
  {
    if t.Finished? then (d, t.reply)
    else
      AccessNearer(i, t, d);
      RunAlone(i, Access(i, t, d).0, Access(i, t, d).1)
  }

  /** The cut loses nothing: access by access, a call ends, on the disk and with the reply of the whole operation. */
  lemma {:induction false} AloneIsDenotation(i: nat, t: Task, d: Image)
    requires i < INODE_NUM && ValidTask(t)
    ensures RunAlone(i, t, d) == Denotation(i, t, d)
    decreases Phase(t), AccessesLeft(t)
  {
    if !t.Finished? {
      AccessNearer(i, t, d);
      AccessKeepsDenotation(i, t, d);
      AloneIsDenotation(i, Access(i, t, d).0, Access(i, t, d).1);
    }
  }
}
