/**
 * Concurrent calls complete: in every state of every run, a call that can have the lock, and the blocks it may
 * need, is carried out to its reply by steps of its own thread alone, whatever the other inodes are in the middle
 * of.
 */
module Completion {
  import opened Layout
  import opened DiskImage
  import opened Bitmap
  import opened InodeTable
  import opened FileOps
  import opened Ownership
  import opened WriteLoop
  import opened WriteProof
  import opened Refinement
  import opened Accesses
  import opened Sharing
  import opened Interleaving
  import opened Concurrency
  import RwLock

  // ---- how many blocks a call may still allocate ----------------------------------------------------------

  /** One per data block still to be placed, and one for the indirect block. */
  function AllocsLeft(t: Task): nat
    requires ValidTask(t)
  {
    match t
    case WBegin(data, _) => if |data| <= MAX_BYTES then BlocksFor(|data|) + 1 else 0
    case WFreeing(j, _) => BlocksFor(|j.data|) + 1
    case WIter(j, _, k) => BlocksFor(|j.data|) - k + if k <= NDIRECT then 1 else 0
    case WSecond(j, _, k) => BlocksFor(|j.data|) - k
    case WPlace(j, _, k, _) => BlocksFor(|j.data|) - k - 1 + if k < NDIRECT then 1 else 0
    case _ => 0
  }

  /** Whether the next access allocates, as a number. */
  function AllocsNow(t: Task): nat {
    if Allocating(t) then 1 else 0
  }

  lemma IterAllocs(i: nat, j: Request, v: Locals, k: nat, d: Image)
    requires i < INODE_NUM && ValidTask(WIter(j, v, k))
    ensures AllocsLeft(Access(i, WIter(j, v, k), d).0) + AllocsNow(WIter(j, v, k)) <= AllocsLeft(WIter(j, v, k))
  {
    if k < BlocksFor(|j.data|) {
      IterAccessIs(i, j, v, k, d);
    }
  }

  lemma AllocsDrop(i: nat, t: Task, d: Image)
    requires i < INODE_NUM && ValidTask(t)
    ensures AllocsLeft(Access(i, t, d).0) + AllocsNow(t) <= AllocsLeft(t)
  {
    if t.WIter? {
      IterAllocs(i, t.j, t.v, t.k, d);
    }
  }

  // ---- how many blocks are allocated ----------------------------------------------------------------------

  lemma FreeUses(d: Image, id: u32)
    ensures |Used(FreeBlock(d, id))| <= |Used(d)|
  {
    UsedShrinks(d, id);
    SubsetSize(Used(FreeBlock(d, id)), Used(d));
  }

  lemma RecordUses(d: Image, i: nat, x: Inode, buf: Block)
    requires i < INODE_NUM
    ensures Used(StoreRecord(d, i, x, buf)) == Used(d)
  {
    RegionsDisjoint(0, i);
    SameBitmapSameUsed(d, StoreRecord(d, i, x, buf));
  }

  /** The block that is about to be filled belongs to the data area. */
  lemma PlacedInData(d: Image, own: Owners, i: nat, j: Request, v: Locals, k: nat, id: u32)
    requires Placing(d, own, i, j, v, k, id)
    ensures FIRST_DATA <= id
  {
    if NDIRECT <= k < BlocksFor(j.x.size) {
      var w :| IsWork(w, i, j) && LoopInv(At(d, v), own, k, w);
      var id' := ReusedId(At(d, v), own, k, w);
    }
  }

  lemma FlushedInData(d: Image, own: Owners, i: nat, j: Request, v: Locals)
    requires Settling(d, own, i, j, v) && BlocksFor(|j.data|) > NDIRECT
    ensures FIRST_DATA <= v.blocks[NDIRECT]
  {
    var w :| IsWork(w, i, j) && InPlace(d, own, At(d, v), w);
    var f := FinalSlots(At(d, v), w.NewBlocks());
    assert HoldsSlot(0, w.NewBlocks(), INDIRECT_SLOT) && INDIRECT_SLOT in f && f[INDIRECT_SLOT] == v.blocks[NDIRECT];
  }

  lemma PlaceUses(i: nat, j: Request, v: Locals, k: nat, id: u32, op: Op, f: Files.File, d: Image, own: Owners)
    requires i < INODE_NUM && IsCall(op) && ValidTask(WPlace(j, v, k, id))
    requires TaskOk(i, WPlace(j, v, k, id), op, f, d, own)
    ensures Used(Access(i, WPlace(j, v, k, id), d).1) == Used(d)
  {
    PlacedInData(d, own, i, j, v, k, id);
    StoreKeepsMetadata(d, id, Chunk(j.data, k, j.g.fill(k)));
  }

  lemma FlushUses(i: nat, j: Request, v: Locals, op: Op, f: Files.File, d: Image, own: Owners)
    requires i < INODE_NUM && IsCall(op) && ValidTask(WFlush(j, v)) && TaskOk(i, WFlush(j, v), op, f, d, own)
    ensures Used(Access(i, WFlush(j, v), d).1) == Used(d)
  {
    if Wrote(j) {
      FlushedInData(d, own, i, j, v);
      StoreKeepsMetadata(d, v.blocks[NDIRECT], v.final);
    }
  }

  lemma IterUses(i: nat, j: Request, v: Locals, k: nat, d: Image)
    requires i < INODE_NUM && ValidTask(WIter(j, v, k))
    ensures |Used(Access(i, WIter(j, v, k), d).1)| <= |Used(d)| + AllocsNow(WIter(j, v, k))
  {
    if k < BlocksFor(|j.data|) {
      IterAccessIs(i, j, v, k, d);
      AllocAny(d);
    }
  }

  /** Accesses that free a block, or store a record. */
  lemma PlainUses(i: nat, t: Task, d: Image)
    requires i < INODE_NUM && ValidTask(t) && !t.WIter? && !t.WPlace? && !t.WFlush?
    ensures |Used(Access(i, t, d).1)| <= |Used(d)| + AllocsNow(t)
  {
    match t
    case WFreeing(j, k) => if k < NDIRECT { FreeUses(d, j.x.blocks[k]); }
    case WSecond(j, v, k) => AllocAny(d);
    case WTail(j, v, ids) => if ids != [] { FreeUses(d, ids[0]); }
    case WDrop(j, v) => FreeUses(d, v.blocks[NDIRECT]);
    case WPutStore(x, buf) => RecordUses(d, i, x, buf);
    case RPutStore(x, g, buf) => RecordUses(d, i, x, buf);
    case _ =>
  }

  /** An access allocates at most one block, and only where alloc_block is called. */
  lemma AccessUses(i: nat, t: Task, op: Op, f: Files.File, d: Image, own: Owners)
    requires i < INODE_NUM && IsCall(op) && ValidTask(t) && TaskOk(i, t, op, f, d, own)
    ensures |Used(Access(i, t, d).1)| <= |Used(d)| + AllocsNow(t)
  {
    if t.WIter? {
      IterUses(i, t.j, t.v, t.k, d);
    } else if t.WPlace? {
      PlaceUses(i, t.j, t.v, t.k, t.id, op, f, d, own);
    } else if t.WFlush? {
      FlushUses(i, t.j, t.v, op, f, d, own);
    } else {
      PlainUses(i, t, d);
    }
  }

  // ---- steps of one thread at one inode -------------------------------------------------------------------

  type Thread = nat

  ghost predicate StepsTo(s: System, s': System, i: nat, t: Thread) {
    Shape(s) && i < INODE_NUM && t < |s.lock[i].pc| && exists l' :: Step(s, s', i, t, l')
  }

  ghost predicate Solo(states: seq<System>, i: nat, t: Thread) {
    states != [] && forall n :: 0 <= n < |states| - 1 ==> StepsTo(states[n], states[n + 1], i, t)
  }

  /** Steps of thread t at inode i alone lead from s to s'. */
  ghost predicate LeadsAlone(s: System, s': System, i: nat, t: Thread) {
    exists states :: Solo(states, i, t) && states[0] == s && states[|states| - 1] == s'
  }

  lemma AloneSelf(s: System, i: nat, t: Thread)
    ensures LeadsAlone(s, s, i, t)
  {
    assert Solo([s], i, t);
  }

  lemma AloneOn(o: System, s: System, s': System, i: nat, t: Thread)
    requires LeadsAlone(o, s, i, t) && StepsTo(s, s', i, t)
    ensures LeadsAlone(o, s', i, t)
  {
    var states :| Solo(states, i, t) && states[0] == o && states[|states| - 1] == s;
    SoloOn(states, s', i, t);
    assert Solo(states + [s'], i, t);
  }

  lemma SoloOn(states: seq<System>, s': System, i: nat, t: Thread)
    requires Solo(states, i, t) && StepsTo(states[|states| - 1], s', i, t)
    ensures Solo(states + [s'], i, t)
  {
    var more := states + [s'];
    forall n | 0 <= n < |more| - 1
      ensures StepsTo(more[n], more[n + 1], i, t)
    {
      assert more[n] == states[n];
      if n + 1 < |states| {
        assert more[n + 1] == states[n + 1];
      }
    }
  }

  lemma AloneKeepsInv(s: System, s': System, i: nat, t: Thread, called: set<nat>, d0: Image)
    requires LeadsAlone(s, s', i, t) && Concurrency.Inv(s, called, d0) && Spread(called, d0) && i in called
    ensures Concurrency.Inv(s', called, d0)
  {
    var states :| Solo(states, i, t) && states[0] == s && states[|states| - 1] == s';
    SoloKeepsInv(states, i, t, called, d0, |states| - 1);
  }

  lemma {:induction false} SoloKeepsInv(states: seq<System>, i: nat, t: Thread, called: set<nat>, d0: Image, n: nat)
    requires Solo(states, i, t) && n < |states|
    requires Concurrency.Inv(states[0], called, d0) && Spread(called, d0) && i in called
    ensures Concurrency.Inv(states[n], called, d0)
    decreases n
  {
    if n > 0 {
      SoloKeepsInv(states, i, t, called, d0, n - 1);
      assert StepsTo(states[n - 1], states[n - 1 + 1], i, t);
      OneKeepsInv(states[n - 1], states[n], i, t, called, d0);
    }
  }

  lemma OneKeepsInv(s: System, s': System, i: nat, t: Thread, called: set<nat>, d0: Image)
    requires StepsTo(s, s', i, t) && Concurrency.Inv(s, called, d0) && Spread(called, d0) && i in called
    ensures Concurrency.Inv(s', called, d0)
  {
    var l' :| Step(s, s', i, t, l');
    StepKeepsInv(s, s', i, t, l', called, d0);
  }

  // ---- the lock -------------------------------------------------------------------------------------------

  function WithLock(s: System, i: nat, l: RwLock.State): System
    requires i < |s.lock|
  {
    s.(lock := s.lock[i := l])
  }

  /** A statement of the lock outside the critical section. */
  lemma LockMoves(s: System, i: nat, t: Thread, l: RwLock.State, l': RwLock.State)
    requires Shape(s) && i < INODE_NUM && t < |l.pc| && |l'.pc| == |l.pc| && RwLock.Step(l, l', t)
    requires !RwLock.Inside(l.pc[t]) && !RwLock.Inside(l'.pc[t])
    ensures StepsTo(WithLock(s, i, l), WithLock(s, i, l'), i, t)
  {
    var s1, s2 := WithLock(s, i, l), WithLock(s, i, l');
    assert s.lock[i := l][i := l'] == s.lock[i := l'];
    assert Step(s1, s2, i, t, l');
  }

  lemma {:induction false} LockPath(o: System, s: System, ls: seq<RwLock.State>, i: nat, t: Thread, n: nat)
    requires Shape(s) && i < INODE_NUM && n < |ls| && LeadsAlone(o, WithLock(s, i, ls[0]), i, t)
    requires RwLock.Solo(ls, t) && RwLock.Outside(ls, t) && forall k :: 0 <= k < |ls| ==> |ls[k].pc| == |ls[0].pc|
    ensures LeadsAlone(o, WithLock(s, i, ls[n]), i, t)
    decreases n
  {
    if n > 0 {
      var m := n - 1;
      LockPath(o, s, ls, i, t, m);
      assert RwLock.Step(ls[m], ls[m + 1], t) && !RwLock.Inside(ls[m].pc[t]) && !RwLock.Inside(ls[m + 1].pc[t]);
      LockMoves(s, i, t, ls[m], ls[n]);
      AloneOn(o, WithLock(s, i, ls[m]), WithLock(s, i, ls[n]), i, t);
    }
  }

  /** The call op has entered. */
  function Entered(s: System, i: nat, l: RwLock.State, op: Op): System
    requires i < |s.lock| && i < |s.work| && IsCall(op)
  {
    s.(lock := s.lock[i := l], work := s.work[i := Active(op, Begin(op))])
  }

  lemma EnterMoves(s: System, i: nat, t: Thread, l: RwLock.State, l': RwLock.State, op: Op)
    requires Shape(s) && i < INODE_NUM && t < |l.pc| && |l'.pc| == |l.pc| && RwLock.Step(l, l', t)
    requires !RwLock.Inside(l.pc[t]) && l'.pc[t] == if op.Read? then RwLock.RInside else RwLock.WInside
    requires Atomicity.CallOn(op, i) && (InodeAt(s.d, i).typ != 0 ==> Fitting(InodeAt(s.d, i).size, op))
    ensures StepsTo(WithLock(s, i, l), Entered(s, i, l', op), i, t)
  {
    var s1, s2 := WithLock(s, i, l), Entered(s, i, l', op);
    assert s.lock[i := l][i := l'] == s.lock[i := l'];
    assert EnterStep(s1, s2, i, l', t);
    assert Step(s1, s2, i, t, l');
  }

  /** The thread enters for the call op. */
  lemma EnterAlone(s: System, i: nat, t: Thread, op: Op) returns (l': RwLock.State)
    requires Shape(s) && i < INODE_NUM && RwLock.Inv(s.lock[i]) && s.lock[i].mutex == RwLock.Nobody
    requires t < |s.lock[i].pc| && s.lock[i].pc[t] == RwLock.Idle
    requires Atomicity.CallOn(op, i) && (InodeAt(s.d, i).typ != 0 ==> Fitting(InodeAt(s.d, i).size, op))
    ensures l'.pc == s.lock[i].pc[t := if op.Read? then RwLock.RInside else RwLock.WInside]
    ensures LeadsAlone(s, Entered(s, i, l', op), i, t)
  {
    Atomicity.FreeLockQuiet(s.lock[i]);
    var ls := RwLock.Enter(s.lock[i], t, op.Read?);
    var n := |ls| - 1;
    Atomicity.ThreadsKept(ls, t);
    Approach(s, ls, i, t, n);
    l' := ls[n];
    LastMoves(s, ls, i, t, op, n);
    AloneOn(s, WithLock(s, i, ls[n - 1]), Entered(s, i, l', op), i, t);
  }

  lemma Approach(s: System, ls: seq<RwLock.State>, i: nat, t: Thread, n: nat)
    requires Shape(s) && i < INODE_NUM && RwLock.Solo(ls, t) && ls[0] == s.lock[i] && |ls| == n + 1 && n > 0
    requires RwLock.Outside(ls[..n], t) && forall k :: 0 <= k < |ls| ==> |ls[k].pc| == |ls[0].pc|
    ensures LeadsAlone(s, WithLock(s, i, ls[n - 1]), i, t)
  {
    Atomicity.SoloPrefix(ls, t, n);
    AloneSelf(s, i, t);
    assert s.lock[i := ls[0]] == s.lock;
    LockPath(s, s, ls[..n], i, t, n - 1);
  }

  lemma LastMoves(s: System, ls: seq<RwLock.State>, i: nat, t: Thread, op: Op, n: nat)
    requires Shape(s) && i < INODE_NUM && RwLock.Solo(ls, t) && |ls| == n + 1 && n > 0
    requires RwLock.Outside(ls[..n], t) && |ls[n].pc| == |ls[n - 1].pc| && t < |ls[n].pc|
    requires ls[n].pc[t] == if op.Read? then RwLock.RInside else RwLock.WInside
    requires Atomicity.CallOn(op, i) && (InodeAt(s.d, i).typ != 0 ==> Fitting(InodeAt(s.d, i).size, op))
    ensures StepsTo(WithLock(s, i, ls[n - 1]), Entered(s, i, ls[n], op), i, t)
  {
    assert RwLock.Step(ls[n - 1], ls[n - 1 + 1], t) && ls[..n][n - 1] == ls[n - 1];
    EnterMoves(s, i, t, ls[n - 1], ls[n], op);
  }

  // ---- the accesses ---------------------------------------------------------------------------------------

  /** The call on inode i is active, and the disk has the blocks that it may still need. */
  ghost predicate Supplied(s: System, i: nat) {
    && Shape(s) && i < INODE_NUM && s.work[i].Active?
    && |Used(s.d)| + AllocsLeft(s.work[i].task) <= DATA_BLOCKS
  }

  lemma StaysSupplied(s: System, i: nat, called: set<nat>, d0: Image)
    requires Concurrency.Inv(s, called, d0) && Supplied(s, i) && !s.work[i].task.Finished?
    ensures Room(s.work[i].task, s.d)
    ensures var (t', d') := Access(i, s.work[i].task, s.d); |Used(d')| + AllocsLeft(t') <= DATA_BLOCKS
  {
    var ow, m :| Told(d0, s.log, m) && World(s.d, ow, m, s.work);
    assert Fine(s.d, Mine(ow, i), m, i, s.work[i]);
    AllocsDrop(i, s.work[i].task, s.d);
    FineUses(s.d, Mine(ow, i), m, i, s.work[i]);
  }

  lemma FineUses(d: Image, own: Owners, m: Files.FileMap, i: nat, w: Work)
    requires i < INODE_NUM && w.Active? && Fine(d, own, m, i, w) && !w.task.Finished?
    ensures |Used(Access(i, w.task, d).1)| <= |Used(d)| + AllocsNow(w.task)
  {
    if i in m {
      AccessUses(i, w.task, w.op, m[i], d, own);
    } else {
      AbsentAccess(i, w.op, d);
    }
  }

  lemma AccessMoves(s: System, i: nat, t: Thread) returns (s': System)
    requires Supplied(s, i) && !s.work[i].task.Finished? && Room(s.work[i].task, s.d)
    requires t < |s.lock[i].pc| && RwLock.Inside(s.lock[i].pc[t])
    ensures StepsTo(s, s', i, t)
    ensures var (t', d') := Access(i, s.work[i].task, s.d);
            s' == s.(work := s.work[i := Active(s.work[i].op, t')], d := d')
  {
    var (t', d') := Access(i, s.work[i].task, s.d);
    s' := s.(work := s.work[i := Active(s.work[i].op, t')], d := d');
    assert AccessStep(s, s', i);
    assert Step(s, s', i, t, s.lock[i]);
  }

  /** The thread makes its accesses, one by one, to the end of the call. */
  lemma {:induction false} AccessAlone(o: System, s: System, i: nat, t: Thread, called: set<nat>, d0: Image)
    returns (s': System)
    requires LeadsAlone(o, s, i, t) && Supplied(s, i)
    requires Concurrency.Inv(s, called, d0) && Spread(called, d0) && i in called
    requires t < |s.lock[i].pc| && RwLock.Inside(s.lock[i].pc[t])
    ensures LeadsAlone(o, s', i, t) && |s'.work| == INODE_NUM && Concurrency.Inv(s', called, d0)
    ensures s' == s.(work := s.work[i := s'.work[i]], d := s'.d)
    ensures s'.work[i].Active? && s'.work[i].op == s.work[i].op && s'.work[i].task.Finished?
    decreases Phase(s.work[i].task), AccessesLeft(s.work[i].task)
  {
    if s.work[i].task.Finished? {
      s' := s;
      BackAtRest(s.work, i, s.work[i], s.work[i]);
    } else {
      var s1 := OneAccess(s, i, t, called, d0);
      AloneOn(o, s, s1, i, t);
      s' := AccessAlone(o, s1, i, t, called, d0);
      BackAtRest(s.work, i, s1.work[i], s'.work[i]);
    }
  }

  lemma OneAccess(s: System, i: nat, t: Thread, called: set<nat>, d0: Image) returns (s': System)
    requires Supplied(s, i) && !s.work[i].task.Finished?
    requires Concurrency.Inv(s, called, d0) && Spread(called, d0) && i in called
    requires t < |s.lock[i].pc| && RwLock.Inside(s.lock[i].pc[t])
    ensures StepsTo(s, s', i, t) && Concurrency.Inv(s', called, d0) && Supplied(s', i)
    ensures s' == s.(work := s.work[i := s'.work[i]], d := s'.d) && s'.work[i].op == s.work[i].op
    ensures Nearer(s'.work[i].task, s.work[i].task)
  {
    StaysSupplied(s, i, called, d0);
    s' := AccessMoves(s, i, t);
    OneKeepsInv(s, s', i, t, called, d0);
    AccessNearer(i, s.work[i].task, s.d);
  }

  // ---- leaving --------------------------------------------------------------------------------------------

  /** The call has left. */
  function LeftWith(s: System, i: nat, l: RwLock.State): System
    requires i < |s.lock| && i < |s.work| && s.work[i].Active? && s.work[i].task.Finished?
  {
    s.(lock := s.lock[i := l], work := s.work[i := Resting],
       log := s.log + [(s.work[i].op, s.work[i].task.reply)])
  }

  lemma LeaveMoves(s: System, i: nat, t: Thread, l': RwLock.State)
    requires Shape(s) && i < INODE_NUM && t < |s.lock[i].pc| && |l'.pc| == |s.lock[i].pc|
    requires RwLock.Step(s.lock[i], l', t) && RwLock.Inside(s.lock[i].pc[t])
    requires s.work[i].Active? && s.work[i].task.Finished?
    ensures StepsTo(s, LeftWith(s, i, l'), i, t)
  {
    assert LeaveStep(s, LeftWith(s, i, l'), i, l');
    assert Step(s, LeftWith(s, i, l'), i, t, l');
  }

  /** The thread leaves. */
  lemma LeaveAlone(o: System, s: System, i: nat, t: Thread) returns (l': RwLock.State)
    requires LeadsAlone(o, s, i, t) && Shape(s) && i < INODE_NUM && RwLock.Inv(s.lock[i]) && t < |s.lock[i].pc|
    requires RwLock.Inside(s.lock[i].pc[t]) && s.work[i].Active? && s.work[i].task.Finished?
    ensures LeadsAlone(o, LeftWith(s, i, l'), i, t)
    ensures l'.pc == s.lock[i].pc[t := RwLock.Idle] && l'.mutex == RwLock.Nobody
  {
    var ls := RwLock.Leave(s.lock[i], t);
    Atomicity.ThreadsKept(ls, t);
    LeaveFirst(o, s, ls, i, t);
    Atomicity.SoloSuffix(ls, t, 1);
    l' := ls[|ls| - 1];
    LeaveRest(o, s, ls, i, t);
  }

  lemma LeaveFirst(o: System, s: System, ls: seq<RwLock.State>, i: nat, t: Thread)
    requires LeadsAlone(o, s, i, t) && Shape(s) && i < INODE_NUM && t < |s.lock[i].pc|
    requires RwLock.Inside(s.lock[i].pc[t]) && s.work[i].Active? && s.work[i].task.Finished?
    requires RwLock.Solo(ls, t) && 1 < |ls| && s.lock[i] == ls[0] && |ls[1].pc| == |ls[0].pc|
    ensures LeadsAlone(o, LeftWith(s, i, ls[1]), i, t)
  {
    assert RwLock.Step(ls[0], ls[0 + 1], t);
    LeaveMoves(s, i, t, ls[1]);
    AloneOn(o, s, LeftWith(s, i, ls[1]), i, t);
  }

  lemma LeaveRest(o: System, s: System, ls: seq<RwLock.State>, i: nat, t: Thread)
    requires Shape(s) && i < INODE_NUM && s.work[i].Active? && s.work[i].task.Finished?
    requires 1 < |ls| && LeadsAlone(o, LeftWith(s, i, ls[1]), i, t)
    requires RwLock.Solo(ls[1..], t) && RwLock.Outside(ls[1..], t)
    requires forall k :: 0 <= k < |ls| ==> |ls[k].pc| == |ls[0].pc|
    ensures LeadsAlone(o, LeftWith(s, i, ls[|ls| - 1]), i, t)
  {
    var s1, rest := LeftWith(s, i, ls[1]), ls[1..];
    Relocked(s, i, ls[1], rest[0]);
    Relocked(s, i, ls[1], rest[|rest| - 1]);
    LeftShape(s, i, ls[1]);
    LockPath(o, s1, rest, i, t, |rest| - 1);
  }

  lemma Relocked(s: System, i: nat, l: RwLock.State, l': RwLock.State)
    requires i < |s.lock| && i < |s.work| && s.work[i].Active? && s.work[i].task.Finished?
    ensures WithLock(LeftWith(s, i, l), i, l') == LeftWith(s, i, l')
  {
    assert s.lock[i := l][i := l'] == s.lock[i := l'];
  }

  lemma LeftShape(s: System, i: nat, l: RwLock.State)
    requires Shape(s) && i < INODE_NUM && s.work[i].Active? && s.work[i].task.Finished?
    ensures Shape(LeftWith(s, i, l))
  {
  }

  // ---- calls complete -------------------------------------------------------------------------------------

  /** A call under way, to its end. */
  lemma FinishAlone(o: System, s: System, i: nat, t: Thread, called: set<nat>, d0: Image)
    returns (s': System, r: Reply)
    requires LeadsAlone(o, s, i, t) && Supplied(s, i)
    requires Concurrency.Inv(s, called, d0) && Spread(called, d0) && i in called
    requires t < |s.lock[i].pc| && RwLock.Inside(s.lock[i].pc[t])
    ensures LeadsAlone(o, s', i, t) && s'.log == s.log + [(s.work[i].op, r)]
    ensures s'.work == s.work[i := Resting] && i < |s'.lock| && s'.lock == s.lock[i := s'.lock[i]]
    ensures s'.lock[i].pc == s.lock[i].pc[t := RwLock.Idle] && s'.lock[i].mutex == RwLock.Nobody
  {
    var s1 := AccessAlone(o, s, i, t, called, d0);
    LockInOrder(s1, i, called, d0);
    var l' := LeaveAlone(o, s1, i, t);
    s', r := LeftWith(s1, i, l'), s1.work[i].task.reply;
    LeftIs(s, s1, i, l');
  }

  lemma LockInOrder(s: System, i: nat, called: set<nat>, d0: Image)
    requires Concurrency.Inv(s, called, d0) && i < INODE_NUM
    ensures Shape(s) && RwLock.Inv(s.lock[i])
  {
    assert Locked(s, i, called);
  }

  lemma LeftIs(s: System, s1: System, i: nat, l': RwLock.State)
    requires i < |s.work| == |s.lock| && i < |s1.work| && s1 == s.(work := s.work[i := s1.work[i]], d := s1.d)
    requires s.work[i].Active? && s1.work[i].Active? && s1.work[i].op == s.work[i].op && s1.work[i].task.Finished?
    ensures LeftWith(s1, i, l').work == s.work[i := Resting] && LeftWith(s1, i, l').lock == s.lock[i := l']
    ensures LeftWith(s1, i, l').log == s.log + [(s.work[i].op, s1.work[i].task.reply)]
  {
  }

  /**
   * Every call that is under way completes by the steps of its own thread, as long as the disk has the blocks that
   * it may still need: it answers, leaves the lock free, and disturbs no other call.
   */
  lemma CallFinishes(states: seq<System>, called: set<nat>, d0: Image, n: nat, i: nat, t: Thread)
    returns (s': System, r: Reply)
    requires IsRun(states, called, d0) && Spread(called, d0) && Ownership.Inv(d0) && n < |states|
    requires i in called && Supplied(states[n], i)
    requires t < |states[n].lock[i].pc| && RwLock.Inside(states[n].lock[i].pc[t])
    ensures LeadsAlone(states[n], s', i, t) && s'.log == states[n].log + [(states[n].work[i].op, r)]
    ensures s'.work == states[n].work[i := Resting] && i < |s'.lock| && s'.lock == states[n].lock[i := s'.lock[i]]
    ensures s'.lock[i].pc == states[n].lock[i].pc[t := RwLock.Idle] && s'.lock[i].mutex == RwLock.Nobody
  {
    RunInv(states, called, d0, n);
    AloneSelf(states[n], i, t);
    s', r := FinishAlone(states[n], states[n], i, t, called, d0);
  }

  /**
   * Every read_file, and every write_file whose sizes fit, completes: whenever the lock of its inode is free, an
   * idle thread can enter, make every access, answer and leave by its own steps, and the answer is what the
   * completed calls mean, one after another.
   */
  lemma CallCompletes(states: seq<System>, called: set<nat>, d0: Image, n: nat, i: nat, t: Thread, op: Op)
    returns (s': System, r: Reply)
    requires IsRun(states, called, d0) && Spread(called, d0) && Ownership.Inv(d0) && n < |states|
    requires i in called && Shape(states[n]) && i < INODE_NUM && states[n].lock[i].mutex == RwLock.Nobody
    requires t < |states[n].lock[i].pc| && states[n].lock[i].pc[t] == RwLock.Idle && Atomicity.CallOn(op, i)
    requires InodeAt(states[n].d, i).typ != 0 ==> Fitting(InodeAt(states[n].d, i).size, op)
    requires |Used(states[n].d)| + AllocsLeft(Begin(op)) <= DATA_BLOCKS
    ensures LeadsAlone(states[n], s', i, t) && s'.log == states[n].log + [(op, r)]
    ensures s'.work == states[n].work && i < |s'.lock| && s'.lock == states[n].lock[i := s'.lock[i]]
    ensures s'.lock[i].pc == states[n].lock[i].pc && s'.lock[i].mutex == RwLock.Nobody
    ensures RunMeaning(Files.FilesOf(d0), Atomicity.Calls(s'.log)).1 == Atomicity.Replies(s'.log)
  {
    var s := states[n];
    RunInv(states, called, d0, n);
    s', r := CompleteAlone(s, i, t, op, called, d0);
    AloneKeepsInv(s, s', i, t, called, d0);
    RestIsSerial(s', d0);
  }

  lemma CompleteAlone(s: System, i: nat, t: Thread, op: Op, called: set<nat>, d0: Image) returns (s': System, r: Reply)
    requires Concurrency.Inv(s, called, d0) && Spread(called, d0) && i in called && i < INODE_NUM
    requires s.lock[i].mutex == RwLock.Nobody
    requires t < |s.lock[i].pc| && s.lock[i].pc[t] == RwLock.Idle && Atomicity.CallOn(op, i)
    requires InodeAt(s.d, i).typ != 0 ==> Fitting(InodeAt(s.d, i).size, op)
    requires |Used(s.d)| + AllocsLeft(Begin(op)) <= DATA_BLOCKS
    ensures LeadsAlone(s, s', i, t) && s'.log == s.log + [(op, r)]
    ensures s'.work == s.work && i < |s'.lock| && s'.lock == s.lock[i := s'.lock[i]]
    ensures s'.lock[i].pc == s.lock[i].pc && s'.lock[i].mutex == RwLock.Nobody
  {
    LockInOrder(s, i, called, d0);
    WasResting(s, i, called, d0);
    var l := EnterAlone(s, i, t, op);
    var s1 := Entered(s, i, l, op);
    AloneKeepsInv(s, s1, i, t, called, d0);
    EnteredSupplied(s, i, l, op);
    s', r := FinishAlone(s, s1, i, t, called, d0);
    BackAtRest(s.work, i, s1.work[i], Resting);
    BackAtRest(s.lock, i, l, s'.lock[i]);
    BackAtRest(s.lock[i].pc, t, l.pc[t], RwLock.Idle);
  }

  lemma EnteredSupplied(s: System, i: nat, l: RwLock.State, op: Op)
    requires Shape(s) && i < INODE_NUM && IsCall(op) && |Used(s.d)| + AllocsLeft(Begin(op)) <= DATA_BLOCKS
    ensures Supplied(Entered(s, i, l, op), i)
  {
  }

  /** What is overwritten leaves no trace. */
  lemma BackAtRest<T>(a: seq<T>, i: nat, x: T, y: T)
    requires i < |a|
    ensures a[i := x][i := y] == a[i := y] && a[i := a[i]] == a
  {
  }

  /** While the lock is free, no call is active. */
  lemma WasResting(s: System, i: nat, called: set<nat>, d0: Image)
    requires Concurrency.Inv(s, called, d0) && i < INODE_NUM && s.lock[i].mutex == RwLock.Nobody
    ensures s.work[i] == Resting
  {
    assert Locked(s, i, called);
  }
}
