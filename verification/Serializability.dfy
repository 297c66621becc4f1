/**
 * When concurrent calls are serial: exactly when the called files have their records in different table blocks.
 *
 * The other half is a run of two reads on files that share a table block.  Both read the block before either has
 * written it back, and the access time that the first one stores is lost.
 */
module Serializability {
  import opened Layout
  import opened DiskImage
  import opened InodeTable
  import opened FileOps
  import opened Files
  import opened Refinement
  import opened Accesses
  import opened Interleaving
  import opened Concurrency
  import RwLock

  // ---- putting runs together ------------------------------------------------------------------------------

  ghost predicate Path(states: seq<System>, called: set<nat>) {
    states != [] && forall n :: 0 <= n < |states| - 1 ==> Next(states[n], states[n + 1], called)
  }

  /** Some steps lead from s to s'. */
  ghost predicate Leads(s: System, s': System, called: set<nat>) {
    exists states :: Path(states, called) && states[0] == s && states[|states| - 1] == s'
  }

  lemma LeadsSelf(s: System, called: set<nat>)
    ensures Leads(s, s, called)
  {
    assert Path([s], called);
  }

  lemma LeadsOn(s: System, s1: System, s': System, called: set<nat>)
    requires Leads(s, s1, called) && Next(s1, s', called)
    ensures Leads(s, s', called)
  {
    var states :| Path(states, called) && states[0] == s && states[|states| - 1] == s1;
    var more := states + [s'];
    forall n | 0 <= n < |more| - 1
      ensures Next(more[n], more[n + 1], called)
    {
      if n < |states| - 1 {
        assert Next(states[n], states[n + 1], called);
      }
    }
    assert Path(more, called);
  }

  // ---- two inodes and nobody else -------------------------------------------------------------------------

  /** The lock of an inode and its call. */
  datatype Spot = Spot(lock: RwLock.State, work: Work)

  ghost predicate ValidSpot(a: Spot) {
    |a.lock.pc| == 1 && (a.work.Active? ==> ValidTask(a.work.task))
  }

  /** Inodes i and j are at a and b, and all others rest. */
  ghost predicate Where(s: System, i: nat, j: nat, a: Spot, b: Spot, d: Image, log: seq<(Op, Reply)>) {
    && i < INODE_NUM && j < INODE_NUM && i != j && |s.lock| == |s.work| == INODE_NUM
    && ValidSpot(a) && ValidSpot(b) && s.d == d && s.log == log
    && Spot(s.lock[i], s.work[i]) == a && Spot(s.lock[j], s.work[j]) == b
    && forall k :: 0 <= k < INODE_NUM && k != i && k != j ==> s.work[k].Resting?
  }

  lemma Shaped(s: System, i: nat, j: nat, a: Spot, b: Spot, d: Image, log: seq<(Op, Reply)>)
    requires Where(s, i, j, a, b, d, log)
    ensures Shape(s)
  {
  }

  lemma Swap(s: System, i: nat, j: nat, a: Spot, b: Spot, d: Image, log: seq<(Op, Reply)>)
    requires Where(s, i, j, a, b, d, log)
    ensures Where(s, j, i, b, a, d, log)
  {
  }

  /** One more step of the only thread at inode i. */
  lemma LeadsBy(o: System, s: System, s': System, i: nat, l': RwLock.State, called: set<nat>)
    requires Leads(o, s, called) && Shape(s) && i < INODE_NUM && i in called
    requires 0 < |s.lock[i].pc| && Step(s, s', i, 0, l')
    ensures Leads(o, s', called)
  {
    assert Next(s, s', called);
    LeadsOn(o, s, s', called);
  }

  /** A statement of the lock that neither enters nor leaves. */
  lemma LockAt(o: System, s: System, i: nat, j: nat, a: Spot, b: Spot, d: Image, log: seq<(Op, Reply)>,
               l': RwLock.State, called: set<nat>) returns (s': System)
    requires Leads(o, s, called) && Where(s, i, j, a, b, d, log) && i in called
    requires |l'.pc| == 1 && RwLock.Step(a.lock, l', 0) && !RwLock.Inside(a.lock.pc[0]) && !RwLock.Inside(l'.pc[0])
    ensures Leads(o, s', called) && Where(s', i, j, a.(lock := l'), b, d, log)
  {
    Shaped(s, i, j, a, b, d, log);
    s' := s.(lock := s.lock[i := l']);
    LeadsBy(o, s, s', i, l', called);
  }

  /** A thread enters for a read. */
  lemma EnterAt(o: System, s: System, i: nat, j: nat, a: Spot, b: Spot, d: Image, log: seq<(Op, Reply)>,
                l': RwLock.State, op: Op, called: set<nat>) returns (s': System)
    requires Leads(o, s, called) && Where(s, i, j, a, b, d, log) && i in called && op.Read? && op.i == i
    requires |l'.pc| == 1 && RwLock.Step(a.lock, l', 0) && !RwLock.Inside(a.lock.pc[0]) && l'.pc[0] == RwLock.RInside
    ensures Leads(o, s', called) && Where(s', i, j, Spot(l', Active(op, Begin(op))), b, d, log)
  {
    Shaped(s, i, j, a, b, d, log);
    s' := s.(lock := s.lock[i := l'], work := s.work[i := Active(op, Begin(op))]);
    assert EnterStep(s, s', i, l', 0);
    LeadsBy(o, s, s', i, l', called);
  }

  /** An access that does not allocate. */
  lemma AccessAt(o: System, s: System, i: nat, j: nat, a: Spot, b: Spot, d: Image, log: seq<(Op, Reply)>,
                 t': Task, d': Image, called: set<nat>) returns (s': System)
    requires Leads(o, s, called) && Where(s, i, j, a, b, d, log) && i in called && RwLock.Inside(a.lock.pc[0])
    requires a.work.Active? && !a.work.task.Finished? && !Allocating(a.work.task)
    requires Access(i, a.work.task, d) == (t', d')
    ensures Leads(o, s', called) && Where(s', i, j, a.(work := Active(a.work.op, t')), b, d', log)
  {
    Shaped(s, i, j, a, b, d, log);
    s' := s.(work := s.work[i := Active(a.work.op, t')], d := d');
    assert AccessStep(s, s', i);
    LeadsBy(o, s, s', i, a.lock, called);
  }

  /** A thread leaves with its reply. */
  lemma LeaveAt(o: System, s: System, i: nat, j: nat, a: Spot, b: Spot, d: Image, log: seq<(Op, Reply)>,
                l': RwLock.State, called: set<nat>) returns (s': System)
    requires Leads(o, s, called) && Where(s, i, j, a, b, d, log) && i in called
    requires |l'.pc| == 1 && RwLock.Step(a.lock, l', 0) && RwLock.Inside(a.lock.pc[0])
    requires a.work.Active? && a.work.task.Finished?
    ensures Leads(o, s', called)
    ensures Where(s', i, j, Spot(l', Resting), b, d, log + [(a.work.op, a.work.task.reply)])
  {
    Shaped(s, i, j, a, b, d, log);
    s' := s.(lock := s.lock[i := l'], work := s.work[i := Resting],
             log := s.log + [(s.work[i].op, s.work[i].task.reply)]);
    assert LeaveStep(s, s', i, l');
    LeadsBy(o, s, s', i, l', called);
  }

  // ---- a read, step by step -------------------------------------------------------------------------------

  /** The lock of an inode with one thread at p, which is the first to call. */
  function LockWith(p: RwLock.Pc, m: RwLock.Holder, waiting: int, active: nat): RwLock.State {
    RwLock.State(0, waiting, 0, active, m, [p], active)
  }

  function Unused(): RwLock.State {
    LockWith(RwLock.Idle, RwLock.Nobody, 0, 0)
  }

  function Tested(): RwLock.State {
    LockWith(RwLock.RDecWaiting, RwLock.Held(0), 0, 0)
  }

  function Entered(): RwLock.State {
    LockWith(RwLock.RInside, RwLock.Held(0), -1, 1)
  }

  function Left(): RwLock.State {
    LockWith(RwLock.RDecActive, RwLock.Held(0), -1, 1)
  }

  /** reader_enter of the first reader. */
  lemma EnterRead(o: System, s: System, i: nat, j: nat, b: Spot, d: Image, log: seq<(Op, Reply)>, op: Op,
                  called: set<nat>) returns (s': System)
    requires Leads(o, s, called) && Where(s, i, j, Spot(Unused(), Resting), b, d, log) && i in called
    requires op.Read? && op.i == i
    ensures Leads(o, s', called) && Where(s', i, j, Spot(Entered(), Active(op, Begin(op))), b, d, log)
  {
    var s3 := ReachTest(o, s, i, j, b, d, log, called);
    var l4 := LockWith(RwLock.RIncActive, RwLock.Held(0), -1, 0);
    var s4 := LockAt(o, s3, i, j, Spot(Tested(), Resting), b, d, log, l4, called);
    s' := EnterAt(o, s4, i, j, Spot(l4, Resting), b, d, log, Entered(), op, called);
  }

  lemma ReachTest(o: System, s: System, i: nat, j: nat, b: Spot, d: Image, log: seq<(Op, Reply)>, called: set<nat>)
    returns (s3: System)
    requires Leads(o, s, called) && Where(s, i, j, Spot(Unused(), Resting), b, d, log) && i in called
    ensures Leads(o, s3, called) && Where(s3, i, j, Spot(Tested(), Resting), b, d, log)
  {
    var l1 := LockWith(RwLock.RLock, RwLock.Nobody, 0, 0);
    var l2 := LockWith(RwLock.RTest, RwLock.Held(0), 0, 0);
    var s1 := LockAt(o, s, i, j, Spot(Unused(), Resting), b, d, log, l1, called);
    var s2 := LockAt(o, s1, i, j, Spot(l1, Resting), b, d, log, l2, called);
    s3 := LockAt(o, s2, i, j, Spot(l2, Resting), b, d, log, Tested(), called);
  }

  /** A call in its critical section. */
  function In(op: Op, t: Task): Spot {
    Spot(Entered(), Active(op, t))
  }

  /** The inode is read, and then the table block for put_inode. */
  lemma TakeBuffer(o: System, s: System, i: nat, j: nat, b: Spot, d: Image, log: seq<(Op, Reply)>, op: Op, x: Inode,
                   called: set<nat>) returns (s': System)
    requires op.Read? && Leads(o, s, called) && Where(s, i, j, In(op, Begin(op)), b, d, log) && i in called
    requires GetInode(d, i) == Some(x)
    ensures Leads(o, s', called)
    ensures Where(s', i, j, In(op, RPutStore(x.(atime := op.now), op.g, d[InodeBlock(i)])), b, d, log)
  {
    ReadBeginMoves(i, op.now, op.g, d, x);
    var y := x.(atime := op.now);
    var s1 := AccessAt(o, s, i, j, In(op, Begin(op)), b, d, log, RPut(y, op.g), d, called);
    PutMoves(i, y, op.g, d);
    s' := AccessAt(o, s1, i, j, In(op, RPut(y, op.g)), b, d, log, RPutStore(y, op.g, d[InodeBlock(i)]), d, called);
  }

  lemma PutMoves(i: nat, x: Inode, g: Garbage, d: Image)
    requires i < INODE_NUM
    ensures Access(i, RPut(x, g), d) == (RPutStore(x, g, d[InodeBlock(i)]), d)
  {
  }

  lemma StoreMoves(i: nat, x: Inode, g: Garbage, buf: Block, d: Image)
    requires i < INODE_NUM
    ensures Access(i, RPutStore(x, g, buf), d) == (RIndirect(x, g), StoreRecord(d, i, x, buf))
  {
  }

  /** The record is stored. */
  lemma StoreBuffer(o: System, s: System, i: nat, j: nat, b: Spot, d: Image, log: seq<(Op, Reply)>, op: Op, x: Inode,
                    buf: Block, called: set<nat>) returns (s': System)
    requires op.Read? && Leads(o, s, called) && i in called
    requires Where(s, i, j, In(op, RPutStore(x, op.g, buf)), b, d, log)
    ensures Leads(o, s', called) && Where(s', i, j, In(op, RIndirect(x, op.g)), b, StoreRecord(d, i, x, buf), log)
  {
    StoreMoves(i, x, op.g, buf, d);
    s' := AccessAt(o, s, i, j, In(op, RPutStore(x, op.g, buf)), b, d, log, RIndirect(x, op.g),
                   StoreRecord(d, i, x, buf), called);
  }

  lemma CopyMoves(i: nat, x: Inode, g: Garbage, ind: Block, k: nat, bytes: seq<byte>, d: Image) returns (t': Task)
    requires i < INODE_NUM && k <= BlocksFor(ToInt(x.size))
    ensures Access(i, RLoop(x, g, ind, k, bytes), d) == (t', d)
    ensures if k < BlocksFor(ToInt(x.size)) then t'.RLoop? && t' == RLoop(x, g, ind, k + 1, t'.bytes) else t'.Finished?
  {
    t' := Access(i, RLoop(x, g, ind, k, bytes), d).0;
  }

  /** The blocks are copied one by one; the disk stays as it is. */
  lemma {:induction false} CopyAll(
      o: System, s: System, i: nat, j: nat, b: Spot, d: Image, log: seq<(Op, Reply)>, op: Op, x: Inode, ind: Block,
      k: nat, bytes: seq<byte>, called: set<nat>) returns (s': System, r: Reply)
    requires op.Read? && Leads(o, s, called) && i in called && k <= BlocksFor(ToInt(x.size))
    requires Where(s, i, j, In(op, RLoop(x, op.g, ind, k, bytes)), b, d, log)
    ensures Leads(o, s', called) && Where(s', i, j, In(op, Finished(r)), b, d, log)
    decreases BlocksFor(ToInt(x.size)) - k
  {
    var t' := CopyMoves(i, x, op.g, ind, k, bytes, d);
    var s1 := AccessAt(o, s, i, j, In(op, RLoop(x, op.g, ind, k, bytes)), b, d, log, t', d, called);
    if k < BlocksFor(ToInt(x.size)) {
      s', r := CopyAll(o, s1, i, j, b, d, log, op, x, ind, k + 1, t'.bytes, called);
    } else {
      s', r := s1, t'.reply;
    }
  }

  /** The rest of the read, and reader_exit. */
  lemma ReadRestAndLeave(o: System, s: System, i: nat, j: nat, b: Spot, d: Image, log: seq<(Op, Reply)>, op: Op,
                         x: Inode, called: set<nat>) returns (s': System, r: Reply)
    requires op.Read? && Leads(o, s, called) && Where(s, i, j, In(op, RIndirect(x, op.g)), b, d, log) && i in called
    ensures Leads(o, s', called) && Where(s', i, j, Spot(Left(), Resting), b, d, log + [(op, r)])
  {
    var ind := Fetch(d, x.blocks[NDIRECT], op.g.unread(0));
    var s1 := AccessAt(o, s, i, j, In(op, RIndirect(x, op.g)), b, d, log, RLoop(x, op.g, ind, 0, []), d, called);
    var s2;
    s2, r := CopyAll(o, s1, i, j, b, d, log, op, x, ind, 0, [], called);
    s' := LeaveAt(o, s2, i, j, In(op, Finished(r)), b, d, log, Left(), called);
  }

  // ---- two reads on one table block -----------------------------------------------------------------------

  lemma Overwritten(d: Image, i: nat, j: nat, x: Inode, y: Inode, d1: Image, d2: Image)
    requires i < INODE_NUM && j < INODE_NUM && i != j && InodeBlock(i) == InodeBlock(j)
    requires d1 == StoreRecord(d, i, x, d[InodeBlock(i)]) && d2 == StoreRecord(d1, j, y, d[InodeBlock(j)])
    ensures InodeAt(d2, i) == InodeAt(d, i)
  {
    SameBlockSameInode(PutInode(d, j, y), d2, i);
    PutThenAt(d, j, y, i);
  }

  /** Both reads have taken their buffers. */
  lemma BothTake(o: System, i: nat, j: nat, d: Image, p: Op, q: Op, x: Inode, y: Inode, called: set<nat>)
    returns (s: System)
    requires Where(o, i, j, Spot(Unused(), Resting), Spot(Unused(), Resting), d, []) && i in called && j in called
    requires p.Read? && p.i == i && q.Read? && q.i == j && GetInode(d, i) == Some(x) && GetInode(d, j) == Some(y)
    ensures Leads(o, s, called)
    ensures Where(s, i, j, In(p, RPutStore(x.(atime := p.now), p.g, d[InodeBlock(i)])),
                  In(q, RPutStore(y.(atime := q.now), q.g, d[InodeBlock(j)])), d, [])
  {
    var free := Spot(Unused(), Resting);
    LeadsSelf(o, called);
    var s1 := EnterRead(o, o, i, j, free, d, [], p, called);
    var s2 := TakeBuffer(o, s1, i, j, free, d, [], p, x, called);
    var a := In(p, RPutStore(x.(atime := p.now), p.g, d[InodeBlock(i)]));
    Swap(s2, i, j, a, free, d, []);
    var s3 := EnterRead(o, s2, j, i, a, d, [], q, called);
    s := TakeBuffer(o, s3, j, i, a, d, [], q, y, called);
    Swap(s, j, i, In(q, RPutStore(y.(atime := q.now), q.g, d[InodeBlock(j)])), a, d, []);
  }

  /** Then i stores its record, j stores its own over it, and both finish. */
  lemma BothStore(o: System, s: System, i: nat, j: nat, d: Image, p: Op, q: Op, x: Inode, y: Inode,
                  bi: Block, bj: Block, called: set<nat>) returns (s': System, r: Reply, r': Reply)
    requires Leads(o, s, called) && i in called && j in called && p.Read? && q.Read?
    requires Where(s, i, j, In(p, RPutStore(x, p.g, bi)), In(q, RPutStore(y, q.g, bj)), d, [])
    ensures Leads(o, s', called)
    ensures Where(s', j, i, Spot(Left(), Resting), Spot(Left(), Resting),
                  StoreRecord(StoreRecord(d, i, x, bi), j, y, bj), [(p, r), (q, r')])
  {
    var d1 := StoreRecord(d, i, x, bi);
    var d2 := StoreRecord(d1, j, y, bj);
    var a, b := In(p, RIndirect(x, p.g)), In(q, RPutStore(y, q.g, bj));
    var s1 := StoreBuffer(o, s, i, j, b, d, [], p, x, bi, called);
    Swap(s1, i, j, a, b, d1, []);
    var s2 := StoreBuffer(o, s1, j, i, a, d1, [], q, y, bj, called);
    Swap(s2, j, i, In(q, RIndirect(y, q.g)), a, d2, []);
    var s3;
    s3, r := ReadRestAndLeave(o, s2, i, j, In(q, RIndirect(y, q.g)), d2, [], p, x, called);
    Swap(s3, i, j, Spot(Left(), Resting), In(q, RIndirect(y, q.g)), d2, [] + [(p, r)]);
    s', r' := ReadRestAndLeave(o, s3, j, i, Spot(Left(), Resting), d2, [] + [(p, r)], q, y, called);
    assert [] + [(p, r)] + [(q, r')] == [(p, r), (q, r')];
  }

  /** Every inode at rest, and one thread for each. */
  function AtFirst(d: Image): System {
    System(seq(INODE_NUM, _ => Unused()), seq(INODE_NUM, _ => Resting), d, [])
  }

  /** What serial means for a run. */
  ghost predicate Serial(states: seq<System>, d0: Image) {
    forall n :: 0 <= n < |states| ==> SerialAt(states[n], d0)
  }

  ghost predicate SerialAt(s: System, d0: Image) {
    var (m, rs) := RunMeaning(FilesOf(d0), Atomicity.Calls(s.log));
    rs == Atomicity.Replies(s.log) && (AtRest(s.work) ==> Ownership.Inv(s.d) && FilesOf(s.d) == m)
  }

  lemma TwoReads(m: FileMap, log: seq<(Op, Reply)>, p: Op, q: Op, r: Reply, r': Reply)
    requires log == [(p, r), (q, r')] && p.Read? && q.Read? && p.i != q.i && p.i in m
    ensures var m' := RunMeaning(m, Atomicity.Calls(log)).0; p.i in m' && m'[p.i].atime == p.now
  {
    var ops := Atomicity.Calls(log);
    assert ops == [p, q] && ops[1..] == [q] && [q][1..] == [];
    var m1 := Meaning(m, p).0;
    assert RunMeaning(Meaning(m1, q).0, []).0 == Meaning(m1, q).0;
    assert RunMeaning(m1, [q]).0 == Meaning(m1, q).0;
  }

  /** The access time that i stored is gone. */
  lemma TimeLost(d: Image, d': Image, i: nat, m: FileMap, now: u32)
    requires i in FilesOf(d) && i < INODE_NUM && InodeAt(d', i) == InodeAt(d, i) && FilesOf(d)[i].atime != now
    requires i in m && m[i].atime == now
    ensures FilesOf(d') != m
  {
    FileEntry(d, i);
    FileEntry(d', i);
  }

  /**
   * On any disk with two files that are called and share a table block, two reads can interleave so that, with
   * everything at rest again, the files are not what the two reads mean.
   */
  lemma SharedBlockBreaks(d: Image, i: nat, j: nat, called: set<nat>) returns (states: seq<System>)
    requires i in called && j in called && i in FilesOf(d) && j in FilesOf(d) && i != j
    requires InodeBlock(i) == InodeBlock(j)
    ensures IsRun(states, called, d) && AtRest(states[|states| - 1].work)
    ensures !SerialAt(states[|states| - 1], d)
  {
    var now: u32 := if FilesOf(d)[i].atime == 0 then 1 else 0;
    var g := Garbage(ZeroBlock(), _ => ZeroBlock(), _ => ZeroBlock(), _ => 0);
    states := TwoReadsBreak(d, Read(i, now, g), Read(j, now, g), called);
  }

  lemma TwoReadsBreak(d: Image, p: Op, q: Op, called: set<nat>) returns (states: seq<System>)
    requires p.Read? && q.Read? && p.i in called && q.i in called && p.i != q.i && InodeBlock(p.i) == InodeBlock(q.i)
    requires p.i in FilesOf(d) && q.i in FilesOf(d) && FilesOf(d)[p.i].atime != p.now
    ensures IsRun(states, called, d) && AtRest(states[|states| - 1].work) && !SerialAt(states[|states| - 1], d)
  {
    FileEntry(d, p.i);
    FileEntry(d, q.i);
    var s', log := LostTime(d, p.i, q.i, p, q, called);
    NotSerial(d, s', p, q);
    states := Started(d, s', called);
  }

  lemma NotSerial(d: Image, s: System, p: Op, q: Op)
    requires p.Read? && q.Read? && p.i != q.i && p.i in FilesOf(d) && FilesOf(d)[p.i].atime != p.now
    requires p.i < INODE_NUM && AtRest(s.work) && InodeAt(s.d, p.i) == InodeAt(d, p.i)
    requires exists r, r' :: s.log == [(p, r), (q, r')]
    ensures !SerialAt(s, d)
  {
    var r, r' :| s.log == [(p, r), (q, r')];
    TwoReads(FilesOf(d), s.log, p, q, r, r');
    TimeLost(d, s.d, p.i, RunMeaning(FilesOf(d), Atomicity.Calls(s.log)).0, p.now);
  }

  lemma LostTime(d: Image, i: nat, j: nat, p: Op, q: Op, called: set<nat>) returns (s': System, log: seq<(Op, Reply)>)
    requires i in called && j in called && i != j && i < INODE_NUM && j < INODE_NUM && InodeBlock(i) == InodeBlock(j)
    requires GetInode(d, i) != None && GetInode(d, j) != None && p.Read? && p.i == i && q.Read? && q.i == j
    ensures Leads(AtFirst(d), s', called) && s'.log == log && AtRest(s'.work) && InodeAt(s'.d, i) == InodeAt(d, i)
    ensures exists r, r' :: log == [(p, r), (q, r')]
  {
    var o, x, y := AtFirst(d), GetInode(d, i).value, GetInode(d, j).value;
    FirstSpots(d, i, j);
    var s := BothTake(o, i, j, d, p, q, x, y, called);
    var x', y' := x.(atime := p.now), y.(atime := q.now);
    var r, r';
    s', r, r' := BothStore(o, s, i, j, d, p, q, x', y', d[InodeBlock(i)], d[InodeBlock(j)], called);
    log := [(p, r), (q, r')];
    BothRest(s', j, i, s'.d, log);
    Overwritten(d, i, j, x', y', StoreRecord(d, i, x', d[InodeBlock(i)]), s'.d);
  }

  lemma FirstSpots(d: Image, i: nat, j: nat)
    requires i < INODE_NUM && j < INODE_NUM && i != j
    ensures Where(AtFirst(d), i, j, Spot(Unused(), Resting), Spot(Unused(), Resting), d, [])
  {
  }

  lemma BothRest(s: System, i: nat, j: nat, d: Image, log: seq<(Op, Reply)>)
    requires Where(s, i, j, Spot(Left(), Resting), Spot(Left(), Resting), d, log)
    ensures AtRest(s.work)
  {
  }

  lemma Started(d: Image, s': System, called: set<nat>) returns (states: seq<System>)
    requires Leads(AtFirst(d), s', called)
    ensures IsRun(states, called, d) && states[|states| - 1] == s'
  {
    states :| Path(states, called) && states[0] == AtFirst(d) && states[|states| - 1] == s';
  }

  // ---- exactness ------------------------------------------------------------------------------------------

  lemma SpreadIsSerial(states: seq<System>, called: set<nat>, d0: Image)
    requires Ownership.Inv(d0) && Spread(called, d0) && IsRun(states, called, d0)
    ensures Serial(states, d0)
  {
    forall n | 0 <= n < |states|
      ensures SerialAt(states[n], d0)
    {
      CallsAreSerial(states, called, d0, n);
    }
  }

  /**
   * On a consistent disk, every run of calls on the given numbers is serial if and only if the files among them
   * have their records in different table blocks.
   */
  lemma SerialExact(called: set<nat>, d0: Image)
    requires Ownership.Inv(d0)
    ensures (forall states :: IsRun(states, called, d0) ==> Serial(states, d0)) <==> Spread(called, d0)
  {
    if Spread(called, d0) {
      forall states | IsRun(states, called, d0)
        ensures Serial(states, d0)
      {
        SpreadIsSerial(states, called, d0);
      }
    } else {
      var i, j :| i in called && j in called && i in FilesOf(d0) && j in FilesOf(d0) && i != j &&
                  InodeBlock(i) == InodeBlock(j);
      var states := SharedBlockBreaks(d0, i, j, called);
      assert !SerialAt(states[|states| - 1], d0);
    }
  }
}
