/**
 * Calls on several inodes at once.  Each inode has its own lock, and the calls share the disk and its bitmap.
 * As long as no allocation fails, the calls take effect one after another on the map of files if and only if the
 * called files have their records in different table blocks.
 */
module Concurrency {
  import opened Layout
  import opened DiskImage
  import opened Bitmap
  import opened InodeTable
  import opened FileOps
  import opened Ownership
  import opened Files
  import opened Refinement
  import opened Accesses
  import opened Sharing
  import opened Interleaving
  import opened Atomicity

  /** What goes on at an inode: nothing, or a call that has come as far as a task. */
  datatype Work = Resting | Active(op: Op, task: Task)

  // ---- all inodes together --------------------------------------------------------------------------------

  /** The blocks of inode i. */
  ghost function Mine(ow: Owners, i: nat): Owners {
    map b | b in ow && ow[b].i == i :: ow[b]
  }

  function DeadReply(op: Op): Reply {
    if op.Read? then Answer(NoFile) else Nothing
  }

  /** Inode i holds file m[i], or none, and its call, if there is one, is under way. */
  ghost predicate Fine(d: Image, own: Owners, m: FileMap, i: nat, w: Work)
    requires i < INODE_NUM
  {
    match w
    case Resting => if i in m then Steady(d, own, i, m[i]) else Absent(d, own, i)
    case Active(op, t) =>
      && IsCall(op) && op.i == i && ValidTask(t)
      && if i in m then TaskOk(i, t, op, m[i], d, own)
         else Absent(d, own, i) && (t == Begin(op) || t == Finished(DeadReply(op)))
  }

  ghost predicate Absent(d: Image, own: Owners, i: nat)
    requires i < INODE_NUM
  {
    own == map[] && InodeAt(d, i).typ == 0
  }

  /** A call on an existing file is under way. */
  predicate Touching(work: seq<Work>, m: FileMap, i: nat) {
    i < |work| && work[i].Active? && i in m
  }

  /** The files that are being worked on have their records in different table blocks. */
  ghost predicate Apart(work: seq<Work>, m: FileMap) {
    forall i, j :: Touching(work, m, i) && Touching(work, m, j) && i != j ==> InodeBlock(i) != InodeBlock(j)
  }

  ghost predicate World(d: Image, ow: Owners, m: FileMap, work: seq<Work>) {
    && |work| == INODE_NUM && Used(d) == ow.Keys
    && (forall b :: b in ow ==> ow[b].i < INODE_NUM) && (forall i :: i in m ==> i < INODE_NUM)
    && forall i :: 0 <= i < INODE_NUM ==> Fine(d, Mine(ow, i), m, i, work[i])
  }

  /** The owners after inode i's blocks changed. */
  ghost function Merge(ow: Owners, i: nat, own': Owners): Owners {
    map b | b in ow.Keys + own'.Keys && (b in own' || ow[b].i != i) :: if b in own' then own'[b] else ow[b]
  }

  lemma MineAfter(ow: Owners, i: nat, own': Owners, j: nat)
    requires Own(own', i) && forall b :: b in own' && b !in Mine(ow, i) ==> b !in ow
    ensures Mine(Merge(ow, i, own'), j) == if j == i then own' else Mine(ow, j)
  {
  }

  lemma KeysAfter(ow: Owners, i: nat, own': Owners)
    ensures Merge(ow, i, own').Keys == ow.Keys - Mine(ow, i).Keys + own'.Keys
  {
  }

  /** Another inode's blocks, and its record, are none of inode i's business. */
  lemma OtherFine(d: Image, ow: Owners, m: FileMap, i: nat, d': Image, own': Owners, j: nat, w: Work)
    requires i < INODE_NUM && j < INODE_NUM && j != i && Used(d) == ow.Keys && Fine(d, Mine(ow, j), m, j, w)
    requires Own(Mine(ow, j), j) && Guarantee(i, d, Mine(ow, i), d', own')
    requires d' == d || (w.Active? && j in m ==> InodeBlock(i) != InodeBlock(j))
    ensures Fine(d', Mine(ow, j), m, j, w)
  {
    var own := Mine(ow, j);
    assert Table(d')[j] == Table(d)[j] == InodeAt(d, j) && Table(d')[j] == InodeAt(d', j);
    forall b | b in own
      ensures d'[b] == d[b]
    {
      assert b in ow && b !in Mine(ow, i);
    }
    if j in m {
      match w
      case Resting => HoldsStill(d, own, j, InodeAt(d, j), m[j], d');
      case Active(op, t) =>
        RegionsDisjoint(0, j);
        TaskStill(j, t, op, m[j], d, own, d');
    }
  }

  lemma FineOwns(d: Image, own: Owners, m: FileMap, i: nat, w: Work)
    requires i < INODE_NUM && Fine(d, own, m, i, w)
    ensures Own(own, i)
  {
    if i in m && w.Active? {
      OwnBlocks(i, w.task, w.op, m[i], d, own);
    }
  }

  /** One inode moves on, and the world with it. */
  lemma WorldMoves(d: Image, ow: Owners, m: FileMap, work: seq<Work>, i: nat, d': Image, own': Owners, w': Work)
    requires World(d, ow, m, work) && Apart(work, m) && i < INODE_NUM && work[i].Active? && (d' == d || i in m)
    requires Guarantee(i, d, Mine(ow, i), d', own') && Fine(d', own', m, i, w')
    ensures World(d', Merge(ow, i, own'), m, work[i := w'])
  {
    KeysAfter(ow, i, own');
    forall j | 0 <= j < INODE_NUM
      ensures Fine(d', Mine(Merge(ow, i, own'), j), m, j, if j == i then w' else work[j])
    {
      EachMoves(d, ow, m, work, i, d', own', w', j);
    }
  }

  lemma EachMoves(d: Image, ow: Owners, m: FileMap, work: seq<Work>, i: nat, d': Image, own': Owners, w': Work, j: nat)
    requires World(d, ow, m, work) && Apart(work, m) && i < INODE_NUM && work[i].Active? && (d' == d || i in m)
    requires j < INODE_NUM && Guarantee(i, d, Mine(ow, i), d', own') && Fine(d', own', m, i, w')
    ensures Fine(d', Mine(Merge(ow, i, own'), j), m, j, if j == i then w' else work[j])
  {
    MineAfter(ow, i, own', j);
    if j != i {
      OtherMoves(d, ow, m, work, i, d', own', j);
    }
  }

  lemma OtherMoves(d: Image, ow: Owners, m: FileMap, work: seq<Work>, i: nat, d': Image, own': Owners, j: nat)
    requires World(d, ow, m, work) && Apart(work, m) && i < INODE_NUM && work[i].Active? && (d' == d || i in m)
    requires j < INODE_NUM && j != i && Guarantee(i, d, Mine(ow, i), d', own')
    ensures Fine(d', Mine(ow, j), m, j, work[j])
  {
    assert Fine(d, Mine(ow, j), m, j, work[j]);
    FineOwns(d, Mine(ow, j), m, j, work[j]);
    assert i in m ==> Touching(work, m, i);
    assert work[j].Active? && j in m ==> Touching(work, m, j);
    OtherFine(d, ow, m, i, d', own', j, work[j]);
  }

  /** An access of the call on inode i. */
  lemma WorldAccess(d: Image, ow: Owners, m: FileMap, work: seq<Work>, i: nat) returns (ow': Owners)
    requires World(d, ow, m, work) && Apart(work, m)
    requires i < INODE_NUM && work[i].Active? && ValidTask(work[i].task) && !work[i].task.Finished?
    requires Room(work[i].task, d)
    ensures var (t', d') := Access(i, work[i].task, d); World(d', ow', m, work[i := Active(work[i].op, t')])
  {
    var op, t := work[i].op, work[i].task;
    var own := Mine(ow, i);
    assert Fine(d, own, m, i, work[i]);
    assert own.Keys <= Used(d);
    var (t', d') := Access(i, t, d);
    var own';
    if i in m {
      AccessAdvances(i, t, op, m[i], d, own);
      own' :| Moves(i, op, m[i], d, own, t', d', own');
    } else {
      own' := own;
      AbsentAccess(i, op, d);
      NothingChanges(i, d, own);
    }
    ow' := Merge(ow, i, own');
    WorldMoves(d, ow, m, work, i, d', own', Active(op, t'));
  }

  lemma AbsentAccess(i: nat, op: Op, d: Image)
    requires i < INODE_NUM && IsCall(op) && InodeAt(d, i).typ == 0
    ensures Access(i, Begin(op), d) == (Finished(DeadReply(op)), d)
  {
  }

  /** A call begins on an inode at rest. */
  lemma WorldBegins(d: Image, ow: Owners, m: FileMap, work: seq<Work>, i: nat, op: Op)
    requires World(d, ow, m, work) && i < INODE_NUM && work[i].Resting? && IsCall(op) && op.i == i
    requires InodeAt(d, i).typ != 0 ==> Fitting(InodeAt(d, i).size, op)
    ensures World(d, ow, m, work[i := Active(op, Begin(op))])
  {
    assert Fine(d, Mine(ow, i), m, i, work[i]);
  }

  /** A finished call ends: it has done what it means, and answered so. */
  lemma WorldEnds(d: Image, ow: Owners, m: FileMap, work: seq<Work>, i: nat)
    requires World(d, ow, m, work) && i < INODE_NUM && work[i].Active? && work[i].task.Finished?
    ensures IsCall(work[i].op) && Meaning(m, work[i].op).1 == work[i].task.reply
    ensures World(d, ow, Meaning(m, work[i].op).0, work[i := Resting])
  {
    var op := work[i].op;
    assert Fine(d, Mine(ow, i), m, i, work[i]);
    EndMeans(m, op);
    EndsFine(d, Mine(ow, i), m, i, work[i]);
    var m' := Meaning(m, op).0;
    forall j | 0 <= j < INODE_NUM
      ensures Fine(d, Mine(ow, j), m', j, work[i := Resting][j])
    {
      if j != i {
        assert Fine(d, Mine(ow, j), m, j, work[j]);
        SameEntry(d, Mine(ow, j), m, m', j, work[j]);
      }
    }
  }

  lemma SameEntry(d: Image, own: Owners, m: FileMap, m': FileMap, j: nat, w: Work)
    requires j < INODE_NUM && Fine(d, own, m, j, w) && (j in m' <==> j in m) && (j in m ==> m'[j] == m[j])
    ensures Fine(d, own, m', j, w)
  {
  }

  lemma EndsFine(d: Image, own: Owners, m: FileMap, i: nat, w: Work)
    requires i < INODE_NUM && w.Active? && w.task.Finished? && Fine(d, own, m, i, w)
    ensures IsCall(w.op) && w.op.i == i
    ensures w.task.reply == if i in m then ReplyFor(m[i], w.op) else DeadReply(w.op)
    ensures Fine(d, own, if i in m then m[i := FileAfter(m[i], w.op)] else m, i, Resting)
  {
  }

  lemma EndMeans(m: FileMap, op: Op)
    requires IsCall(op)
    ensures Meaning(m, op) ==
            if op.i in m then (m[op.i := FileAfter(m[op.i], op)], ReplyFor(m[op.i], op)) else (m, DeadReply(op))
  {
    if op.i in m {
      assert m[op.i := m[op.i]] == m;
    }
  }

  ghost predicate AtRest(work: seq<Work>) {
    forall i :: 0 <= i < |work| ==> work[i].Resting?
  }

  /** Inode i is in order, seen on the whole disk. */
  ghost predicate Stored(d: Image, t: seq<Inode>, ow: Owners, m: FileMap, i: nat) {
    && (i in m <==> Live(t, i))
    && (i in m ==> FileOk(d, t[i], ow, i) && FileOf(d, t[i]) == m[i])
    && (forall b :: b in ow && ow[b].i == i ==> FIRST_DATA <= b < BLOCK_NUM && i in m)
  }

  lemma RestingStored(d: Image, ow: Owners, m: FileMap, i: nat)
    requires i < INODE_NUM && Fine(d, Mine(ow, i), m, i, Resting)
    ensures Stored(d, Table(d), ow, m, i)
  {
    assert Table(d)[i] == InodeAt(d, i);
    if i in m {
      OwnsAll(d, ow, i, Table(d)[i]);
    } else {
      assert forall b :: b in ow && ow[b].i == i ==> b in Mine(ow, i);
    }
  }

  lemma OwnsAll(d: Image, ow: Owners, i: nat, x: Inode)
    requires Own(Mine(ow, i), i) && FileOk(d, x, Mine(ow, i), i)
    ensures FileOk(d, x, ow, i) && forall b :: b in ow && ow[b].i == i ==> FIRST_DATA <= b < BLOCK_NUM
  {
    assert forall b :: b in ow && ow[b].i == i ==> b in Mine(ow, i);
  }

  lemma AllStored(used: set<nat>, d: Image, t: seq<Inode>, ow: Owners, m: FileMap)
    requires used == ow.Keys && |t| == INODE_NUM && (forall b :: b in ow ==> ow[b].i < INODE_NUM)
    requires forall i :: i in m ==> i < INODE_NUM
    requires forall i :: 0 <= i < INODE_NUM ==> Stored(d, t, ow, m, i)
    ensures Agrees(used, t, d, ow) && FilesIn(d, t) == m
  {
    forall b | b in ow
      ensures FIRST_DATA <= b < BLOCK_NUM && Live(t, ow[b].i)
    {
      assert Stored(d, t, ow, m, ow[b].i);
    }
    forall i: nat | Live(t, i)
      ensures FileOk(d, t[i], ow, i) && i in m
    {
      assert Stored(d, t, ow, m, i);
    }
    forall i | i in m
      ensures Live(t, i) && FileOf(d, t[i]) == m[i]
    {
      assert Stored(d, t, ow, m, i);
    }
  }

  /** At rest, the world is a consistent disk that holds the files. */
  lemma WorldAtRest(d: Image, ow: Owners, m: FileMap, work: seq<Work>)
    requires World(d, ow, m, work) && AtRest(work)
    ensures Ownership.Inv(d) && FilesOf(d) == m
  {
    forall i | 0 <= i < INODE_NUM
      ensures Stored(d, Table(d), ow, m, i)
    {
      assert Fine(d, Mine(ow, i), m, i, work[i]);
      RestingStored(d, ow, m, i);
    }
    AllStored(Used(d), d, Table(d), ow, m);
    assert Consistent(d, ow);
  }

  lemma RestsAtFirst(used: set<nat>, t: seq<Inode>, d: Image, ow: Owners, i: nat)
    requires Agrees(used, t, d, ow) && i < INODE_NUM == |t| && t[i] == InodeAt(d, i)
    ensures if Live(t, i) then Holds(d, Mine(ow, i), i, t[i], FileOf(d, t[i])) else Mine(ow, i) == map[]
  {
    if Live(t, i) {
      assert FileOk(d, t[i], ow, i);
    }
  }

  lemma WorldAtFirst(d: Image, ow: Owners, work: seq<Work>)
    requires Consistent(d, ow) && |work| == INODE_NUM && AtRest(work)
    ensures World(d, ow, FilesOf(d), work)
  {
    forall i | 0 <= i < INODE_NUM
      ensures Fine(d, Mine(ow, i), FilesOf(d), i, work[i])
    {
      RestsAtFirst(Used(d), Table(d), d, ow, i);
    }
  }

  // ---- the system -----------------------------------------------------------------------------------------

  /** A lock and a call for every inode, the disk, and the calls completed so far. */
  datatype System = System(lock: seq<RwLock.State>, work: seq<Work>, d: Image, log: seq<(Op, Reply)>)

  ghost predicate Shape(s: System) {
    && |s.lock| == |s.work| == INODE_NUM
    && forall i :: 0 <= i < INODE_NUM && s.work[i].Active? ==> ValidTask(s.work[i].task)
  }

  ghost predicate Init(s: System, d0: Image) {
    && Shape(s) && s.d == d0 && s.log == []
    && AtRest(s.work) && forall i :: 0 <= i < INODE_NUM ==> RwLock.Init(s.lock[i])
  }

  /** A disk access of the call on inode i; alloc_block, if that is the access, finds a free block. */
  ghost predicate AccessStep(s: System, s': System, i: nat)
    requires Shape(s) && i < INODE_NUM && s.work[i].Active?
  {
    var (t', d') := Access(i, s.work[i].task, s.d);
    Room(s.work[i].task, s.d) && s' == s.(work := s.work[i := Active(s.work[i].op, t')], d := d')
  }

  /** A thread has obtained the lock of inode i, for a call whose sizes fit the file. */
  ghost predicate EnterStep(s: System, s': System, i: nat, l': RwLock.State, t: Thread)
    requires Shape(s) && i < INODE_NUM && t < |l'.pc|
  {
    exists op ::
      && CallOn(op, i) && (op.Read? <==> l'.pc[t] == RwLock.RInside)
      && (InodeAt(s.d, i).typ != 0 ==> Fitting(InodeAt(s.d, i).size, op))
      && s' == s.(lock := s.lock[i := l'], work := s.work[i := Active(op, Begin(op))])
  }

  ghost predicate LeaveStep(s: System, s': System, i: nat, l': RwLock.State)
    requires Shape(s) && i < INODE_NUM && s.work[i].Active? && s.work[i].task.Finished?
  {
    s' == s.(lock := s.lock[i := l'], work := s.work[i := Resting],
             log := s.log + [(s.work[i].op, s.work[i].task.reply)])
  }

  /** One step of thread t at inode i: an access while inside, otherwise a statement of the lock. */
  ghost predicate Step(s: System, s': System, i: nat, t: Thread, l': RwLock.State)
    requires Shape(s) && i < INODE_NUM && t < |s.lock[i].pc|
  {
    if RwLock.Inside(s.lock[i].pc[t]) && s.work[i].Active? && !s.work[i].task.Finished? then AccessStep(s, s', i)
    else
      && RwLock.Step(s.lock[i], l', t) && |l'.pc| == |s.lock[i].pc|
      && if RwLock.Inside(s.lock[i].pc[t]) then s.work[i].Active? && LeaveStep(s, s', i, l')
         else if RwLock.Inside(l'.pc[t]) then EnterStep(s, s', i, l', t)
         else s' == s.(lock := s.lock[i := l'])
  }

  /** No two files of the disk, among the numbers that are called, have their records in the same table block. */
  ghost predicate Spread(called: set<nat>, d0: Image) {
    forall i, j :: i in called && j in called && i in FilesOf(d0) && j in FilesOf(d0) && i != j ==>
      InodeBlock(i) != InodeBlock(j)
  }

  ghost predicate Next(s: System, s': System, called: set<nat>) {
    && Shape(s)
    && exists i: nat, t: Thread, l' ::
         i in called && i < INODE_NUM && t < |s.lock[i].pc| && Step(s, s', i, t, l')
  }

  /** A run with calls on the given inodes. */
  ghost predicate IsRun(states: seq<System>, called: set<nat>, d0: Image) {
    && states != [] && Init(states[0], d0)
    && forall n :: 0 <= n < |states| - 1 ==> Next(states[n], states[n + 1], called)
  }

  // ---- the invariant --------------------------------------------------------------------------------------

  predicate Busy(l: RwLock.State) {
    l.mutex.Held? && l.mutex.owner < |l.pc| && RwLock.Inside(l.pc[l.mutex.owner])
  }

  /** The lock of inode i is in order, and a call is active exactly while a thread is inside. */
  ghost predicate Locked(s: System, i: nat, called: set<nat>)
    requires Shape(s) && i < INODE_NUM
  {
    RwLock.Inv(s.lock[i]) && (s.work[i].Active? <==> Busy(s.lock[i])) && (s.work[i].Active? ==> i in called)
  }

  /** On the map of files, the completed calls give the replies in the log and lead to m. */
  ghost predicate Told(d0: Image, log: seq<(Op, Reply)>, m: FileMap) {
    && RunMeaning(FilesOf(d0), Calls(log)) == (m, Replies(log)) && m.Keys == FilesOf(d0).Keys
    && forall k :: 0 <= k < |log| ==> IsCall(log[k].0)
  }

  ghost predicate LocksOk(s: System, called: set<nat>)
    requires Shape(s)
  {
    forall i :: 0 <= i < INODE_NUM ==> Locked(s, i, called)
  }

  ghost predicate Explained(s: System, d0: Image) {
    exists ow, m :: Told(d0, s.log, m) && World(s.d, ow, m, s.work)
  }

  ghost predicate Inv(s: System, called: set<nat>, d0: Image) {
    Shape(s) && LocksOk(s, called) && Explained(s, d0)
  }

  lemma StaysApart(s: System, called: set<nat>, d0: Image, m: FileMap)
    requires Shape(s) && LocksOk(s, called) && Spread(called, d0) && m.Keys == FilesOf(d0).Keys
    ensures Apart(s.work, m)
  {
    forall i: nat, j: nat | Touching(s.work, m, i) && Touching(s.work, m, j) && i != j
      ensures InodeBlock(i) != InodeBlock(j)
    {
      assert Locked(s, i, called) && Locked(s, j, called);
    }
  }

  lemma InitLocks(s: System, called: set<nat>, d0: Image)
    requires Init(s, d0)
    ensures LocksOk(s, called)
  {
    forall i | 0 <= i < INODE_NUM
      ensures Locked(s, i, called)
    {
      assert RwLock.Init(s.lock[i]) && s.work[i].Resting?;
    }
  }

  lemma NothingTold(d0: Image)
    ensures Told(d0, [], FilesOf(d0))
  {
    assert Calls([]) == [] && Replies([]) == [];
  }

  lemma InitExplained(s: System, d0: Image)
    requires Init(s, d0) && Ownership.Inv(d0)
    ensures Explained(s, d0)
  {
    var ow :| Consistent(d0, ow);
    NothingTold(d0);
    WorldAtFirst(d0, ow, s.work);
  }

  lemma AccessExplained(s: System, s': System, i: nat, called: set<nat>, d0: Image)
    requires Inv(s, called, d0) && Spread(called, d0) && i < INODE_NUM
    requires s.work[i].Active? && !s.work[i].task.Finished? && AccessStep(s, s', i)
    ensures Explained(s', d0)
  {
    var ow, m :| Told(d0, s.log, m) && World(s.d, ow, m, s.work);
    StaysApart(s, called, d0, m);
    var ow' := WorldAccess(s.d, ow, m, s.work, i);
    assert World(s'.d, ow', m, s'.work);
  }

  lemma AccessLocks(s: System, s': System, i: nat, called: set<nat>)
    requires Shape(s) && LocksOk(s, called) && i < INODE_NUM && s.work[i].Active? && AccessStep(s, s', i)
    ensures Shape(s') && LocksOk(s', called)
  {
    forall j | 0 <= j < INODE_NUM
      ensures Locked(s', j, called)
    {
      assert Locked(s, j, called);
    }
  }

  lemma {:induction false} RunMeaningAppend(m: FileMap, ops: seq<Op>, op: Op)
    ensures var (m', rs) := RunMeaning(m, ops);
            RunMeaning(m, ops + [op]) == (Meaning(m', op).0, rs + [Meaning(m', op).1])
    decreases |ops|
  {
    if ops == [] {
      assert ops + [op] == [op] && [op][1..] == [];
      assert RunMeaning(Meaning(m, op).0, []) == (Meaning(m, op).0, []);
      assert [Meaning(m, op).1] + [] == [] + [Meaning(m, op).1];
    } else {
      var (m1, r) := Meaning(m, ops[0]);
      RunMeaningAppend(m1, ops[1..], op);
      assert (ops + [op])[1..] == ops[1..] + [op] && (ops + [op])[0] == ops[0];
      var (m', rs) := RunMeaning(m1, ops[1..]);
      assert [r] + (rs + [Meaning(m', op).1]) == [r] + rs + [Meaning(m', op).1];
    }
  }

  lemma LogGrows(d0: Image, log: seq<(Op, Reply)>, m: FileMap, op: Op)
    requires Told(d0, log, m) && IsCall(op)
    ensures Told(d0, log + [(op, Meaning(m, op).1)], Meaning(m, op).0)
  {
    var log' := log + [(op, Meaning(m, op).1)];
    RunMeaningAppend(FilesOf(d0), Calls(log), op);
    assert Calls(log') == Calls(log) + [op] && Replies(log') == Replies(log) + [Meaning(m, op).1];
  }

  lemma LeaveExplained(s: System, s': System, i: nat, l': RwLock.State, d0: Image)
    requires Shape(s) && Explained(s, d0) && i < INODE_NUM
    requires s.work[i].Active? && s.work[i].task.Finished? && LeaveStep(s, s', i, l')
    ensures Explained(s', d0)
  {
    var ow, m :| Told(d0, s.log, m) && World(s.d, ow, m, s.work);
    WorldEnds(s.d, ow, m, s.work, i);
    LogGrows(d0, s.log, m, s.work[i].op);
    assert World(s'.d, ow, Meaning(m, s.work[i].op).0, s'.work);
  }

  lemma EnterExplained(s: System, s': System, i: nat, l': RwLock.State, t: Thread, d0: Image)
    requires Shape(s) && Explained(s, d0) && i < INODE_NUM && s.work[i].Resting?
    requires t < |l'.pc| && EnterStep(s, s', i, l', t)
    ensures Explained(s', d0)
  {
    var ow, m :| Told(d0, s.log, m) && World(s.d, ow, m, s.work);
    var op :| && CallOn(op, i) && (InodeAt(s.d, i).typ != 0 ==> Fitting(InodeAt(s.d, i).size, op))
              && s' == s.(lock := s.lock[i := l'], work := s.work[i := Active(op, Begin(op))]);
    WorldBegins(s.d, ow, m, s.work, i, op);
    assert World(s'.d, ow, m, s'.work);
  }

  lemma IdleExplained(s: System, s': System, d0: Image)
    requires Explained(s, d0) && s'.d == s.d && s'.log == s.log && s'.work == s.work
    ensures Explained(s', d0)
  {
    var ow, m :| Told(d0, s.log, m) && World(s.d, ow, m, s.work);
    assert World(s'.d, ow, m, s'.work);
  }

  /** What a statement of a lock does to the presence of a call. */
  lemma LockSeen(l: RwLock.State, l': RwLock.State, t: Thread)
    requires RwLock.Inv(l) && t < |l.pc| && RwLock.Step(l, l', t)
    ensures RwLock.Inv(l') && |l'.pc| == |l.pc|
    ensures RwLock.Inside(l.pc[t]) ==> Busy(l) && !Busy(l')
    ensures !RwLock.Inside(l.pc[t]) && RwLock.Inside(l'.pc[t]) ==> !Busy(l) && Busy(l')
    ensures !RwLock.Inside(l.pc[t]) && !RwLock.Inside(l'.pc[t]) ==> Busy(l') == Busy(l)
  {
    LockSteps(l, l', t);
  }

  /** The locks after a statement of one of them. */
  lemma LocksAfter(s: System, s': System, i: nat, l': RwLock.State, called: set<nat>)
    requires Shape(s) && LocksOk(s, called) && Shape(s') && i < INODE_NUM && i in called
    requires s'.lock == s.lock[i := l'] && forall j :: 0 <= j < INODE_NUM && j != i ==> s'.work[j] == s.work[j]
    requires RwLock.Inv(l') && (s'.work[i].Active? <==> Busy(l'))
    ensures LocksOk(s', called)
  {
    forall j | 0 <= j < INODE_NUM
      ensures Locked(s', j, called)
    {
      assert Locked(s, j, called);
    }
  }

  lemma LeaveKeepsInv(s: System, s': System, i: nat, l': RwLock.State, called: set<nat>, d0: Image)
    requires Inv(s, called, d0) && i < INODE_NUM && i in called && RwLock.Inv(l') && !Busy(l')
    requires s.work[i].Active? && s.work[i].task.Finished? && LeaveStep(s, s', i, l')
    ensures Inv(s', called, d0)
  {
    LeaveExplained(s, s', i, l', d0);
    LocksAfter(s, s', i, l', called);
  }

  lemma EnterKeepsInv(s: System, s': System, i: nat, l': RwLock.State, t: Thread, called: set<nat>, d0: Image)
    requires Inv(s, called, d0) && i < INODE_NUM && i in called && RwLock.Inv(l') && Busy(l')
    requires s.work[i].Resting? && t < |l'.pc| && EnterStep(s, s', i, l', t)
    ensures Inv(s', called, d0)
  {
    EnterExplained(s, s', i, l', t, d0);
    LocksAfter(s, s', i, l', called);
  }

  lemma IdleKeepsInv(s: System, s': System, i: nat, l': RwLock.State, called: set<nat>, d0: Image)
    requires Inv(s, called, d0) && i < INODE_NUM && i in called && RwLock.Inv(l') && (s.work[i].Active? <==> Busy(l'))
    requires s' == s.(lock := s.lock[i := l'])
    ensures Inv(s', called, d0)
  {
    IdleExplained(s, s', d0);
    LocksAfter(s, s', i, l', called);
  }

  lemma LockStepKeepsInv(s: System, s': System, i: nat, t: Thread, l': RwLock.State, called: set<nat>, d0: Image)
    requires Inv(s, called, d0) && i < INODE_NUM && i in called && t < |s.lock[i].pc| && Step(s, s', i, t, l')
    requires RwLock.Inside(s.lock[i].pc[t]) ==> s.work[i].Active? && s.work[i].task.Finished?
    ensures Inv(s', called, d0)
  {
    assert Locked(s, i, called);
    LockSeen(s.lock[i], l', t);
    if RwLock.Inside(s.lock[i].pc[t]) {
      LeaveKeepsInv(s, s', i, l', called, d0);
    } else if RwLock.Inside(l'.pc[t]) {
      EnterKeepsInv(s, s', i, l', t, called, d0);
    } else {
      IdleKeepsInv(s, s', i, l', called, d0);
    }
  }

  lemma StepKeepsInv(s: System, s': System, i: nat, t: Thread, l': RwLock.State, called: set<nat>, d0: Image)
    requires Inv(s, called, d0) && Spread(called, d0)
    requires i < INODE_NUM && i in called && t < |s.lock[i].pc| && Step(s, s', i, t, l')
    ensures Inv(s', called, d0)
  {
    assert Locked(s, i, called);
    if RwLock.Inside(s.lock[i].pc[t]) && !s.work[i].task.Finished? {
      AccessExplained(s, s', i, called, d0);
      AccessLocks(s, s', i, called);
    } else {
      LockStepKeepsInv(s, s', i, t, l', called, d0);
    }
  }

  lemma NextKeepsInv(s: System, s': System, called: set<nat>, d0: Image)
    requires Inv(s, called, d0) && Spread(called, d0) && Next(s, s', called)
    ensures Inv(s', called, d0)
  {
    var i: nat, t: Thread, l' :| i in called && i < INODE_NUM && t < |s.lock[i].pc| && Step(s, s', i, t, l');
    StepKeepsInv(s, s', i, t, l', called, d0);
  }

  lemma InitInv(s: System, called: set<nat>, d0: Image)
    requires Init(s, d0) && Ownership.Inv(d0)
    ensures Inv(s, called, d0)
  {
    InitLocks(s, called, d0);
    InitExplained(s, d0);
  }

  lemma {:induction false} RunInv(states: seq<System>, called: set<nat>, d0: Image, n: nat)
    requires IsRun(states, called, d0) && Spread(called, d0) && Ownership.Inv(d0) && n < |states|
    ensures Inv(states[n], called, d0)
    decreases n
  {
    if n == 0 {
      InitInv(states[0], called, d0);
    } else {
      var m := n - 1;
      RunInv(states, called, d0, m);
      RunStep(states, called, d0, m, n);
    }
  }

  lemma RunStep(states: seq<System>, called: set<nat>, d0: Image, m: nat, n: nat)
    requires IsRun(states, called, d0) && Spread(called, d0) && m + 1 == n < |states| && Inv(states[m], called, d0)
    ensures Inv(states[n], called, d0)
  {
    assert Next(states[m], states[m + 1], called);
    NextKeepsInv(states[m], states[n], called, d0);
  }

  // ---- serializability ------------------------------------------------------------------------------------

  /**
   * Whatever the interleaving: the replies given so far are those of the completed calls, one after another, on
   * the map of files; and whenever no call is active, the disk is consistent and holds exactly those files.
   */
  lemma CallsAreSerial(states: seq<System>, called: set<nat>, d0: Image, n: nat)
    requires IsRun(states, called, d0) && Spread(called, d0) && Ownership.Inv(d0) && n < |states|
    ensures RunMeaning(FilesOf(d0), Calls(states[n].log)).1 == Replies(states[n].log)
    ensures AtRest(states[n].work) ==>
              Ownership.Inv(states[n].d) && FilesOf(states[n].d) == RunMeaning(FilesOf(d0), Calls(states[n].log)).0
  {
    RunInv(states, called, d0, n);
    RestIsSerial(states[n], d0);
  }

  lemma RestIsSerial(s: System, d0: Image)
    requires Explained(s, d0)
    ensures RunMeaning(FilesOf(d0), Calls(s.log)).1 == Replies(s.log)
    ensures AtRest(s.work) ==> Ownership.Inv(s.d) && FilesOf(s.d) == RunMeaning(FilesOf(d0), Calls(s.log)).0
  {
    var ow, m :| Told(d0, s.log, m) && World(s.d, ow, m, s.work);
    if AtRest(s.work) {
      WorldAtRest(s.d, ow, m, s.work);
    }
  }

  /** Every completed read_file returned the whole buffer of the last write_file to the same inode before it. */
  lemma ReadsAreCurrent(states: seq<System>, called: set<nat>, d0: Image, n: nat, r: nat) returns (b: seq<byte>)
    requires IsRun(states, called, d0) && Spread(called, d0) && Ownership.Inv(d0) && n < |states|
    requires r < |states[n].log| && states[n].log[r].0.Read? && states[n].log[r].0.i in FilesOf(d0)
    ensures var i := states[n].log[r].0.i;
            && Current(Calls(states[n].log), r, i, FilesOf(d0)[i].bytes, b)
            && states[n].log[r].1 == Answer(Contents(|b|, b))
  {
    RunInv(states, called, d0, n);
    b := LoggedRead(states[n].log, d0, r, states[n]);
  }

  lemma LoggedRead(log: seq<(Op, Reply)>, d0: Image, r: nat, s: System) returns (b: seq<byte>)
    requires Explained(s, d0) && s.log == log && r < |log| && log[r].0.Read? && log[r].0.i in FilesOf(d0)
    ensures Current(Calls(log), r, log[r].0.i, FilesOf(d0)[log[r].0.i].bytes, b) && log[r].1 == Answer(Contents(|b|, b))
  {
    var ow, m :| Told(d0, s.log, m) && World(s.d, ow, m, s.work);
    b := ToldRead(log, FilesOf(d0), r, m);
  }

  lemma ToldRead(log: seq<(Op, Reply)>, m0: FileMap, r: nat, m: FileMap) returns (b: seq<byte>)
    requires RunMeaning(m0, Calls(log)) == (m, Replies(log)) && forall k :: 0 <= k < |log| ==> IsCall(log[k].0)
    requires r < |log| && log[r].0.Read? && log[r].0.i in m0
    ensures Current(Calls(log), r, log[r].0.i, m0[log[r].0.i].bytes, b) && log[r].1 == Answer(Contents(|b|, b))
  {
    b := ReadsLastWritten(m0, Calls(log), log[r].0.i, r);
    assert Replies(log)[r] == log[r].1;
  }
}
