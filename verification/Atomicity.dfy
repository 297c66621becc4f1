/**
 * Concurrent read_file and write_file calls on one inode.  Threads interleave at every statement of the lock and
 * at every disk access; the calls nevertheless take effect one after another.
 */
module Atomicity {
  import opened Layout
  import opened DiskImage
  import opened FileOps
  import opened Files
  import opened Refinement
  import opened Accesses
  import RwLock

  type Thread = nat

  /** The lock, the disk, every thread's current call and its place in it, and the calls completed so far. */
  datatype System = System(
    lock: RwLock.State, d: Image, call: seq<Op>, task: seq<Task>, log: seq<(Op, Reply)>)

  /** A call on inode i: one that reads it or one that writes it. */
  predicate CallOn(op: Op, i: nat) {
    (op.Read? || op.Write?) && op.i == i
  }

  function BeginTask(op: Op): Task
    requires op.Read? || op.Write?
  {
    match op
    case Write(_, data, g) => WBegin(data, g)
    case Read(_, now, g) => RBegin(now, g)
  }

  predicate Shape(s: System, i: nat) {
    i < INODE_NUM && |s.call| == |s.task| == |s.lock.pc| && forall t :: 0 <= t < |s.task| ==> ValidTask(s.task[t])
  }

  ghost predicate Init(s: System, i: nat, d0: Image) {
    Shape(s, i) && RwLock.Init(s.lock) && s.d == d0 && s.log == []
  }

  /** A disk access by thread t. */
  ghost predicate AccessStep(s: System, s': System, t: Thread, i: nat)
    requires Shape(s, i) && t < |s.task|
  {
    var (t', d') := Access(i, s.task[t], s.d);
    s' == s.(task := s.task[t := t'], d := d')
  }

  /** Thread t has obtained the lock for a call: read_file enters as a reader, write_file as a writer. */
  ghost predicate EnterStep(s: System, s': System, t: Thread, i: nat)
    requires Shape(s, i) && t < |s.task| && t < |s'.lock.pc|
  {
    exists op ::
      && CallOn(op, i) && (op.Read? <==> s'.lock.pc[t] == RwLock.RInside)
      && s' == s.(lock := s'.lock, call := s.call[t := op], task := s.task[t := BeginTask(op)])
  }

  /** One step of thread t: an access while inside, otherwise a statement of the lock. */
  ghost predicate Step(s: System, s': System, t: Thread, i: nat)
    requires Shape(s, i) && t < |s.task|
  {
    if RwLock.Inside(s.lock.pc[t]) && !s.task[t].Finished? then AccessStep(s, s', t, i)
    else
      && RwLock.Step(s.lock, s'.lock, t) && |s'.lock.pc| == |s.lock.pc|
      && if RwLock.Inside(s.lock.pc[t]) then
           s' == s.(lock := s'.lock, log := s.log + [(s.call[t], s.task[t].reply)])
         else if RwLock.Inside(s'.lock.pc[t]) then EnterStep(s, s', t, i)
         else s' == s.(lock := s'.lock)
  }

  ghost predicate Next(s: System, s': System, i: nat) {
    Shape(s, i) && exists t: Thread :: t < |s.task| && Step(s, s', t, i)
  }

  ghost predicate IsRun(states: seq<System>, i: nat, d0: Image) {
    && states != [] && Init(states[0], i, d0)
    && forall n :: 0 <= n < |states| - 1 ==> Next(states[n], states[n + 1], i)
  }

  // ---- the sequential reading of the log ------------------------------------------------------------------

  function Calls(log: seq<(Op, Reply)>): (ops: seq<Op>)
    ensures |ops| == |log|
  {
    seq(|log|, n requires 0 <= n < |log| => log[n].0)
  }

  function Replies(log: seq<(Op, Reply)>): (rs: seq<Reply>)
    ensures |rs| == |log|
  {
    seq(|log|, n requires 0 <= n < |log| => log[n].1)
  }

  /** Executed one after another from d0, the logged calls give the logged replies and lead to d. */
  ghost predicate Sequential(d0: Image, log: seq<(Op, Reply)>, d: Image) {
    Run(d0, Calls(log)) == (Done(d), Replies(log))
  }

  lemma RunOne(d: Image, op: Op, ops: seq<Op>, d': Image, r: Reply)
    requires ops != [] && ops[0] == op && Exec(d, op) == (Done(d'), r)
    ensures Run(d, ops) == (Run(d', ops[1..]).0, [r] + Run(d', ops[1..]).1)
  {
  }

  lemma {:induction false} RunAppend(d: Image, ops: seq<Op>, op: Op, d1: Image, rs: seq<Reply>, d2: Image, r: Reply)
    requires Run(d, ops) == (Done(d1), rs) && Exec(d1, op) == (Done(d2), r)
    ensures Run(d, ops + [op]) == (Done(d2), rs + [r])
    decreases |ops|
  {
    var all := ops + [op];
    if ops == [] {
      assert all[1..] == [];
      RunOne(d, op, all, d2, r);
      assert d1 == d && rs == [];
      assert [r] + [] == rs + [r];
    } else {
      assert Exec(d, ops[0]).0 != Crashed;
      var d', r0 := Exec(d, ops[0]).0.d, Exec(d, ops[0]).1;
      RunOne(d, ops[0], ops, d', r0);
      RunAppend(d', ops[1..], op, d1, rs[1..], d2, r);
      assert all[1..] == ops[1..] + [op];
      RunOne(d, ops[0], all, d', r0);
      assert [r0] + (rs[1..] + [r]) == rs + [r];
    }
  }

  lemma SequentialAppend(d0: Image, log: seq<(Op, Reply)>, d: Image, op: Op, r: Reply, d': Image)
    requires Sequential(d0, log, d) && Exec(d, op) == (Done(d'), r)
    ensures Sequential(d0, log + [(op, r)], d')
  {
    RunAppend(d0, Calls(log), op, d, Replies(log), d', r);
    assert Calls(log + [(op, r)]) == Calls(log) + [op];
    assert Replies(log + [(op, r)]) == Replies(log) + [r];
  }

  // ---- the invariant --------------------------------------------------------------------------------------

  /** The thread between enter and exit, if there is one. */
  predicate Busy(s: System, i: nat)
    requires Shape(s, i)
  {
    s.lock.mutex.Held? && s.lock.mutex.owner < |s.task| && RwLock.Inside(s.lock.pc[s.lock.mutex.owner])
  }

  /** The rest of thread t's call does what the whole call does on the disk d. */
  ghost predicate OnCourse(s: System, t: Thread, i: nat, d: Image)
    requires Shape(s, i) && t < |s.task|
  {
    var (d', r) := Denotation(i, s.task[t], s.d);
    CallOn(s.call[t], i) && Exec(d, s.call[t]) == (Done(d'), r)
  }

  /** Nobody is inside and the disk is d; or one thread is inside, on course from d. */
  ghost predicate Explains(s: System, i: nat, d: Image)
    requires Shape(s, i)
  {
    if Busy(s, i) then OnCourse(s, s.lock.mutex.owner, i, d) else s.d == d
  }

  predicate CallsOn(log: seq<(Op, Reply)>, i: nat) {
    forall n :: 0 <= n < |log| ==> CallOn(log[n].0, i)
  }

  /** The log leads to a disk that explains the present one. */
  ghost predicate Inv(s: System, i: nat, d0: Image) {
    && Shape(s, i) && RwLock.Inv(s.lock) && CallsOn(s.log, i)
    && exists d :: Sequential(d0, s.log, d) && Explains(s, i, d)
  }

  lemma InitInv(s: System, i: nat, d0: Image)
    requires Init(s, i, d0)
    ensures Inv(s, i, d0)
  {
    assert Calls(s.log) == [];
    assert Sequential(d0, s.log, d0);
    assert Explains(s, i, d0);
  }

  /** A statement of the lock by t, seen from the call: the owner is inside, and others stay out. */
  lemma LockSteps(l: RwLock.State, l': RwLock.State, t: Thread)
    requires RwLock.Inv(l) && t < |l.pc| && RwLock.Step(l, l', t)
    ensures RwLock.Inv(l') && |l'.pc| == |l.pc|
    ensures RwLock.Inside(l.pc[t]) ==> l.mutex == l'.mutex == RwLock.Held(t) && !RwLock.Inside(l'.pc[t])
    ensures RwLock.Inside(l'.pc[t]) ==> l.mutex == l'.mutex == RwLock.Held(t)
    ensures l'.mutex.Held? && l'.mutex.owner != t ==>
              l'.mutex == l.mutex && l'.pc[l'.mutex.owner] == l.pc[l.mutex.owner]
    ensures l.mutex.Held? && l.mutex.owner != t ==> l'.mutex == l.mutex
  {
    RwLock.StepKeepsInv(l, l', t);
  }

  lemma AccessKeepsInv(s: System, s': System, t: Thread, i: nat, d0: Image)
    requires Inv(s, i, d0) && t < |s.task| && RwLock.Inside(s.lock.pc[t]) && AccessStep(s, s', t, i)
    ensures Inv(s', i, d0)
  {
    var d :| Sequential(d0, s.log, d) && Explains(s, i, d);
    assert s.lock.mutex == RwLock.Held(t);
    AccessKeepsDenotation(i, s.task[t], s.d);
    assert OnCourse(s', t, i, d);
    assert Explains(s', i, d);
  }

  lemma LeaveKeepsInv(s: System, s': System, t: Thread, i: nat, d0: Image)
    requires Inv(s, i, d0) && t < |s.task| && RwLock.Inside(s.lock.pc[t]) && s.task[t].Finished? && Step(s, s', t, i)
    ensures Inv(s', i, d0)
  {
    var d :| Sequential(d0, s.log, d) && Explains(s, i, d);
    assert s.lock.mutex == RwLock.Held(t);
    FinishedCall(s, t, i, d);
    SequentialAppend(d0, s.log, d, s.call[t], s.task[t].reply, s.d);
    LockSteps(s.lock, s'.lock, t);
    assert Explains(s', i, s.d);
  }

  lemma FinishedCall(s: System, t: Thread, i: nat, d: Image)
    requires Shape(s, i) && t < |s.task| && s.task[t].Finished? && OnCourse(s, t, i, d)
    ensures CallOn(s.call[t], i) && Exec(d, s.call[t]) == (Done(s.d), s.task[t].reply)
  {
  }

  lemma BeginMeans(op: Op, i: nat, d: Image)
    requires CallOn(op, i) && i < INODE_NUM
    ensures var (d', r) := Denotation(i, BeginTask(op), d); Exec(d, op) == (Done(d'), r)
  {
  }

  lemma EnterKeepsInv(s: System, s': System, t: Thread, i: nat, d0: Image)
    requires Inv(s, i, d0) && t < |s.task| && !RwLock.Inside(s.lock.pc[t]) && Step(s, s', t, i)
    requires RwLock.Inside(s'.lock.pc[t])
    ensures Inv(s', i, d0)
  {
    var d :| Sequential(d0, s.log, d) && Explains(s, i, d);
    LockSteps(s.lock, s'.lock, t);
    assert s.lock.mutex == RwLock.Held(t) && s'.lock.mutex == RwLock.Held(t);
    EnteredOnCourse(s, s', t, i);
    assert Explains(s', i, d);
  }

  lemma EnteredOnCourse(s: System, s': System, t: Thread, i: nat)
    requires Shape(s, i) && Shape(s', i) && t < |s.task| && |s'.task| == |s.task| && EnterStep(s, s', t, i)
    ensures OnCourse(s', t, i, s.d)
  {
    BeginMeans(s'.call[t], i, s.d);
  }

  lemma LockKeepsInv(s: System, s': System, t: Thread, i: nat, d0: Image)
    requires Inv(s, i, d0) && t < |s.task| && !RwLock.Inside(s.lock.pc[t]) && Step(s, s', t, i)
    requires !RwLock.Inside(s'.lock.pc[t])
    ensures Inv(s', i, d0)
  {
    var d :| Sequential(d0, s.log, d) && Explains(s, i, d);
    LockSteps(s.lock, s'.lock, t);
    assert Explains(s', i, d);
  }

  lemma StepKeepsInv(s: System, s': System, t: Thread, i: nat, d0: Image)
    requires Inv(s, i, d0) && t < |s.task| && Step(s, s', t, i)
    ensures Inv(s', i, d0)
  {
    if RwLock.Inside(s.lock.pc[t]) {
      if s.task[t].Finished? {
        LeaveKeepsInv(s, s', t, i, d0);
      } else {
        AccessKeepsInv(s, s', t, i, d0);
      }
    } else if RwLock.Inside(s'.lock.pc[t]) {
      EnterKeepsInv(s, s', t, i, d0);
    } else {
      LockKeepsInv(s, s', t, i, d0);
    }
  }

  lemma {:induction false} RunInv(states: seq<System>, i: nat, d0: Image, n: nat)
    requires IsRun(states, i, d0) && n < |states|
    ensures Inv(states[n], i, d0)
    decreases n
  {
    if n == 0 {
      InitInv(states[0], i, d0);
    } else {
      RunInv(states, i, d0, n - 1);
      assert Next(states[n - 1], states[n - 1 + 1], i);
      var t: Thread :| t < |states[n - 1].task| && Step(states[n - 1], states[n], t, i);
      StepKeepsInv(states[n - 1], states[n], t, i, d0);
    }
  }

  // ---- atomicity ------------------------------------------------------------------------------------------

  /**
   * Whatever the interleaving: the replies given so far are those of the completed calls executed one after
   * another, and whenever nobody is inside, so is the disk.
   */
  lemma CallsAreAtomic(states: seq<System>, i: nat, d0: Image, n: nat)
    requires IsRun(states, i, d0) && n < |states|
    ensures Run(d0, Calls(states[n].log)).1 == Replies(states[n].log)
    ensures (forall t :: 0 <= t < |states[n].lock.pc| ==> !RwLock.Inside(states[n].lock.pc[t])) ==>
              Run(d0, Calls(states[n].log)).0 == Done(states[n].d)
  {
    RunInv(states, i, d0, n);
  }

  /** A write to inode i that write_file does not turn away. */
  predicate Effective(op: Op, i: nat) {
    op.Write? && op.i == i && |op.data| <= MAX_BYTES
  }

  /** The last effective write to i among ops[..n] is ops[w], and it wrote b. */
  ghost predicate LastWrite(ops: seq<Op>, n: nat, i: nat, b: seq<byte>, w: nat)
    requires w < n <= |ops|
  {
    Effective(ops[w], i) && ops[w].data == b && forall v :: w < v < n ==> !Effective(ops[v], i)
  }

  /** b is what the last effective write to i among ops[..n] wrote, or b0 if there is none. */
  ghost predicate Current(ops: seq<Op>, n: nat, i: nat, b0: seq<byte>, b: seq<byte>)
    requires n <= |ops|
  {
    || (b == b0 && forall w :: 0 <= w < n ==> !Effective(ops[w], i))
    || exists w :: 0 <= w < n && LastWrite(ops, n, i, b, w)
  }

  lemma CurrentStep(ops: seq<Op>, n: nat, i: nat, b0: seq<byte>, b1: seq<byte>, b: seq<byte>)
    requires 0 < n <= |ops| && b1 == (if Effective(ops[0], i) then ops[0].data else b0)
    requires Current(ops[1..], n - 1, i, b1, b)
    ensures Current(ops, n, i, b0, b)
  {
    var rest, m := ops[1..], n - 1;
    assert forall w :: 0 < w < n ==> ops[w] == rest[w - 1];
    if w :| 0 <= w < m && LastWrite(rest, m, i, b, w) {
      assert LastWrite(ops, n, i, b, w + 1);
    } else if Effective(ops[0], i) {
      assert LastWrite(ops, n, i, b, 0);
    }
  }

  /** On the map of files, the n-th call, if it reads inode i, gets what was last written to it. */
  lemma {:induction false} ReadsLastWritten(m: FileMap, ops: seq<Op>, i: nat, n: nat) returns (b: seq<byte>)
    requires i in m && n < |ops| && (forall k :: 0 <= k < |ops| ==> ops[k].Read? || ops[k].Write?)
    requires ops[n].Read? && ops[n].i == i
    ensures Current(ops, n, i, m[i].bytes, b)
    ensures |RunMeaning(m, ops).1| == |ops| && RunMeaning(m, ops).1[n] == Answer(Contents(|b|, b))
    decreases n
  {
    RunMeaningLength(m, ops);
    if n == 0 {
      b := m[i].bytes;
    } else {
      var m1 := Meaning(m, ops[0]).0;
      b := ReadsLastWritten(m1, ops[1..], i, n - 1);
      CurrentStep(ops, n, i, m[i].bytes, m1[i].bytes, b);
    }
  }

  /**
   * From a consistent disk with a file i, while the completed calls were good: every completed read_file returned
   * the whole buffer of the last write_file to complete before it, or the initial contents.
   */
  lemma ReadsAreWhole(states: seq<System>, i: nat, d0: Image, n: nat, r: nat) returns (b: seq<byte>)
    requires IsRun(states, i, d0) && n < |states| && r < |states[n].log| && states[n].log[r].0.Read?
    requires Ownership.Inv(d0) && i in FilesOf(d0) && GoodRun(FilesOf(d0), Calls(states[n].log))
    ensures Current(Calls(states[n].log), r, i, FilesOf(d0)[i].bytes, b)
    ensures states[n].log[r].1 == Answer(Contents(|b|, b))
  {
    var log := states[n].log;
    RunInv(states, i, d0, n);
    RunRefines(d0, Calls(log));
    b := ReadsLastWritten(FilesOf(d0), Calls(log), i, r);
    assert Replies(log)[r] == log[r].1;
  }

  // ---- calls complete -------------------------------------------------------------------------------------

  ghost predicate StepsTo(s: System, s': System, t: Thread, i: nat) {
    Shape(s, i) && t < |s.task| && Step(s, s', t, i)
  }

  /** Steps of thread t alone. */
  ghost predicate Solo(states: seq<System>, t: Thread, i: nat) {
    states != [] && forall n :: 0 <= n < |states| - 1 ==> StepsTo(states[n], states[n + 1], t, i)
  }

  ghost predicate LeadsAlone(s: System, s': System, t: Thread, i: nat) {
    exists states :: Solo(states, t, i) && states[0] == s && states[|states| - 1] == s'
  }

  lemma AloneSelf(s: System, t: Thread, i: nat)
    ensures LeadsAlone(s, s, t, i)
  {
    assert Solo([s], t, i);
  }

  lemma AloneOn(o: System, s: System, s': System, t: Thread, i: nat)
    requires LeadsAlone(o, s, t, i) && StepsTo(s, s', t, i)
    ensures LeadsAlone(o, s', t, i)
  {
    var states :| Solo(states, t, i) && states[0] == o && states[|states| - 1] == s;
    SoloOn(states, s', t, i);
    assert Solo(states + [s'], t, i);
  }

  lemma SoloOn(states: seq<System>, s': System, t: Thread, i: nat)
    requires Solo(states, t, i) && StepsTo(states[|states| - 1], s', t, i)
    ensures Solo(states + [s'], t, i)
  {
    var more := states + [s'];
    forall n | 0 <= n < |more| - 1
      ensures StepsTo(more[n], more[n + 1], t, i)
    {
      assert more[n] == states[n];
      if n + 1 < |states| {
        assert more[n + 1] == states[n + 1];
      }
    }
  }

  /** A statement of the lock outside the critical section. */
  lemma LockMoves(s: System, t: Thread, i: nat, l: RwLock.State, l': RwLock.State)
    requires Shape(s, i) && t < |s.task| == |l.pc| == |l'.pc| && RwLock.Step(l, l', t)
    requires !RwLock.Inside(l.pc[t]) && !RwLock.Inside(l'.pc[t])
    ensures StepsTo(s.(lock := l), s.(lock := l'), t, i)
  {
  }

  lemma {:induction false} LockPath(o: System, s: System, ls: seq<RwLock.State>, t: Thread, i: nat, n: nat)
    requires Shape(s, i) && t < |s.task| && n < |ls| && LeadsAlone(o, s.(lock := ls[0]), t, i)
    requires RwLock.Solo(ls, t) && RwLock.Outside(ls, t) && forall k :: 0 <= k < |ls| ==> |ls[k].pc| == |s.task|
    ensures LeadsAlone(o, s.(lock := ls[n]), t, i)
    decreases n
  {
    if n > 0 {
      var m := n - 1;
      LockPath(o, s, ls, t, i, m);
      assert RwLock.Step(ls[m], ls[m + 1], t) && !RwLock.Inside(ls[m].pc[t]) && !RwLock.Inside(ls[m + 1].pc[t]);
      LockMoves(s, t, i, ls[m], ls[n]);
      AloneOn(o, s.(lock := ls[m]), s.(lock := ls[n]), t, i);
    }
  }

  lemma ThreadsKept(ls: seq<RwLock.State>, t: Thread)
    requires RwLock.Solo(ls, t) && RwLock.Inv(ls[0])
    ensures forall k :: 0 <= k < |ls| ==> |ls[k].pc| == |ls[0].pc|
  {
    forall k | 0 <= k < |ls|
      ensures |ls[k].pc| == |ls[0].pc|
    {
      RwLock.SoloKeepsThreads(ls, t, k);
    }
  }

  /** The lock's own invariant, and the shape of the system. */
  ghost predicate Sound(s: System, i: nat, n: nat) {
    Shape(s, i) && RwLock.Inv(s.lock) && |s.task| == n
  }

  lemma StepSound(s: System, s': System, t: Thread, i: nat, n: nat)
    requires Sound(s, i, n) && t < n && Step(s, s', t, i)
    ensures Sound(s', i, n)
  {
    if RwLock.Inside(s.lock.pc[t]) && !s.task[t].Finished? {
    } else {
      RwLock.StepKeepsInv(s.lock, s'.lock, t);
    }
  }

  lemma {:induction false} SoloSound(states: seq<System>, t: Thread, i: nat, n: nat, k: nat)
    requires Solo(states, t, i) && Sound(states[0], i, n) && t < n && k < |states|
    ensures Sound(states[k], i, n)
    decreases k
  {
    if k > 0 {
      SoloSound(states, t, i, n, k - 1);
      assert StepsTo(states[k - 1], states[k - 1 + 1], t, i);
      StepSound(states[k - 1], states[k], t, i, n);
    }
  }

  lemma AloneSound(s: System, s': System, t: Thread, i: nat, n: nat)
    requires LeadsAlone(s, s', t, i) && Sound(s, i, n) && t < n
    ensures Sound(s', i, n)
  {
    var states :| Solo(states, t, i) && states[0] == s && states[|states| - 1] == s';
    SoloSound(states, t, i, n, |states| - 1);
  }

  /** Up to the last statement of enter. */
  lemma Approach(s: System, ls: seq<RwLock.State>, t: Thread, i: nat, n: nat)
    requires Shape(s, i) && t < |s.task| && RwLock.Solo(ls, t) && ls[0] == s.lock && |ls| == n + 1 && n > 0
    requires RwLock.Outside(ls[..n], t) && forall k :: 0 <= k < |ls| ==> |ls[k].pc| == |s.task|
    ensures LeadsAlone(s, s.(lock := ls[n - 1]), t, i)
  {
    SoloPrefix(ls, t, n);
    AloneSelf(s, t, i);
    assert s.(lock := ls[0]) == s;
    LockPath(s, s, ls[..n], t, i, n - 1);
  }

  /** The thread enters for the call op. */
  lemma EnterAlone(s: System, t: Thread, i: nat, op: Op) returns (s': System)
    requires Sound(s, i, |s.task|) && RwLock.Quiet(s.lock) && t < |s.task| && s.lock.pc[t] == RwLock.Idle
    requires CallOn(op, i)
    ensures LeadsAlone(s, s', t, i)
    ensures s' == s.(lock := s'.lock, call := s.call[t := op], task := s.task[t := BeginTask(op)])
    ensures s'.lock.pc == s.lock.pc[t := if op.Read? then RwLock.RInside else RwLock.WInside]
  {
    var ls := RwLock.Enter(s.lock, t, op.Read?);
    var n := |ls| - 1;
    ThreadsKept(ls, t);
    Approach(s, ls, t, i, n);
    s' := s.(lock := ls[n], call := s.call[t := op], task := s.task[t := BeginTask(op)]);
    EnterLast(s, s.(lock := ls[n - 1]), s', ls, t, i, op, n - 1);
  }

  lemma SoloPrefix(ls: seq<RwLock.State>, t: Thread, n: nat)
    requires RwLock.Solo(ls, t) && 0 < n <= |ls|
    ensures RwLock.Solo(ls[..n], t)
  {
  }

  lemma SoloSuffix(ls: seq<RwLock.State>, t: Thread, n: nat)
    requires RwLock.Solo(ls, t) && n < |ls|
    ensures RwLock.Solo(ls[n..], t)
  {
    forall k | 0 <= k < |ls[n..]| - 1
      ensures t < |ls[n..][k].pc| && RwLock.Step(ls[n..][k], ls[n..][k + 1], t)
    {
      assert RwLock.Step(ls[n + k], ls[n + k + 1], t);
    }
  }

  lemma EnterLast(o: System, s: System, s': System, ls: seq<RwLock.State>, t: Thread, i: nat, op: Op, n: nat)
    requires LeadsAlone(o, s, t, i) && Shape(s, i) && t < |s.task| && CallOn(op, i)
    requires RwLock.Solo(ls, t) && n + 1 < |ls| && s.lock == ls[n] && |ls[n + 1].pc| == |ls[n].pc|
    requires !RwLock.Inside(ls[n].pc[t]) && ls[n + 1].pc[t] == if op.Read? then RwLock.RInside else RwLock.WInside
    requires s' == s.(lock := ls[n + 1], call := s.call[t := op], task := s.task[t := BeginTask(op)])
    ensures LeadsAlone(o, s', t, i)
  {
    assert EnterStep(s, s', t, i);
    assert RwLock.Step(ls[n], ls[n + 1], t);
    AloneOn(o, s, s', t, i);
  }

  /** The thread makes its accesses, one by one, to the end of the call. */
  lemma {:induction false} AccessAlone(o: System, s: System, t: Thread, i: nat) returns (s': System)
    requires LeadsAlone(o, s, t, i) && Shape(s, i) && t < |s.task| && RwLock.Inside(s.lock.pc[t])
    ensures LeadsAlone(o, s', t, i) && Shape(s', i) && |s'.task| == |s.task|
    ensures s' == s.(task := s'.task, d := s'.d) && s'.task[t].Finished?
    ensures (s'.d, s'.task[t].reply) == RunAlone(i, s.task[t], s.d)
    decreases Phase(s.task[t]), AccessesLeft(s.task[t])
  {
    if s.task[t].Finished? {
      s' := s;
    } else {
      var (t1, d1) := Access(i, s.task[t], s.d);
      var s1 := s.(task := s.task[t := t1], d := d1);
      assert AccessStep(s, s1, t, i);
      AloneOn(o, s, s1, t, i);
      AccessNearer(i, s.task[t], s.d);
      s' := AccessAlone(o, s1, t, i);
    }
  }

  /** The thread leaves. */
  lemma LeaveAlone(o: System, s: System, t: Thread, i: nat) returns (s': System)
    requires LeadsAlone(o, s, t, i) && Sound(s, i, |s.task|) && t < |s.task|
    requires RwLock.Inside(s.lock.pc[t]) && s.task[t].Finished?
    ensures LeadsAlone(o, s', t, i) && s'.d == s.d && s'.log == s.log + [(s.call[t], s.task[t].reply)]
    ensures s'.lock.pc == s.lock.pc[t := RwLock.Idle] && s'.lock.mutex == RwLock.Nobody
  {
    var ls := RwLock.Leave(s.lock, t);
    ThreadsKept(ls, t);
    var s1 := s.(lock := ls[1], log := s.log + [(s.call[t], s.task[t].reply)]);
    LeaveFirst(o, s, s1, ls, t, i);
    SoloSuffix(ls, t, 1);
    LockPath(o, s1, ls[1..], t, i, |ls| - 2);
    s' := s1.(lock := ls[|ls| - 1]);
  }

  lemma LeaveFirst(o: System, s: System, s1: System, ls: seq<RwLock.State>, t: Thread, i: nat)
    requires LeadsAlone(o, s, t, i) && Shape(s, i) && t < |s.task|
    requires RwLock.Inside(s.lock.pc[t]) && s.task[t].Finished?
    requires RwLock.Solo(ls, t) && 1 < |ls| && s.lock == ls[0] && |ls[1].pc| == |ls[0].pc|
    requires s1 == s.(lock := ls[1], log := s.log + [(s.call[t], s.task[t].reply)])
    ensures LeadsAlone(o, s1, t, i)
  {
    assert RwLock.Step(ls[0], ls[0 + 1], t);
    AloneOn(o, s, s1, t, i);
  }

  /**
   * From every state of every run in which the lock is free, any idle thread can carry out any read_file or
   * write_file by its own steps: it enters, makes every access, answers as the whole operation does, and leaves
   * the disk that the whole operation leaves and the lock free.
   */
  lemma CallCompletes(states: seq<System>, i: nat, d0: Image, n: nat, t: Thread, op: Op) returns (s': System, r: Reply)
    requires IsRun(states, i, d0) && n < |states| && CallOn(op, i)
    requires states[n].lock.mutex == RwLock.Nobody && t < |states[n].task| && t < |states[n].lock.pc|
    requires states[n].lock.pc[t] == RwLock.Idle
    ensures LeadsAlone(states[n], s', t, i) && s'.log == states[n].log + [(op, r)]
    ensures Exec(states[n].d, op) == (Done(s'.d), r)
    ensures s'.lock.pc == states[n].lock.pc && s'.lock.mutex == RwLock.Nobody
  {
    var s := states[n];
    RunInv(states, i, d0, n);
    FreeLockQuiet(s.lock);
    var s1 := EnterAlone(s, t, i, op);
    AloneSound(s, s1, t, i, |s.task|);
    var s2 := AccessAlone(s, s1, t, i);
    AloneSound(s, s2, t, i, |s.task|);
    s' := LeaveAlone(s, s2, t, i);
    r := s2.task[t].reply;
    AloneIsDenotation(i, BeginTask(op), s.d);
    BeginMeans(op, i, s.d);
    assert s.lock.pc[t := s1.lock.pc[t]][t := RwLock.Idle] == s.lock.pc;
  }

  lemma FreeLockQuiet(l: RwLock.State)
    requires RwLock.Inv(l) && l.mutex == RwLock.Nobody
    ensures RwLock.Quiet(l)
  {
  }
}
