/**
 * The bounded blocking queue of rpc/fifo.h as a monitor, for any number of threads, blocking and non-blocking
 * callers, and spurious wakeups.
 */
module Fifo {

  type Thread = nat

  /** What a thread does next.  Locked statements run with the mutex held. */
  datatype Pc<T> =
    | Idle
    | EnqLock(v: T, blocking: bool)   // about to take the mutex, on entry or after a wakeup
    | EnqTest(v: T, blocking: bool)   // locked, at the head of the loop
    | EnqWait(v: T, blocking: bool)   // in pthread_cond_wait on has_space_c_
    | EnqSignal(call: Enq<T>)         // locked, has pushed, about to signal non_empty_c_
    | EnqDone(call: Enq<T>)           // locked, about to return
    | DeqLock
    | DeqTest
    | DeqWait                         // in pthread_cond_wait on non_empty_c_
    | DeqSignal(v: T)                 // locked, has popped v, about to signal has_space_c_
    | DeqDone(v: T)                   // locked, about to return v

  /** A call of enq that has passed its test: the queue length it found there, and its answer. */
  datatype Enq<T> = Enq(v: T, blocking: bool, found: nat, ok: bool)

  datatype Holder = Nobody | Held(owner: Thread)

  /**
   * The queue, its capacity (0: unbounded), the mutex, the threads, the history of both ends of the queue, and the
   * calls that have returned: those of enq, and the values that deq gave to its callers.
   */
  datatype State<T> = State(
    q: seq<T>, max: nat, mutex: Holder, pc: seq<Pc<T>>, enqueued: seq<T>, dequeued: seq<T>,
    calls: seq<Enq<T>>, got: seq<T>)

  predicate Init<T>(s: State<T>) {
    && s.q == [] && s.mutex == Nobody && s.enqueued == [] && s.dequeued == [] && s.calls == [] && s.got == []
    && forall t :: 0 <= t < |s.pc| ==> s.pc[t].Idle?
  }

  function Goto<T>(s: State<T>, t: Thread, p: Pc<T>): State<T>
    requires t < |s.pc|
  {
    s.(pc := s.pc[t := p])
  }

  /** One thread changes from waiting to contending for the mutex again. */
  ghost predicate WakeOne<T>(p: Pc<T>, p': Pc<T>, enq: bool) {
    if enq then p.EnqWait? && p' == EnqLock(p.v, p.blocking) else p.DeqWait? && p'.DeqLock?
  }

  predicate Waiting<T>(p: Pc<T>, enq: bool) {
    if enq then p.EnqWait? else p.DeqWait?
  }

  /** pthread_cond_signal: at least one waiter, if there is one, is woken. */
  ghost predicate Signalled<T>(before: seq<Pc<T>>, after: seq<Pc<T>>, enq: bool) {
    && |after| == |before|
    && (forall t :: 0 <= t < |before| ==> after[t] == before[t] || WakeOne(before[t], after[t], enq))
    && ((exists t :: 0 <= t < |before| && Waiting(before[t], enq)) ==>
          exists t :: 0 <= t < |before| && WakeOne(before[t], after[t], enq))
  }

  /** The loop test of enq. */
  predicate HasSpace<T>(s: State<T>) {
    s.max == 0 || |s.q| < s.max
  }

  ghost predicate Step<T(!new)>(s: State<T>, s': State<T>, t: Thread)
    requires t < |s.pc|
  {
    match s.pc[t]
    case Idle =>
      || s' == Goto(s, t, DeqLock)
      || exists v, blocking :: s' == Goto(s, t, EnqLock(v, blocking))
    case EnqLock(v, blocking) => s.mutex == Nobody && s' == Goto(s, t, EnqTest(v, blocking)).(mutex := Held(t))
    case EnqTest(v, blocking) =>
      if HasSpace(s)
      then s' == Goto(s, t, EnqSignal(Enq(v, blocking, |s.q|, true))).(q := s.q + [v], enqueued := s.enqueued + [v])
      else if blocking then s' == Goto(s, t, EnqWait(v, blocking)).(mutex := Nobody)
      else s' == Goto(s, t, EnqDone(Enq(v, blocking, |s.q|, false)))
    case EnqWait(v, blocking) => s' == Goto(s, t, EnqLock(v, blocking))  // a spurious wakeup
    case EnqSignal(call) => Signalled(s.pc[t := EnqDone(call)], s'.pc, false) && s' == s.(pc := s'.pc)
    case EnqDone(call) => s' == Goto(s, t, Idle).(mutex := Nobody, calls := s.calls + [call])
    case DeqLock => s.mutex == Nobody && s' == Goto(s, t, DeqTest).(mutex := Held(t))
    case DeqTest =>
      if s.q == [] then s' == Goto(s, t, DeqWait).(mutex := Nobody)
      else s' == Goto(s, t, DeqSignal(s.q[0])).(q := s.q[1..], dequeued := s.dequeued + [s.q[0]])
    case DeqWait => s' == Goto(s, t, DeqLock)  // a spurious wakeup
    case DeqSignal(v) =>
      if s.max != 0 && |s.q| < s.max
      then Signalled(s.pc[t := DeqDone(v)], s'.pc, true) && s' == s.(pc := s'.pc)
      else s' == Goto(s, t, DeqDone(v))
    case DeqDone(v) => s' == Goto(s, t, Idle).(mutex := Nobody, got := s.got + [v])
  }

  ghost predicate Next<T(!new)>(s: State<T>, s': State<T>) {
    exists t: Thread :: t < |s.pc| && Step(s, s', t)
  }

  ghost predicate Run<T(!new)>(states: seq<State<T>>) {
    && states != [] && Init(states[0])
    && forall n :: 0 <= n < |states| - 1 ==> Next(states[n], states[n + 1])
  }

  // ---- counting threads -----------------------------------------------------------------------------------

  datatype Kind = WaitingEnq | RunnableEnq | SignallingEnq | WaitingDeq | RunnableDeq | SignallingDeq | Other

  /** A runnable thread still has its loop test ahead of it and is not waiting. */
  function KindOf<T>(p: Pc<T>): Kind {
    match p
    case EnqWait(_, _) => WaitingEnq
    case EnqLock(_, _) => RunnableEnq
    case EnqTest(_, _) => RunnableEnq
    case EnqSignal(_) => SignallingEnq
    case DeqWait => WaitingDeq
    case DeqLock => RunnableDeq
    case DeqTest => RunnableDeq
    case DeqSignal(_) => SignallingDeq
    case Idle => Other
    case EnqDone(_) => Other
    case DeqDone(_) => Other
  }

  function One<T>(p: Pc<T>, k: Kind): nat {
    if KindOf(p) == k then 1 else 0
  }

  function Count<T>(ps: seq<Pc<T>>, k: Kind): nat {
    if ps == [] then 0 else Count(ps[..|ps| - 1], k) + One(ps[|ps| - 1], k)
  }

  lemma {:induction false} CountUpdate<T>(ps: seq<Pc<T>>, t: nat, p: Pc<T>, k: Kind)
    requires t < |ps|
    ensures Count(ps[t := p], k) == Count(ps, k) - One(ps[t], k) + One(p, k)
    decreases |ps|
  {
    var n := |ps| - 1;
    if t == n {
      assert ps[t := p][..n] == ps[..n];
    } else {
      CountUpdate(ps[..n], t, p, k);
      assert ps[t := p][..n] == ps[..n][t := p];
    }
  }

  lemma {:induction false} CountPositive<T>(ps: seq<Pc<T>>, t: nat, k: Kind)
    requires t < |ps| && KindOf(ps[t]) == k
    ensures Count(ps, k) > 0
    decreases |ps|
  {
    var n := |ps| - 1;
    if t < n {
      CountPositive(ps[..n], t, k);
    }
  }

  lemma {:induction false} CountWitness<T>(ps: seq<Pc<T>>, k: Kind) returns (t: nat)
    requires Count(ps, k) > 0
    ensures t < |ps| && KindOf(ps[t]) == k
    decreases |ps|
  {
    var n := |ps| - 1;
    if KindOf(ps[n]) == k {
      t := n;
    } else {
      t := CountWitness(ps[..n], k);
    }
  }

  function WaitingKind(enq: bool): Kind {
    if enq then WaitingEnq else WaitingDeq
  }

  function RunnableKind(enq: bool): Kind {
    if enq then RunnableEnq else RunnableDeq
  }

  /** Some threads, each either unchanged or woken. */
  ghost predicate Woken<T>(before: seq<Pc<T>>, after: seq<Pc<T>>, enq: bool) {
    && |after| == |before|
    && forall t :: 0 <= t < |before| ==> after[t] == before[t] || WakeOne(before[t], after[t], enq)
  }

  /** Waking moves threads from waiting to runnable and changes no other count. */
  lemma {:induction false} CountWoken<T>(before: seq<Pc<T>>, after: seq<Pc<T>>, enq: bool, k: Kind)
    requires Woken(before, after, enq)
    ensures k == RunnableKind(enq) ==> Count(after, k) >= Count(before, k)
    ensures k == WaitingKind(enq) ==> Count(after, k) <= Count(before, k)
    ensures k != RunnableKind(enq) && k != WaitingKind(enq) ==> Count(after, k) == Count(before, k)
    decreases |before|
  {
    if before != [] {
      var n := |before| - 1;
      CountWoken(before[..n], after[..n], enq, k);
    }
  }

  lemma {:induction false} CountWokenMore<T>(before: seq<Pc<T>>, after: seq<Pc<T>>, enq: bool, t: nat)
    requires Woken(before, after, enq) && t < |before| && WakeOne(before[t], after[t], enq)
    ensures Count(after, RunnableKind(enq)) >= Count(before, RunnableKind(enq)) + 1
    decreases |before|
  {
    var n := |before| - 1;
    if t == n {
      CountWoken(before[..n], after[..n], enq, RunnableKind(enq));
    } else {
      CountWokenMore(before[..n], after[..n], enq, t);
    }
  }

  /** After a signal, either one more thread is runnable or nobody waits. */
  lemma CountSignalled<T>(before: seq<Pc<T>>, after: seq<Pc<T>>, enq: bool)
    requires Signalled(before, after, enq)
    ensures Count(after, WaitingKind(enq)) > 0 ==>
              Count(after, RunnableKind(enq)) >= Count(before, RunnableKind(enq)) + 1
  {
    if Count(after, WaitingKind(enq)) > 0 {
      CountWoken(before, after, enq, WaitingKind(enq));
      var t := CountWitness(before, WaitingKind(enq));
      assert Waiting(before[t], enq);
      var u :| 0 <= u < |before| && WakeOne(before[u], after[u], enq);
      CountWokenMore(before, after, enq, u);
    }
  }

  // ---- the invariant --------------------------------------------------------------------------------------

  predicate Locked<T>(p: Pc<T>) {
    p.EnqTest? || p.EnqSignal? || p.EnqDone? || p.DeqTest? || p.DeqSignal? || p.DeqDone?
  }

  /** The mutex is held by exactly the thread that runs a locked statement. */
  ghost predicate MutexOk<T>(s: State<T>) {
    && (forall t :: 0 <= t < |s.pc| ==> (Locked(s.pc[t]) <==> s.mutex == Held(t)))
    && (s.mutex.Held? ==> s.mutex.owner < |s.pc|)
  }

  /** Capacity, and order: what was dequeued, then what is queued, is what was enqueued. */
  ghost predicate QueueOk<T>(s: State<T>) {
    && s.enqueued == s.dequeued + s.q
    && (s.max > 0 ==> |s.q| <= s.max)
    && (s.max > 0 && s.mutex.Held? && s.mutex.owner < |s.pc| && s.pc[s.mutex.owner].DeqSignal? ==> |s.q| < s.max)
  }

  /** Waiters are covered: enough runnable threads, or a signal about to be sent, for what there is to take. */
  ghost predicate WakeupsOk<T>(s: State<T>) {
    && (Count(s.pc, WaitingDeq) > 0 ==> |s.q| <= Count(s.pc, RunnableDeq) + Count(s.pc, SignallingEnq))
    && (Count(s.pc, WaitingEnq) > 0 ==>
          s.max > 0 && s.max - |s.q| <= Count(s.pc, RunnableEnq) + Count(s.pc, SignallingDeq))
  }

  /** A call answers true if it found space, and false if it found none and may not wait. */
  predicate CallOk<T>(call: Enq<T>, max: nat) {
    if call.ok then max == 0 || call.found < max else !call.blocking && max > 0 && call.found == max
  }

  /** The values of the calls that answered true, in the order in which they returned. */
  function Accepted<T>(calls: seq<Enq<T>>): seq<T> {
    if calls == [] then []
    else
      var n := |calls| - 1;
      Accepted(calls[..n]) + if calls[n].ok then [calls[n].v] else []
  }

  /** What a thread at p has put into the queue without having returned yet. */
  function Putting<T>(p: Pc<T>): seq<T> {
    if (p.EnqSignal? || p.EnqDone?) && p.call.ok then [p.call.v] else []
  }

  /** What it has taken out without having returned yet. */
  function Taking<T>(p: Pc<T>): seq<T> {
    if p.DeqSignal? || p.DeqDone? then [p.v] else []
  }

  function HolderPc<T>(s: State<T>): Pc<T> {
    if s.mutex.Held? && s.mutex.owner < |s.pc| then s.pc[s.mutex.owner] else Idle
  }

  /** Answers agree with the queue. */
  ghost predicate AnswersOk<T>(s: State<T>) {
    && s.enqueued == Accepted(s.calls) + Putting(HolderPc(s)) && s.dequeued == s.got + Taking(HolderPc(s))
    && (forall n :: 0 <= n < |s.calls| ==> CallOk(s.calls[n], s.max))
    && (forall t :: 0 <= t < |s.pc| && s.pc[t].EnqWait? ==> s.pc[t].blocking)
    && (forall t :: 0 <= t < |s.pc| && (s.pc[t].EnqSignal? || s.pc[t].EnqDone?) ==> CallOk(s.pc[t].call, s.max))
    && (forall t :: 0 <= t < |s.pc| && s.pc[t].EnqSignal? ==> s.pc[t].call.ok)
  }

  ghost predicate Inv<T>(s: State<T>) {
    MutexOk(s) && QueueOk(s) && WakeupsOk(s) && AnswersOk(s)
  }

  lemma StepKeepsMutex<T(!new)>(s: State<T>, s': State<T>, t: Thread)
    requires MutexOk(s) && t < |s.pc| && Step(s, s', t)
    ensures MutexOk(s') && |s'.pc| == |s.pc| && s'.max == s.max
  {
  }

  lemma StepKeepsQueue<T(!new)>(s: State<T>, s': State<T>, t: Thread)
    requires MutexOk(s) && QueueOk(s) && t < |s.pc| && Step(s, s', t)
    ensures QueueOk(s')
  {
    StepKeepsMutex(s, s', t);
    if s.pc[t].DeqTest? && s.q != [] {
      assert s.q == [s.q[0]] + s.q[1..];
    }
  }

  /** A thread outside the critical section changes neither history nor what the holder is doing. */
  lemma OutsideKeepsAnswers<T(!new)>(s: State<T>, s': State<T>, t: Thread)
    requires MutexOk(s) && QueueOk(s) && AnswersOk(s) && t < |s.pc| && Step(s, s', t) && !Locked(s.pc[t])
    ensures AnswersOk(s')
  {
    StepKeepsMutex(s, s', t);
  }

  lemma EnqTestKeepsAnswers<T(!new)>(s: State<T>, s': State<T>, t: Thread)
    requires MutexOk(s) && QueueOk(s) && AnswersOk(s) && t < |s.pc| && Step(s, s', t) && s.pc[t].EnqTest?
    ensures AnswersOk(s')
  {
    assert s.mutex == Held(t);
  }

  lemma EnqSignalKeepsAnswers<T(!new)>(s: State<T>, s': State<T>, t: Thread)
    requires MutexOk(s) && QueueOk(s) && AnswersOk(s) && t < |s.pc| && Step(s, s', t) && s.pc[t].EnqSignal?
    ensures AnswersOk(s')
  {
    StepKeepsMutex(s, s', t);
    assert s.mutex == Held(t);
  }

  lemma AcceptedMore<T>(calls: seq<Enq<T>>, call: Enq<T>)
    ensures Accepted(calls + [call]) == Accepted(calls) + if call.ok then [call.v] else []
  {
    assert (calls + [call])[..|calls|] == calls;
  }

  /** The return of enq moves the value from the caller's hands to the history. */
  lemma AnswersReturned<T>(s: State<T>, s': State<T>, t: Thread)
    requires MutexOk(s) && AnswersOk(s) && t < |s.pc| && s.pc[t].EnqDone?
    requires s' == Goto(s, t, Idle).(mutex := Nobody, calls := s.calls + [s.pc[t].call])
    ensures s'.enqueued == Accepted(s'.calls) + Putting(HolderPc(s')) && s'.dequeued == s'.got + Taking(HolderPc(s'))
  {
    assert s.mutex == Held(t);
    AcceptedMore(s.calls, s.pc[t].call);
  }

  lemma EnqDoneKeepsAnswers<T(!new)>(s: State<T>, s': State<T>, t: Thread)
    requires MutexOk(s) && QueueOk(s) && AnswersOk(s) && t < |s.pc| && Step(s, s', t) && s.pc[t].EnqDone?
    ensures AnswersOk(s')
  {
    AnswersReturned(s, s', t);
  }

  lemma DeqKeepsAnswers<T(!new)>(s: State<T>, s': State<T>, t: Thread)
    requires MutexOk(s) && QueueOk(s) && AnswersOk(s) && t < |s.pc| && Step(s, s', t)
    requires s.pc[t].DeqTest? || s.pc[t].DeqSignal? || s.pc[t].DeqDone?
    ensures AnswersOk(s')
  {
    StepKeepsMutex(s, s', t);
    assert s.mutex == Held(t);
  }

  lemma StepKeepsAnswers<T(!new)>(s: State<T>, s': State<T>, t: Thread)
    requires MutexOk(s) && QueueOk(s) && AnswersOk(s) && t < |s.pc| && Step(s, s', t)
    ensures AnswersOk(s')
  {
    if !Locked(s.pc[t]) {
      OutsideKeepsAnswers(s, s', t);
    } else if s.pc[t].EnqTest? {
      EnqTestKeepsAnswers(s, s', t);
    } else if s.pc[t].EnqSignal? {
      EnqSignalKeepsAnswers(s, s', t);
    } else if s.pc[t].EnqDone? {
      EnqDoneKeepsAnswers(s, s', t);
    } else {
      DeqKeepsAnswers(s, s', t);
    }
  }

  /** The count of kind k after thread t alone moves to p. */
  ghost predicate Moved<T>(ps: seq<Pc<T>>, ps': seq<Pc<T>>, was: Pc<T>, p: Pc<T>, k: Kind) {
    Count(ps', k) == Count(ps, k) - One(was, k) + One(p, k)
  }

  lemma CountsAfterMove<T>(ps: seq<Pc<T>>, ps': seq<Pc<T>>, t: Thread, p: Pc<T>)
    requires t < |ps| && ps' == ps[t := p]
    ensures Moved(ps, ps', ps[t], p, WaitingEnq) && Moved(ps, ps', ps[t], p, WaitingDeq)
    ensures Moved(ps, ps', ps[t], p, RunnableEnq) && Moved(ps, ps', ps[t], p, RunnableDeq)
    ensures Moved(ps, ps', ps[t], p, SignallingEnq) && Moved(ps, ps', ps[t], p, SignallingDeq)
  {
    CountUpdate(ps, t, p, WaitingEnq);
    CountUpdate(ps, t, p, WaitingDeq);
    CountUpdate(ps, t, p, RunnableEnq);
    CountUpdate(ps, t, p, RunnableDeq);
    CountUpdate(ps, t, p, SignallingEnq);
    CountUpdate(ps, t, p, SignallingDeq);
  }

  predicate Dequeuing<T>(p: Pc<T>) {
    p.DeqLock? || p.DeqTest? || p.DeqWait? || p.DeqSignal? || p.DeqDone?
  }

  /** A step of a dequeuer that wakes nobody. */
  lemma DeqMoveKeepsWakeups<T(!new)>(s: State<T>, s': State<T>, t: Thread)
    requires Inv(s) && t < |s.pc| && Step(s, s', t) && Dequeuing(s.pc[t]) && !(s.pc[t].DeqSignal? && s.max != 0)
    ensures WakeupsOk(s')
  {
    if s.pc[t].DeqTest? {
      DeqTestKeepsWakeups(s, s', t);
    } else if s.pc[t].DeqWait? {
      DeqWakeKeepsWakeups(s, s', t);
    } else {
      CountsAfterMove(s.pc, s'.pc, t, s'.pc[t]);
    }
  }

  lemma DeqWakeKeepsWakeups<T(!new)>(s: State<T>, s': State<T>, t: Thread)
    requires Inv(s) && t < |s.pc| && Step(s, s', t) && s.pc[t].DeqWait?
    ensures WakeupsOk(s')
  {
    CountsAfterMove(s.pc, s'.pc, t, s'.pc[t]);
    CountPositive(s.pc, t, WaitingDeq);
  }

  lemma DeqTestKeepsWakeups<T(!new)>(s: State<T>, s': State<T>, t: Thread)
    requires Inv(s) && t < |s.pc| && Step(s, s', t) && s.pc[t].DeqTest?
    ensures WakeupsOk(s')
  {
    CountsAfterMove(s.pc, s'.pc, t, s'.pc[t]);
  }

  /** A step of another thread that wakes nobody. */
  lemma EnqMoveKeepsWakeups<T(!new)>(s: State<T>, s': State<T>, t: Thread)
    requires Inv(s) && t < |s.pc| && Step(s, s', t) && !Dequeuing(s.pc[t]) && !s.pc[t].EnqSignal?
    ensures WakeupsOk(s')
  {
    CountsAfterMove(s.pc, s'.pc, t, s'.pc[t]);
    if s.pc[t].EnqWait? {
      CountPositive(s.pc, t, WaitingEnq);
    }
  }

  /** The signal of enq. */
  lemma EnqSignalKeepsWakeups<T(!new)>(s: State<T>, s': State<T>, t: Thread)
    requires Inv(s) && t < |s.pc| && Step(s, s', t) && s.pc[t].EnqSignal?
    ensures WakeupsOk(s')
  {
    var mid := s.pc[t := EnqDone(s.pc[t].call)];
    CountsAfterMove(s.pc, mid, t, EnqDone(s.pc[t].call));
    CountSignalled(mid, s'.pc, false);
    forall k
      ensures k != RunnableDeq && k != WaitingDeq ==> Count(s'.pc, k) == Count(mid, k)
      ensures k == WaitingDeq ==> Count(s'.pc, k) <= Count(mid, k)
    {
      CountWoken(mid, s'.pc, false, k);
    }
  }

  /** The signal of deq. */
  lemma DeqSignalKeepsWakeups<T(!new)>(s: State<T>, s': State<T>, t: Thread)
    requires Inv(s) && t < |s.pc| && Step(s, s', t) && s.pc[t].DeqSignal? && s.max != 0
    ensures WakeupsOk(s')
  {
    assert s.mutex == Held(t);
    var mid := s.pc[t := DeqDone(s.pc[t].v)];
    CountsAfterMove(s.pc, mid, t, DeqDone(s.pc[t].v));
    CountSignalled(mid, s'.pc, true);
    forall k
      ensures k != RunnableEnq && k != WaitingEnq ==> Count(s'.pc, k) == Count(mid, k)
      ensures k == WaitingEnq ==> Count(s'.pc, k) <= Count(mid, k)
    {
      CountWoken(mid, s'.pc, true, k);
    }
  }

  lemma StepKeepsInv<T(!new)>(s: State<T>, s': State<T>, t: Thread)
    requires Inv(s) && t < |s.pc| && Step(s, s', t)
    ensures Inv(s')
  {
    StepKeepsMutex(s, s', t);
    StepKeepsQueue(s, s', t);
    StepKeepsAnswers(s, s', t);
    if s.pc[t].EnqSignal? {
      EnqSignalKeepsWakeups(s, s', t);
    } else if s.pc[t].DeqSignal? && s.max != 0 {
      DeqSignalKeepsWakeups(s, s', t);
    } else if Dequeuing(s.pc[t]) {
      DeqMoveKeepsWakeups(s, s', t);
    } else {
      EnqMoveKeepsWakeups(s, s', t);
    }
  }

  lemma {:induction false} NoneCounted<T>(ps: seq<Pc<T>>, k: Kind)
    requires forall t :: 0 <= t < |ps| ==> KindOf(ps[t]) != k
    ensures Count(ps, k) == 0
    decreases |ps|
  {
    if ps != [] {
      NoneCounted(ps[..|ps| - 1], k);
    }
  }

  /** Every state of every run satisfies the invariant. */
  lemma {:induction false} RunInv<T(!new)>(states: seq<State<T>>, n: nat)
    requires Run(states) && n < |states|
    ensures Inv(states[n])
    decreases n
  {
    if n == 0 {
      NoneCounted(states[0].pc, WaitingDeq);
      NoneCounted(states[0].pc, WaitingEnq);
    } else {
      RunInv(states, n - 1);
      assert Next(states[n - 1], states[n - 1 + 1]);
      var t: Thread :| t < |states[n - 1].pc| && Step(states[n - 1], states[n], t);
      StepKeepsInv(states[n - 1], states[n], t);
    }
  }

  // ---- what follows ---------------------------------------------------------------------------------------

  /** The queue is a bounded FIFO channel: never over capacity, and values come out in the order they went in. */
  lemma BoundedFifo<T(!new)>(states: seq<State<T>>, n: nat)
    requires Run(states) && n < |states|
    ensures states[n].enqueued == states[n].dequeued + states[n].q
    ensures states[n].max > 0 ==> |states[n].q| <= states[n].max
  {
    RunInv(states, n);
  }

  /** Between critical sections, waiting dequeuers are outnumbered only by what runnable ones cannot take. */
  lemma WaitersCovered<T(!new)>(states: seq<State<T>>, n: nat)
    requires Run(states) && n < |states| && states[n].mutex == Nobody
    ensures Count(states[n].pc, WaitingDeq) > 0 ==> |states[n].q| <= Count(states[n].pc, RunnableDeq)
    ensures Count(states[n].pc, WaitingEnq) > 0 ==>
              states[n].max - |states[n].q| <= Count(states[n].pc, RunnableEnq)
  {
    var s := states[n];
    RunInv(states, n);
    forall t | 0 <= t < |s.pc|
      ensures KindOf(s.pc[t]) != SignallingEnq && KindOf(s.pc[t]) != SignallingDeq
    {
      assert !Locked(s.pc[t]);
    }
    NoneCounted(s.pc, SignallingEnq);
    NoneCounted(s.pc, SignallingDeq);
  }

  /**
   * No lost wakeup: when the mutex is free, a dequeuer that waits although the queue is not empty is never
   * alone; another dequeuer is awake and can take the mutex at once.
   */
  lemma NoStrandedDequeuer<T(!new)>(states: seq<State<T>>, n: nat, t: Thread) returns (u: Thread, s': State<T>)
    requires Run(states) && n < |states| && states[n].mutex == Nobody
    requires t < |states[n].pc| && states[n].pc[t].DeqWait? && states[n].q != []
    ensures u < |states[n].pc| && states[n].pc[u].DeqLock? && Step(states[n], s', u)
  {
    WaitersCovered(states, n);
    CountPositive(states[n].pc, t, WaitingDeq);
    u := CountWitness(states[n].pc, RunnableDeq);
    RunInv(states, n);
    assert !Locked(states[n].pc[u]);
    s' := Goto(states[n], u, DeqTest).(mutex := Held(u));
  }

  /** The same for an enqueuer that waits although there is space. */
  lemma NoStrandedEnqueuer<T(!new)>(states: seq<State<T>>, n: nat, t: Thread) returns (u: Thread, s': State<T>)
    requires Run(states) && n < |states| && states[n].mutex == Nobody
    requires t < |states[n].pc| && states[n].pc[t].EnqWait? && HasSpace(states[n])
    ensures u < |states[n].pc| && states[n].pc[u].EnqLock? && Step(states[n], s', u)
  {
    WaitersCovered(states, n);
    CountPositive(states[n].pc, t, WaitingEnq);
    RunInv(states, n);
    u := CountWitness(states[n].pc, RunnableEnq);
    assert !Locked(states[n].pc[u]);
    var p := states[n].pc[u];
    s' := Goto(states[n], u, EnqTest(p.v, p.blocking)).(mutex := Held(u));
  }

  /**
   * Answers: whenever the mutex is free, the values enqueued are exactly those of the calls that answered true, in
   * order, and the values dequeued are exactly those handed to callers.  A call answered false exactly when it was
   * non-blocking and found the queue full.
   */
  lemma AnswersAreTrue<T(!new)>(states: seq<State<T>>, n: nat)
    requires Run(states) && n < |states|
    ensures states[n].mutex == Nobody ==>
              states[n].enqueued == Accepted(states[n].calls) && states[n].dequeued == states[n].got
    ensures forall k :: 0 <= k < |states[n].calls| ==>
              var call := states[n].calls[k];
              && (!call.ok ==> !call.blocking && states[n].max > 0 && call.found == states[n].max)
              && (call.ok ==> states[n].max == 0 || call.found < states[n].max)
    ensures forall t :: 0 <= t < |states[n].pc| && states[n].pc[t].EnqWait? ==> states[n].pc[t].blocking
  {
    RunInv(states, n);
    assert forall k :: 0 <= k < |states[n].calls| ==> CallOk(states[n].calls[k], states[n].max);
  }

  // ---- calls complete -------------------------------------------------------------------------------------

  /** Steps of thread t alone. */
  ghost predicate Solo<T(!new)>(states: seq<State<T>>, t: Thread) {
    states != [] && forall n :: 0 <= n < |states| - 1 ==> t < |states[n].pc| && Step(states[n], states[n + 1], t)
  }

  /** A possible outcome of pthread_cond_signal: one waiter, if there is one, is woken. */
  lemma WakesOne<T>(before: seq<Pc<T>>, enq: bool, t: Thread) returns (after: seq<Pc<T>>)
    requires t < |before| && !Waiting(before[t], enq)
    ensures Signalled(before, after, enq) && after[t] == before[t]
  {
    if u :| 0 <= u < |before| && Waiting(before[u], enq) {
      var p := if enq then EnqLock(before[u].v, before[u].blocking) else DeqLock;
      after := before[u := p];
      assert WakeOne(before[u], after[u], enq);
    } else {
      after := before;
    }
  }

  /** enq from start to end, when nobody else runs: it answers whether there was space, unless it has to wait. */
  lemma EnqCompletes<T(!new)>(s: State<T>, t: Thread, v: T, blocking: bool) returns (states: seq<State<T>>)
    requires t < |s.pc| && s.pc[t].Idle? && s.mutex == Nobody && (HasSpace(s) || !blocking)
    ensures Solo(states, t) && states[0] == s
    ensures var s' := states[|states| - 1];
            && |s'.pc| == |s.pc| && s'.pc[t].Idle? && s'.mutex == Nobody && s'.max == s.max && s'.got == s.got
            && s'.q == (if HasSpace(s) then s.q + [v] else s.q)
            && s'.calls == s.calls + [Enq(v, blocking, |s.q|, HasSpace(s))]
  {
    var call := Enq(v, blocking, |s.q|, HasSpace(s));
    var s1 := Goto(s, t, EnqLock(v, blocking));
    var s2 := Goto(s1, t, EnqTest(v, blocking)).(mutex := Held(t));
    if HasSpace(s) {
      var s3 := Goto(s2, t, EnqSignal(call)).(q := s.q + [v], enqueued := s.enqueued + [v]);
      var after := WakesOne(s3.pc[t := EnqDone(call)], false, t);
      var s4 := s3.(pc := after);
      var s5 := Goto(s4, t, Idle).(mutex := Nobody, calls := s.calls + [call]);
      states := [s, s1, s2, s3, s4, s5];
    } else {
      var s3 := Goto(s2, t, EnqDone(call));
      var s4 := Goto(s3, t, Idle).(mutex := Nobody, calls := s.calls + [call]);
      states := [s, s1, s2, s3, s4];
    }
  }

  /** deq from start to end on a queue that is not empty: it hands out the front. */
  lemma DeqCompletes<T(!new)>(s: State<T>, t: Thread) returns (states: seq<State<T>>)
    requires t < |s.pc| && s.pc[t].Idle? && s.mutex == Nobody && s.q != []
    ensures Solo(states, t) && states[0] == s
    ensures var s' := states[|states| - 1];
            && |s'.pc| == |s.pc| && s'.pc[t].Idle? && s'.mutex == Nobody && s'.max == s.max && s'.calls == s.calls
            && s'.q == s.q[1..] && s'.got == s.got + [s.q[0]]
  {
    var v := s.q[0];
    var s1 := Goto(s, t, DeqLock);
    var s2 := Goto(s1, t, DeqTest).(mutex := Held(t));
    var s3 := Goto(s2, t, DeqSignal(v)).(q := s.q[1..], dequeued := s.dequeued + [v]);
    var s4 := Goto(s3, t, DeqDone(v));
    if s.max != 0 && |s3.q| < s.max {
      var after := WakesOne(s3.pc[t := DeqDone(v)], true, t);
      s4 := s3.(pc := after);
    }
    var s5 := Goto(s4, t, Idle).(mutex := Nobody, got := s.got + [v]);
    states := [s, s1, s2, s3, s4, s5];
  }
}
