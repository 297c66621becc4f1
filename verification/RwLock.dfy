/**
 * The reader/writer lock of locks.h, statement by statement, for any number of threads.
 *
 * reader_enter and writer_enter return with the mutex held, and the exit calls release it, so the lock is in
 * fact a plain mutex: that is what is proved here.
 */
module RwLock {

  type Thread = nat

  /** Where a thread stands; each value names the statement it executes next. */
  datatype Pc =
    | Idle
    | RLock | RTest | RWait | RWake | RDecWaiting | RIncActive | RInside | RDecActive | RSignal | RUnlock
    | WLock | WIncWaiting | WTest | WWait | WWake | WDecWaiting | WSetActive
    | WInside | WClearActive | WSignal | WUnlock

  datatype Holder = Nobody | Held(owner: Thread)

  /** The fields of a4_rwlock, the threads, and the number of reader entries completed so far. */
  datatype State = State(
    waitingWriters: int, waitingReaders: int, activeWriters: int, activeReaders: int,
    mutex: Holder, pc: seq<Pc>, entries: nat)

  predicate Init(s: State) {
    && s.waitingWriters == s.waitingReaders == s.activeWriters == s.activeReaders == 0
    && s.mutex == Nobody && s.entries == 0
    && forall t :: 0 <= t < |s.pc| ==> s.pc[t] == Idle
  }

  function Goto(s: State, t: Thread, p: Pc): State
    requires t < |s.pc|
  {
    s.(pc := s.pc[t := p])
  }

  /** pthread_cond_signal wakes at least one waiter if there is one; broadcast wakes them all. */
  predicate Woken(before: seq<Pc>, after: seq<Pc>, waiting: Pc, awake: Pc, all: bool) {
    && |after| == |before|
    && (forall t :: 0 <= t < |before| ==>
          after[t] == before[t] || (before[t] == waiting && after[t] == awake))
    && ((exists t :: 0 <= t < |before| && before[t] == waiting) ==>
          exists t :: 0 <= t < |before| && before[t] == waiting && after[t] == awake)
    && (all ==> forall t :: 0 <= t < |before| && before[t] == waiting ==> after[t] == awake)
  }

  /** A step in which t wakes waiters and then goes to p. */
  predicate Wakes(s: State, s': State, t: Thread, p: Pc, waiting: Pc, awake: Pc, all: bool)
    requires t < |s.pc|
  {
    && Woken(s.pc[t := p], s'.pc, waiting, awake, all)
    && s' == s.(pc := s'.pc)
  }

  /** One statement of thread t. */
  predicate Step(s: State, s': State, t: Thread)
    requires t < |s.pc|
  {
    match s.pc[t]
    case Idle => s' == Goto(s, t, RLock) || s' == Goto(s, t, WLock)
    // reader_enter
    case RLock => s.mutex == Nobody && s' == Goto(s, t, RTest).(mutex := Held(t))
    case RTest =>
      if s.activeWriters > 0 || s.waitingWriters > 0
      then s' == Goto(s, t, RWait).(mutex := Nobody)
      else s' == Goto(s, t, RDecWaiting)
    case RWait => s' == Goto(s, t, RWake)  // a spurious wakeup
    case RWake => s.mutex == Nobody && s' == Goto(s, t, RTest).(mutex := Held(t))
    case RDecWaiting => s' == Goto(s, t, RIncActive).(waitingReaders := s.waitingReaders - 1)
    case RIncActive => s' == Goto(s, t, RInside).(activeReaders := s.activeReaders + 1, entries := s.entries + 1)
    case RInside => s' == Goto(s, t, RDecActive)
    // reader_exit
    case RDecActive => s' == Goto(s, t, RSignal).(activeReaders := s.activeReaders - 1)
    case RSignal =>
      if s.activeReaders == 0 && s.waitingWriters > 0
      then Wakes(s, s', t, RUnlock, WWait, WWake, false)
      else s' == Goto(s, t, RUnlock)
    case RUnlock => s' == Goto(s, t, Idle).(mutex := Nobody)
    // writer_enter
    case WLock => s.mutex == Nobody && s' == Goto(s, t, WIncWaiting).(mutex := Held(t))
    case WIncWaiting => s' == Goto(s, t, WTest).(waitingWriters := s.waitingWriters + 1)
    case WTest =>
      if s.activeWriters > 0 || s.activeReaders > 0
      then s' == Goto(s, t, WWait).(mutex := Nobody)
      else s' == Goto(s, t, WDecWaiting)
    case WWait => s' == Goto(s, t, WWake)  // a spurious wakeup
    case WWake => s.mutex == Nobody && s' == Goto(s, t, WTest).(mutex := Held(t))
    case WDecWaiting => s' == Goto(s, t, WSetActive).(waitingWriters := s.waitingWriters - 1)
    case WSetActive => s' == Goto(s, t, WInside).(activeWriters := 1)
    case WInside => s' == Goto(s, t, WClearActive)
    // writer_exit
    case WClearActive => s' == Goto(s, t, WSignal).(activeWriters := 0)
    case WSignal =>
      if s.waitingWriters > 0 then Wakes(s, s', t, WUnlock, WWait, WWake, false)
      else if s.waitingReaders > 0 then Wakes(s, s', t, WUnlock, RWait, RWake, true)
      else s' == Goto(s, t, WUnlock)
    case WUnlock => s' == Goto(s, t, Idle).(mutex := Nobody)
  }

  predicate Next(s: State, s': State) {
    exists t: Thread :: t < |s.pc| && Step(s, s', t)
  }

  /** A run: from the constructor's state, one step after another. */
  predicate Run(states: seq<State>) {
    && states != [] && Init(states[0])
    && forall n :: 0 <= n < |states| - 1 ==> Next(states[n], states[n + 1])
  }

  // ---- the invariant --------------------------------------------------------------------------------------

  /** Statements executed with the mutex held. */
  predicate Critical(p: Pc) {
    p !in {Idle, RLock, WLock, RWait, RWake, WWait, WWake}
  }

  /** Statements of a thread that waits, or has waited, on a condition variable. */
  predicate OnCondition(p: Pc) {
    p in {RWait, RWake, WWait, WWake}
  }

  function ActiveReadersAt(p: Pc): int {
    if p in {RInside, RDecActive} then 1 else 0
  }

  function ActiveWritersAt(p: Pc): int {
    if p in {WInside, WClearActive} then 1 else 0
  }

  function WaitingWritersAt(p: Pc): int {
    if p in {WTest, WDecWaiting} then 1 else 0
  }

  /** Every counter is what the statement of the mutex's holder makes it. */
  predicate CountersAt(s: State, p: Pc) {
    && s.activeReaders == ActiveReadersAt(p)
    && s.activeWriters == ActiveWritersAt(p)
    && s.waitingWriters == WaitingWritersAt(p)
    && s.waitingReaders == 0 - s.entries - if p == RIncActive then 1 else 0
  }

  predicate Inv(s: State) {
    && (forall t :: 0 <= t < |s.pc| ==> !OnCondition(s.pc[t]) && (Critical(s.pc[t]) <==> s.mutex == Held(t)))
    && (s.mutex.Held? ==> s.mutex.owner < |s.pc|)
    && CountersAt(s, if s.mutex.Held? then s.pc[s.mutex.owner] else Idle)
  }

  predicate Reading(p: Pc) {
    p.RLock? || p.RTest? || p.RDecWaiting? || p.RIncActive? || p.RInside? || p.RDecActive? || p.RSignal? || p.RUnlock?
  }

  lemma ReaderKeepsInv(s: State, s': State, t: Thread)
    requires Inv(s) && t < |s.pc| && Step(s, s', t) && Reading(s.pc[t])
    ensures Inv(s') && |s'.pc| == |s.pc|
  {
  }

  predicate Leaving(p: Pc) {
    p.WInside? || p.WClearActive? || p.WSignal? || p.WUnlock?
  }

  lemma LeavingKeepsInv(s: State, s': State, t: Thread)
    requires Inv(s) && t < |s.pc| && Step(s, s', t) && Leaving(s.pc[t])
    ensures Inv(s') && |s'.pc| == |s.pc|
  {
  }

  lemma WriterKeepsInv(s: State, s': State, t: Thread)
    requires Inv(s) && t < |s.pc| && Step(s, s', t) && !Reading(s.pc[t])
    ensures Inv(s') && |s'.pc| == |s.pc|
  {
    if Leaving(s.pc[t]) {
      LeavingKeepsInv(s, s', t);
    } else {
    }
  }

  lemma StepKeepsInv(s: State, s': State, t: Thread)
    requires Inv(s) && t < |s.pc| && Step(s, s', t)
    ensures Inv(s') && |s'.pc| == |s.pc|
  {
    if Reading(s.pc[t]) {
      ReaderKeepsInv(s, s', t);
    } else {
      WriterKeepsInv(s, s', t);
    }
  }

  /** Every state of every run satisfies the invariant. */
  lemma {:induction false} RunInv(states: seq<State>, n: nat)
    requires Run(states) && n < |states|
    ensures Inv(states[n])
    decreases n
  {
    if n > 0 {
      RunInv(states, n - 1);
      assert Next(states[n - 1], states[n - 1 + 1]);
      var t: Thread :| t < |states[n - 1].pc| && Step(states[n - 1], states[n], t);
      StepKeepsInv(states[n - 1], states[n], t);
    }
  }

  // ---- safety ---------------------------------------------------------------------------------------------

  predicate Inside(p: Pc) {
    p == RInside || p == WInside
  }

  /**
   * At most one thread, reader or writer, is between enter and exit; and whenever the mutex is free, nobody is
   * and no counter but waitingReaders differs from zero.
   */
  lemma MutualExclusion(states: seq<State>, n: nat, t: Thread, u: Thread)
    requires Run(states) && n < |states| && t < |states[n].pc| && u < |states[n].pc|
    ensures Inside(states[n].pc[t]) && Inside(states[n].pc[u]) ==> t == u
    ensures Inside(states[n].pc[t]) ==> states[n].mutex == Held(t)
    ensures states[n].mutex == Nobody ==>
              states[n].activeReaders == 0 && states[n].activeWriters == 0 && states[n].waitingWriters == 0
  {
    RunInv(states, n);
  }

  /** No thread ever waits on a condition variable, and neither signal nor broadcast is ever sent. */
  lemma NobodyWaits(states: seq<State>, n: nat, t: Thread)
    requires Run(states) && n < |states| && t < |states[n].pc|
    ensures var s := states[n];
            && !OnCondition(s.pc[t])
            && (s.pc[t] == RTest ==> s.activeWriters == 0 && s.waitingWriters == 0)
            && (s.pc[t] == WTest ==> s.activeWriters == 0 && s.activeReaders == 0)
            && (s.pc[t] in {RSignal, WSignal} ==> s.waitingWriters == 0 && s.waitingReaders <= 0)
  {
    RunInv(states, n);
  }

  /** waitingReaders is never raised: it counts completed reader entries, downwards. */
  lemma WaitingReadersDrifts(states: seq<State>, n: nat)
    requires Run(states) && n < |states| && states[n].mutex == Nobody
    ensures states[n].waitingReaders == 0 - states[n].entries
  {
    RunInv(states, n);
  }

  // ---- refinement of a plain mutex ------------------------------------------------------------------------

  /** A plain mutex: it is acquired when free, released by its owner, or left alone. */
  predicate MutexStep(m: Holder, m': Holder, t: Thread) {
    || m' == m
    || (m == Nobody && m' == Held(t))
    || (m == Held(t) && m' == Nobody)
  }

  /**
   * The lock simulates a plain mutex: enter acquires it in one step and keeps it, exit releases it in one step,
   * and no other step of any thread touches it.
   */
  lemma RefinesMutex(states: seq<State>, n: nat, t: Thread)
    requires Run(states) && n + 1 < |states| && t < |states[n].pc| && Step(states[n], states[n + 1], t)
    ensures MutexStep(states[n].mutex, states[n + 1].mutex, t)
    ensures states[n].mutex != Held(t) && states[n + 1].mutex == Held(t) <==> states[n].pc[t] in {RLock, WLock}
    ensures states[n].mutex == Held(t) && states[n + 1].mutex != Held(t) <==> states[n].pc[t] in {RUnlock, WUnlock}
    ensures Critical(states[n + 1].pc[t]) <==> states[n + 1].mutex == Held(t)
  {
    RunInv(states, n);
    StepKeepsInv(states[n], states[n + 1], t);
  }

  // ---- progress -------------------------------------------------------------------------------------------

  /** Whenever some thread wants to enter or is inside, some such thread can take a step. */
  lemma Progress(states: seq<State>, n: nat, t: Thread) returns (u: Thread, s': State)
    requires Run(states) && n < |states| && t < |states[n].pc| && states[n].pc[t] != Idle
    ensures u < |states[n].pc| && states[n].pc[u] != Idle && Step(states[n], s', u)
  {
    RunInv(states, n);
    var s := states[n];
    u := if s.mutex.Held? then s.mutex.owner else t;
    s' := Enabled(s, u);
  }

  lemma Enabled(s: State, u: Thread) returns (s': State)
    requires Inv(s) && u < |s.pc| && s.pc[u] != Idle && (s.mutex == Nobody || s.mutex == Held(u))
    ensures Step(s, s', u)
  {
    match s.pc[u]
    case RLock => s' := Goto(s, u, RTest).(mutex := Held(u));
    case RTest => s' := Goto(s, u, RDecWaiting);
    case RDecWaiting => s' := Goto(s, u, RIncActive).(waitingReaders := s.waitingReaders - 1);
    case RIncActive => s' := Goto(s, u, RInside).(activeReaders := s.activeReaders + 1, entries := s.entries + 1);
    case RInside => s' := Goto(s, u, RDecActive);
    case RDecActive => s' := Goto(s, u, RSignal).(activeReaders := s.activeReaders - 1);
    case RSignal => s' := Goto(s, u, RUnlock);
    case RUnlock => s' := Goto(s, u, Idle).(mutex := Nobody);
    case WLock => s' := Goto(s, u, WIncWaiting).(mutex := Held(u));
    case WIncWaiting => s' := Goto(s, u, WTest).(waitingWriters := s.waitingWriters + 1);
    case WTest => s' := Goto(s, u, WDecWaiting);
    case WDecWaiting => s' := Goto(s, u, WSetActive).(waitingWriters := s.waitingWriters - 1);
    case WSetActive => s' := Goto(s, u, WInside).(activeWriters := 1);
    case WInside => s' := Goto(s, u, WClearActive);
    case WClearActive => s' := Goto(s, u, WSignal).(activeWriters := 0);
    case WSignal => s' := Goto(s, u, WUnlock);
    case WUnlock => s' := Goto(s, u, Idle).(mutex := Nobody);
  }

  // ---- entering and leaving -------------------------------------------------------------------------------

  /** Steps of thread t alone. */
  predicate Solo(states: seq<State>, t: Thread) {
    states != [] && forall n :: 0 <= n < |states| - 1 ==> t < |states[n].pc| && Step(states[n], states[n + 1], t)
  }

  /** Thread t is not inside in any of the states. */
  predicate Outside(states: seq<State>, t: Thread) {
    forall n :: 0 <= n < |states| ==> t < |states[n].pc| && !Inside(states[n].pc[t])
  }

  /** Nobody is inside or on the way in, and no counter stands in the way. */
  predicate Quiet(s: State) {
    s.mutex == Nobody && s.activeReaders == 0 && s.activeWriters == 0 && s.waitingWriters == 0
  }

  /** Two stretches of t's steps, the second from where the first ends. */
  lemma Join(first: seq<State>, second: seq<State>, t: Thread) returns (more: seq<State>)
    requires Solo(first, t) && Solo(second, t) && first[|first| - 1] == second[0]
    ensures Solo(more, t) && |more| == |first| + |second| - 1 && more[0] == first[0]
    ensures more[|more| - 1] == second[|second| - 1]
    ensures forall k :: 0 <= k < |first| ==> more[k] == first[k]
    ensures forall k :: |first| <= k < |more| ==> more[k] == second[k - |first| + 1]
  {
    more := first + second[1..];
    forall n | 0 <= n < |more| - 1
      ensures t < |more[n].pc| && Step(more[n], more[n + 1], t)
    {
      if n >= |first| - 1 {
        var m := n - (|first| - 1);
        assert Step(second[m], second[m + 1], t);
      }
    }
  }

  /** The call itself comes first, unless it has been made. */
  lemma FromIdle(s: State, states: seq<State>, t: Thread, p: Pc) returns (more: seq<State>)
    requires t < |s.pc| && s.pc[t] in {Idle, p} && p in {RLock, WLock}
    requires Solo(states, t) && states[0] == Goto(s, t, p) && |states| > 1 && Outside(states[..|states| - 1], t)
    ensures Solo(more, t) && more[0] == s && |more| > 1 && more[|more| - 1] == states[|states| - 1]
    ensures Outside(more[..|more| - 1], t)
  {
    if s.pc[t] == p {
      assert Goto(s, t, p) == s;
      more := states;
    } else {
      more := [s] + states;
      forall n | 0 <= n < |more| - 1
        ensures t < |more[n].pc| && Step(more[n], more[n + 1], t) && !Inside(more[n].pc[t])
      {
        if n > 0 {
          assert Step(states[n - 1], states[n - 1 + 1], t) && states[..|states| - 1][n - 1] == states[n - 1];
        }
      }
    }
  }

  lemma SoloStep(states: seq<State>, t: Thread, m: nat, n: nat)
    requires Solo(states, t) && m + 1 == n < |states| && Inv(states[m])
    ensures |states[n].pc| == |states[m].pc| && Inv(states[n])
  {
    assert Step(states[m], states[m + 1], t);
    StepKeepsInv(states[m], states[n], t);
  }

  /** Steps of one thread keep the number of threads. */
  lemma {:induction false} SoloKeepsThreads(states: seq<State>, t: Thread, n: nat)
    requires Solo(states, t) && n < |states| && Inv(states[0])
    ensures |states[n].pc| == |states[0].pc| && Inv(states[n])
    decreases n
  {
    if n > 0 {
      var m := n - 1;
      SoloKeepsThreads(states, t, m);
      SoloStep(states, t, m, n);
    }
  }

  lemma FreeIsQuiet(states: seq<State>, n: nat)
    requires Run(states) && n < |states| && states[n].mutex == Nobody
    ensures Quiet(states[n])
  {
    RunInv(states, n);
  }

  /**
   * reader_enter returns to its caller: once the mutex is free, a thread that calls it, or stands at its first
   * statement, gets inside, as a reader, by its own steps.
   */
  lemma ReaderEnters(states: seq<State>, n: nat, t: Thread) returns (more: seq<State>)
    requires Run(states) && n < |states| && states[n].mutex == Nobody
    requires t < |states[n].pc| && states[n].pc[t] in {Idle, RLock}
    ensures Solo(more, t) && more[0] == states[n]
    ensures var s' := more[|more| - 1];
            && s'.pc == states[n].pc[t := RInside] && s'.mutex == Held(t) && s'.activeReaders == 1
            && s'.activeWriters == 0 && s'.waitingWriters == 0 && s'.entries == states[n].entries + 1
            && s'.waitingReaders == states[n].waitingReaders - 1
  {
    FreeIsQuiet(states, n);
    more := EnterReading(Goto(states[n], t, RLock), t);
    more := FromIdle(states[n], more, t, RLock);
  }

  lemma EnterReading(s: State, t: Thread) returns (more: seq<State>)
    requires Quiet(s) && t < |s.pc| && s.pc[t] == RLock
    ensures Solo(more, t) && |more| == 5 && more[0] == s && Outside(more[..4], t)
    ensures more[4] == s.(pc := s.pc[t := RInside], mutex := Held(t), activeReaders := 1,
                          waitingReaders := s.waitingReaders - 1, entries := s.entries + 1)
  {
    var s1 := Goto(s, t, RTest).(mutex := Held(t));
    var s2 := Goto(s1, t, RDecWaiting);
    var s3 := Goto(s2, t, RIncActive).(waitingReaders := s.waitingReaders - 1);
    var s4 := Goto(s3, t, RInside).(activeReaders := 1, entries := s.entries + 1);
    more := [s, s1, s2, s3, s4];
  }

  /** writer_enter returns to its caller, with activeWriters set. */
  lemma WriterEnters(states: seq<State>, n: nat, t: Thread) returns (more: seq<State>)
    requires Run(states) && n < |states| && states[n].mutex == Nobody
    requires t < |states[n].pc| && states[n].pc[t] in {Idle, WLock}
    ensures Solo(more, t) && more[0] == states[n]
    ensures var s' := more[|more| - 1];
            && s'.pc == states[n].pc[t := WInside] && s'.mutex == Held(t) && s'.activeWriters == 1
            && s'.activeReaders == 0 && s'.waitingWriters == 0 && s'.entries == states[n].entries
            && s'.waitingReaders == states[n].waitingReaders
  {
    FreeIsQuiet(states, n);
    more := EnterWriting(Goto(states[n], t, WLock), t);
    more := FromIdle(states[n], more, t, WLock);
  }

  lemma EnterWriting(s: State, t: Thread) returns (more: seq<State>)
    requires Quiet(s) && t < |s.pc| && s.pc[t] == WLock
    ensures Solo(more, t) && |more| == 6 && more[0] == s && Outside(more[..5], t)
    ensures more[5] == s.(pc := s.pc[t := WInside], mutex := Held(t), activeWriters := 1)
  {
    var first := AnnounceWriting(s, t);
    var second := StartWriting(first[2], t);
    more := Join(first, second, t);
  }

  lemma AnnounceWriting(s: State, t: Thread) returns (more: seq<State>)
    requires Quiet(s) && t < |s.pc| && s.pc[t] == WLock
    ensures Solo(more, t) && |more| == 3 && more[0] == s && Outside(more, t)
    ensures more[2] == s.(pc := s.pc[t := WTest], mutex := Held(t), waitingWriters := 1)
  {
    var s1 := Goto(s, t, WIncWaiting).(mutex := Held(t));
    var s2 := Goto(s1, t, WTest).(waitingWriters := 1);
    more := [s, s1, s2];
  }

  lemma StartWriting(s: State, t: Thread) returns (more: seq<State>)
    requires t < |s.pc| && s.pc[t] == WTest && s.activeReaders == s.activeWriters == 0 && s.waitingWriters == 1
    ensures Solo(more, t) && |more| == 4 && more[0] == s && Outside(more[..3], t)
    ensures more[3] == s.(pc := s.pc[t := WInside], activeWriters := 1, waitingWriters := 0)
  {
    var s1 := Goto(s, t, WDecWaiting);
    var s2 := Goto(s1, t, WSetActive).(waitingWriters := 0);
    var s3 := Goto(s2, t, WInside).(activeWriters := 1);
    more := [s, s1, s2, s3];
  }

  /** Both ways in, for a thread that finds the lock quiet. */
  lemma Enter(s: State, t: Thread, reader: bool) returns (more: seq<State>)
    requires Quiet(s) && t < |s.pc| && s.pc[t] == Idle
    ensures Solo(more, t) && |more| > 1 && more[0] == s && Outside(more[..|more| - 1], t)
    ensures var s' := more[|more| - 1]; s'.pc == s.pc[t := if reader then RInside else WInside] && s'.mutex == Held(t)
  {
    if reader {
      more := EnterReading(Goto(s, t, RLock), t);
      more := FromIdle(s, more, t, RLock);
    } else {
      more := EnterWriting(Goto(s, t, WLock), t);
      more := FromIdle(s, more, t, WLock);
    }
  }

  /** Both ways out. */
  lemma Leave(s: State, t: Thread) returns (more: seq<State>)
    requires Inv(s) && t < |s.pc| && Inside(s.pc[t])
    ensures Solo(more, t) && |more| > 1 && more[0] == s && Outside(more[1..], t)
    ensures var s' := more[|more| - 1]; s'.pc == s.pc[t := Idle] && s'.mutex == Nobody && Quiet(s')
  {
    if s.pc[t] == RInside {
      more := LeaveReading(s, t);
    } else {
      more := LeaveWriting(s, t);
    }
  }

  /** reader_exit and writer_exit return: a thread inside gets out by its own steps and leaves the mutex free. */
  lemma Leaves(states: seq<State>, n: nat, t: Thread) returns (more: seq<State>)
    requires Run(states) && n < |states| && t < |states[n].pc| && Inside(states[n].pc[t])
    ensures Solo(more, t) && more[0] == states[n]
    ensures var s' := more[|more| - 1];
            s'.pc == states[n].pc[t := Idle] && Quiet(s') && s'.waitingReaders == states[n].waitingReaders
  {
    RunInv(states, n);
    if states[n].pc[t] == RInside {
      more := LeaveReading(states[n], t);
    } else {
      more := LeaveWriting(states[n], t);
    }
  }

  lemma LeaveReading(s: State, t: Thread) returns (more: seq<State>)
    requires Inv(s) && t < |s.pc| && s.pc[t] == RInside
    ensures Solo(more, t) && |more| == 5 && more[0] == s && Outside(more[1..], t)
    ensures more[4] == s.(pc := s.pc[t := Idle], mutex := Nobody, activeReaders := 0) && Quiet(more[4])
  {
    var s1 := Goto(s, t, RDecActive);
    var s2 := Goto(s1, t, RSignal).(activeReaders := 0);
    var second := ReleaseReading(s2, t);
    more := Join([s, s1, s2], second, t);
  }

  lemma ReleaseReading(s: State, t: Thread) returns (more: seq<State>)
    requires t < |s.pc| && s.pc[t] == RSignal && s.waitingWriters == 0
    ensures Solo(more, t) && |more| == 3 && more[0] == s && Outside(more, t)
    ensures more[2] == s.(pc := s.pc[t := Idle], mutex := Nobody)
  {
    var s1 := Goto(s, t, RUnlock);
    var s2 := Goto(s1, t, Idle).(mutex := Nobody);
    more := [s, s1, s2];
  }

  lemma LeaveWriting(s: State, t: Thread) returns (more: seq<State>)
    requires Inv(s) && t < |s.pc| && s.pc[t] == WInside
    ensures Solo(more, t) && |more| == 5 && more[0] == s && Outside(more[1..], t)
    ensures more[4] == s.(pc := s.pc[t := Idle], mutex := Nobody, activeWriters := 0) && Quiet(more[4])
  {
    var s1 := Goto(s, t, WClearActive);
    var s2 := Goto(s1, t, WSignal).(activeWriters := 0);
    var second := ReleaseWriting(s2, t);
    more := Join([s, s1, s2], second, t);
  }

  lemma ReleaseWriting(s: State, t: Thread) returns (more: seq<State>)
    requires t < |s.pc| && s.pc[t] == WSignal && s.waitingWriters == 0 && s.waitingReaders <= 0
    ensures Solo(more, t) && |more| == 3 && more[0] == s && Outside(more, t)
    ensures more[2] == s.(pc := s.pc[t := Idle], mutex := Nobody)
  {
    var s1 := Goto(s, t, WUnlock);
    var s2 := Goto(s1, t, Idle).(mutex := Nobody);
    more := [s, s1, s2];
  }

  /** A thread is in its critical section, or executes a statement of exit, or neither. */
  datatype Stage = Elsewhere | In(reader: bool) | Out(reader: bool)

  function StageOf(s: State, t: Thread): Stage {
    if t >= |s.pc| then Elsewhere
    else
      match s.pc[t]
      case RInside => In(true)
      case RDecActive => Out(true)
      case RSignal => Out(true)
      case RUnlock => Out(true)
      case WInside => In(false)
      case WClearActive => Out(false)
      case WSignal => Out(false)
      case WUnlock => Out(false)
      case _ => Elsewhere
  }

  /** One step back from a statement of exit. */
  lemma OneBack(s: State, s': State, u: Thread, t: Thread)
    requires Inv(s) && u < |s.pc| && Step(s, s', u) && StageOf(s', t).Out?
    ensures s'.mutex == Held(t)
    ensures StageOf(s, t) == StageOf(s', t) || StageOf(s, t) == In(StageOf(s', t).reader)
  {
    StepKeepsInv(s, s', u);
    if u != t {
      OthersStay(s, s', u, t);
    }
  }

  lemma OthersStay(s: State, s': State, u: Thread, t: Thread)
    requires Inv(s) && u < |s.pc| && Step(s, s', u) && t < |s.pc| && u != t
    ensures |s'.pc| == |s.pc| && s'.pc[t] == s.pc[t]
  {
    StepKeepsInv(s, s', u);
  }

  lemma InsideHolds(s: State, t: Thread)
    requires Inv(s) && StageOf(s, t).In?
    ensures s.mutex == Held(t)
  {
  }

  lemma NextBack(s: State, s': State, t: Thread, reader: bool)
    requires Inv(s) && Next(s, s') && StageOf(s', t) == Out(reader)
    ensures s'.mutex == Held(t)
    ensures StageOf(s, t) == Out(reader) || (StageOf(s, t) == In(reader) && s.mutex == Held(t))
  {
    var u: Thread :| u < |s.pc| && Step(s, s', u);
    OneBack(s, s', u, t);
    if StageOf(s, t) == In(reader) {
      InsideHolds(s, t);
    }
  }

  lemma NotAtFirst(states: seq<State>, n: nat, t: Thread)
    requires states != [] && Init(states[0]) && n < |states| && StageOf(states[n], t).Out?
    ensures n > 0
  {
  }

  lemma StageBefore(states: seq<State>, m: nat, n: nat, t: Thread, reader: bool)
    requires Run(states) && m + 1 == n < |states| && StageOf(states[n], t) == Out(reader)
    ensures states[n].mutex == Held(t)
    ensures StageOf(states[m], t) == Out(reader) || (StageOf(states[m], t) == In(reader) && states[m].mutex == Held(t))
  {
    RunInv(states, m);
    assert Next(states[m], states[m + 1]);
    NextBack(states[m], states[n], t, reader);
  }

  /**
   * Nobody gets past the critical section without having been in it: a thread that executes a statement of
   * reader_exit was inside as a reader, and has held the mutex ever since; likewise for writers.
   */
  lemma {:induction false} PassedInside(states: seq<State>, n: nat, t: Thread, reader: bool) returns (k: nat)
    requires Run(states) && n < |states| && StageOf(states[n], t) == Out(reader)
    ensures k < n && StageOf(states[k], t) == In(reader)
    ensures forall l :: k <= l <= n ==> states[l].mutex == Held(t)
    decreases n
  {
    NotAtFirst(states, n, t);
    var m := n - 1;
    StageBefore(states, m, n, t, reader);
    if StageOf(states[m], t) == In(reader) {
      k := m;
    } else {
      k := PassedInside(states, m, t, reader);
    }
  }
}
