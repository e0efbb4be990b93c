/** When the misses of TryPut and TryGet do harm (pcqueue.h:58-82): exactly if the
    queue holds at least two values and at least two threads use it. */
module QueueContention {
  import opened CStrings
  import opened Sequences
  import opened ProducerConsumer

  // ----- Whole runs, one step longer

  lemma {:induction false} RunOneMore<T>(s0: State<T>, schedule: Schedule<T>, t: ThreadId, call: Call<T>)
    requires Run(s0, schedule).Some?
    ensures Run(s0, schedule + [(t, call)]) == Next(Run(s0, schedule).value, t, call)
    decreases |schedule|
  {
    if schedule == [] {
      assert schedule + [(t, call)] == [(t, call)];
    } else {
      assert (schedule + [(t, call)])[1..] == schedule[1..] + [(t, call)];
      RunOneMore(Next(s0, schedule[0].0, schedule[0].1).value, schedule[1..], t, call);
    }
  }

  /** The schedule that reached s goes on to s'. */
  lemma Extend<T>(s0: State<T>, schedule: Schedule<T>, s: State<T>, t: ThreadId, call: Call<T>, s': State<T>)
    returns (longer: Schedule<T>)
    requires Run(s0, schedule) == Some(s) && Next(s, t, call) == Some(s')
    ensures Run(s0, longer) == Some(s')
  {
    RunOneMore(s0, schedule, t, call);
    longer := schedule + [(t, call)];
  }

  /** From a state in which thread t is idle and the mutex free: a whole Put. */
  lemma WholePut<T>(s0: State<T>, schedule: Schedule<T>, s: State<T>, t: ThreadId, elem: T)
    returns (longer: Schedule<T>, s': State<T>)
    requires Run(s0, schedule) == Some(s)
    requires t in s.threads && s.threads[t].Idle? && s.empty > 0 && s.mutex.None?
    ensures Run(s0, longer) == Some(s')
    ensures s' == s.(empty := s.empty - 1, full := s.full + 1, queue := s.queue + [elem])
  {
    var s1, run1 := LockedPut(s0, schedule, s, t, elem);
    longer, s' := FinishPut(s0, run1, s1, t, elem);
    assert s'.threads == s.threads;
  }

  /** ... as far as the mutex, */
  lemma LockedPut<T>(s0: State<T>, schedule: Schedule<T>, s: State<T>, t: ThreadId, elem: T)
    returns (s': State<T>, longer: Schedule<T>)
    requires Run(s0, schedule) == Some(s)
    requires t in s.threads && s.threads[t].Idle? && s.empty > 0 && s.mutex.None?
    ensures Run(s0, longer) == Some(s')
    ensures s' == At(s.(empty := s.empty - 1, mutex := Some(t)), t, PutLocked(elem))
  {
    var s1 := At(s.(empty := s.empty - 1), t, PutClaimed(elem, false));
    longer := Extend(s0, schedule, s, t, Put(elem), s1);
    s' := At(s.(empty := s.empty - 1, mutex := Some(t)), t, PutLocked(elem));
    assert s'.threads == s1.threads[t := PutLocked(elem)];
    longer := Extend(s0, longer, s1, t, Put(elem), s');
  }

  /** ... and from there to the end. */
  lemma FinishPut<T>(s0: State<T>, schedule: Schedule<T>, s: State<T>, t: ThreadId, elem: T)
    returns (longer: Schedule<T>, s': State<T>)
    requires Run(s0, schedule) == Some(s)
    requires t in s.threads && s.threads[t] == PutLocked(elem)
    ensures Run(s0, longer) == Some(s')
    ensures s' == At(s.(queue := s.queue + [elem], mutex := None, full := s.full + 1), t, Idle)
  {
    var s1 := At(s.(queue := s.queue + [elem]), t, PutPushed);
    longer := Extend(s0, schedule, s, t, Put(elem), s1);
    var s2 := At(s1.(mutex := None), t, PutReleased);
    longer := Extend(s0, longer, s1, t, Put(elem), s2);
    s' := At(s2.(full := s2.full + 1), t, Idle);
    longer := Extend(s0, longer, s2, t, Put(elem), s');
    assert s'.threads == s.threads[t := Idle];
  }

  // ----- Without contention nobody misses the mutex

  /** At most one thread can be inside a call. */
  predicate Uncontended(capacity: nat, ids: set<ThreadId>) {
    capacity <= 1 || |ids| <= 1
  }

  ghost predicate NoMiss<T>(s: State<T>) {
    s.missedPuts == 0 && s.missedGets == 0 && Uncontended(s.capacity, s.threads.Keys)
  }

  /** Two threads inside calls are more than a queue without contention has. */
  lemma TwoInside<T>(s: State<T>, t: ThreadId, u: ThreadId)
    requires Inv(s) && Uncontended(s.capacity, s.threads.Keys)
    requires t in s.threads && u in s.threads && t != u
    ensures s.threads[t].Idle? || s.threads[u].Idle?
  {
    assert {t, u} <= s.threads.Keys;
    SmallerSet({t, u}, s.threads.Keys);
    if !s.threads[t].Idle? && !s.threads[u].Idle? {
      var d, e := DebtOf(s.threads[t]), DebtOf(s.threads[u]);
      InDebt(s, t);
      InDebt(s, u);
      if d == e {
        SmallerSet({t, u}, Debtors(s.threads, d));
      } else {
        SmallerSet({t}, Debtors(s.threads, d));
        SmallerSet({u}, Debtors(s.threads, e));
      }
      assert false;
    }
  }

  lemma InDebt<T>(s: State<T>, t: ThreadId)
    requires t in s.threads && !s.threads[t].Idle?
    ensures DebtOf(s.threads[t]) != Nothing && t in Debtors(s.threads, DebtOf(s.threads[t]))
  {
  }

  lemma NoMissStep<T>(s: State<T>, t: ThreadId, call: Call<T>)
    requires Inv(s) && NoMiss(s) && Next(s, t, call).Some?
    ensures NoMiss(Next(s, t, call).value) && Next(s, t, call).value.threads.Keys == s.threads.Keys
  {
    StepMoves(s, t, call);
    if s.mutex.Some? && t != s.mutex.value { OthersAreIdle(s, t); }
    if s.mutex.Some? { MutexHeld(s); }
    hide Inv, Uncontended;
    MissNeedsMutex(s, t, call);
    hide Next;
  }

  /** Only a thread between semaphore and mutex can miss, and only if somebody holds the mutex. */
  lemma MissNeedsMutex<T>(s: State<T>, t: ThreadId, call: Call<T>)
    requires Next(s, t, call).Some?
    requires s.mutex.Some? && t != s.mutex.value ==> s.threads[t].Idle?
    requires s.mutex == Some(t) ==> HoldsMutex(s.threads[t])
    ensures var s' := Next(s, t, call).value; s'.missedPuts == s.missedPuts && s'.missedGets == s.missedGets
  {
  }

  lemma OthersAreIdle<T>(s: State<T>, t: ThreadId)
    requires Inv(s) && Uncontended(s.capacity, s.threads.Keys)
    requires s.mutex.Some? && t != s.mutex.value && t in s.threads
    ensures s.threads[t].Idle?
  {
    MutexHeld(s);
    TwoInside(s, t, s.mutex.value);
  }

  lemma MutexHeld<T>(s: State<T>)
    requires Inv(s) && s.mutex.Some?
    ensures s.mutex.value in s.threads && HoldsMutex(s.threads[s.mutex.value])
  {
  }

  lemma {:induction false} NoMissRun<T>(s: State<T>, schedule: Schedule<T>)
    requires Inv(s) && NoMiss(s) && Run(s, schedule).Some?
    ensures NoMiss(Run(s, schedule).value) && Inv(Run(s, schedule).value)
    ensures Run(s, schedule).value.threads.Keys == s.threads.Keys && Run(s, schedule).value.capacity == s.capacity
    decreases |schedule|
  {
    hide Inv, NoMiss, Next;
    if schedule != [] {
      StepInv(s, schedule[0].0, schedule[0].1);
      NoMissStep(s, schedule[0].0, schedule[0].1);
      NoMissRun(Next(s, schedule[0].0, schedule[0].1).value, schedule[1..]);
    }
  }

  lemma UncontendedRun<T>(capacity: nat, ids: set<ThreadId>, schedule: Schedule<T>)
    requires Uncontended(capacity, ids) && Run(Init(capacity, ids), schedule).Some?
    ensures var s := Run(Init(capacity, ids), schedule).value; s.missedPuts == 0 && s.missedGets == 0
  {
    InitInv<T>(capacity, ids);
    assert Init<T>(capacity, ids).threads.Keys == ids;
    NoMissRun(Init(capacity, ids), schedule);
  }

  // ----- With contention both things happen

  /** Thread a pushes one value; thread b's TryPut misses meanwhile and posts a token for
      nothing, with which b takes that value away before a can get it. */
  lemma EmptyPopRun<T>(capacity: nat, ids: set<ThreadId>, a: ThreadId, b: ThreadId, elem: T) returns (run: Schedule<T>)
    requires capacity >= 2 && a in ids && b in ids && a != b
    ensures Run(Init(capacity, ids), run).Some? && PopsEmpty(Run(Init(capacity, ids), run).value, a)
  {
    hide Run;
    var s0 := Init<T>(capacity, ids);
    EmptyRun(s0);
    var s;
    s, run := LockedPut(s0, [], s0, a, elem);
    run, s := MissedPut(s0, run, s, b, elem);
    var claimed := At(s.(full := 0), b, GetClaimed(false));
    run := Extend(s0, run, s, b, Get, claimed);
    run, s := FinishPut(s0, run, claimed, a, elem);
    run, s := TakeLast(s0, run, s, b);
    var again := At(s.(full := 0), a, GetClaimed(false));
    run := Extend(s0, run, s, a, Get, again);
    var locked := At(again.(mutex := Some(a)), a, GetLocked);
    run := Extend(s0, run, again, a, Get, locked);
  }

  lemma EmptyRun<T>(s: State<T>)
    ensures Run(s, []) == Some(s)
  {
  }

  /** A TryPut that misses the mutex: the token of empty_ becomes one of full_. */
  lemma MissedPut<T>(s0: State<T>, schedule: Schedule<T>, s: State<T>, t: ThreadId, elem: T)
    returns (longer: Schedule<T>, s': State<T>)
    requires Run(s0, schedule) == Some(s)
    requires t in s.threads && s.threads[t].Idle? && s.empty > 0 && s.mutex.Some?
    ensures Run(s0, longer) == Some(s')
    ensures s' == s.(empty := s.empty - 1, full := s.full + 1, missedPuts := s.missedPuts + 1)
  {
    hide Run;
    var claimed := At(s.(empty := s.empty - 1), t, PutClaimed(elem, true));
    longer := Extend(s0, schedule, s, t, TryPut(elem), claimed);
    var missed := At(claimed.(missedPuts := s.missedPuts + 1), t, PutMissed);
    longer := Extend(s0, longer, claimed, t, TryPut(elem), missed);
    s' := At(missed.(full := s.full + 1), t, Idle);
    longer := Extend(s0, longer, missed, t, TryPut(elem), s');
    assert s'.threads == s.threads;
  }

  /** A TryGet that misses the mutex: the token of full_ becomes one of empty_. */
  lemma MissedGet<T>(s0: State<T>, schedule: Schedule<T>, s: State<T>, t: ThreadId)
    returns (longer: Schedule<T>, s': State<T>)
    requires Run(s0, schedule) == Some(s)
    requires t in s.threads && s.threads[t].Idle? && s.full > 0 && s.mutex.Some?
    ensures Run(s0, longer) == Some(s')
    ensures s' == s.(empty := s.empty + 1, full := s.full - 1, missedGets := s.missedGets + 1)
  {
    hide Run;
    var claimed := At(s.(full := s.full - 1), t, GetClaimed(true));
    longer := Extend(s0, schedule, s, t, TryGet, claimed);
    var missed := At(claimed.(missedGets := s.missedGets + 1), t, GetMissed);
    longer := Extend(s0, longer, claimed, t, TryGet, missed);
    s' := At(missed.(empty := s.empty + 1), t, Idle);
    longer := Extend(s0, longer, missed, t, TryGet, s');
    assert s'.threads == s.threads;
  }

  /** A Get that waits for the mutex takes the only value and gives the mutex back. */
  lemma TakeLast<T>(s0: State<T>, schedule: Schedule<T>, s: State<T>, t: ThreadId)
    returns (longer: Schedule<T>, s': State<T>)
    requires Run(s0, schedule) == Some(s)
    requires t in s.threads && s.threads[t].GetClaimed? && |s.queue| == 1 && s.mutex.None?
    ensures Run(s0, longer) == Some(s')
    ensures s'.queue == [] && s'.mutex.None? && s'.full == s.full && s'.threads.Keys == s.threads.Keys
    ensures forall u :: u in s.threads && u != t ==> s'.threads[u] == s.threads[u]
  {
    hide Run;
    var locked := At(s.(mutex := Some(t)), t, GetLocked);
    longer := Extend(s0, schedule, s, t, Get, locked);
    var popped := At(locked.(queue := s.queue[1..]), t, GetPopped(s.queue[0]));
    longer := Extend(s0, longer, locked, t, Get, popped);
    s' := At(popped.(mutex := None), t, GetReleased(s.queue[0]));
    longer := Extend(s0, longer, popped, t, Get, s');
  }

  /** k values, put one after the other. */
  lemma {:induction false} FillRun<T>(s0: State<T>, t: ThreadId, elem: T, k: nat) returns (run: Schedule<T>, s: State<T>)
    requires t in s0.threads && s0.threads[t].Idle? && s0.mutex.None? && s0.empty >= k
    ensures Run(s0, run) == Some(s)
    ensures s.empty == s0.empty - k && s.full == s0.full + k && |s.queue| == |s0.queue| + k
    ensures s.threads == s0.threads && s.mutex.None?
    decreases k
  {
    hide Run;
    if k == 0 {
      run, s := [], s0;
      EmptyRun(s0);
    } else {
      run, s := FillRun(s0, t, elem, k - 1);
      run, s := WholePut(s0, run, s, t, elem);
    }
  }

  /** Thread a fills the queue; thread b's TryGet misses during the last Put and posts a
      token for nothing, with which a puts one value too many. */
  lemma OverflowRun<T>(capacity: nat, ids: set<ThreadId>, a: ThreadId, b: ThreadId, elem: T) returns (run: Schedule<T>)
    requires capacity >= 2 && a in ids && b in ids && a != b
    ensures Run(Init(capacity, ids), run).Some? && |Run(Init(capacity, ids), run).value.queue| == capacity + 1
  {
    hide Run;
    var s0 := Init<T>(capacity, ids);
    var s;
    run, s := FillRun(s0, a, elem, capacity - 1);
    s, run := LockedPut(s0, run, s, a, elem);
    run, s := MissedGet(s0, run, s, b);
    run, s := FinishPut(s0, run, s, a, elem);
    run, s := WholePut(s0, run, s, a, elem);
  }

  lemma TwoThreads(ids: set<ThreadId>) returns (a: ThreadId, b: ThreadId)
    requires |ids| >= 2
    ensures a in ids && b in ids && a != b
  {
    a :| a in ids;
    assert |ids - {a}| >= 1;
    b :| b in ids - {a};
  }

  // ----- Exactly when

  /** After this run, thread t is about to pop the empty deque. */
  ghost predicate EndsInEmptyPop<T>(capacity: nat, ids: set<ThreadId>, schedule: Schedule<T>, t: ThreadId) {
    Run(Init(capacity, ids), schedule).Some? && PopsEmpty(Run(Init(capacity, ids), schedule).value, t)
  }

  /** After this run, the queue holds more values than its capacity. */
  ghost predicate EndsOverCapacity<T>(capacity: nat, ids: set<ThreadId>, schedule: Schedule<T>) {
    Run(Init(capacity, ids), schedule).Some? && |Run(Init(capacity, ids), schedule).value.queue| > capacity
  }

  /** No run pops the empty deque if and only if the queue holds at most one value or at
      most one thread uses it. */
  lemma EmptyPopsExactly<T>(capacity: nat, ids: set<ThreadId>, elem: T)
    ensures (forall schedule: Schedule<T>, t :: !EndsInEmptyPop(capacity, ids, schedule, t)) <==> Uncontended(capacity, ids)
  {
    hide Run, PopsEmpty;
    if Uncontended(capacity, ids) {
      forall schedule: Schedule<T>, t
        ensures !EndsInEmptyPop(capacity, ids, schedule, t)
      {
        if Run(Init<T>(capacity, ids), schedule).Some? {
          UncontendedRun(capacity, ids, schedule);
          NeverPopsEmpty(capacity, ids, schedule, t);
        }
      }
    } else {
      var a, b := TwoThreads(ids);
      var run := EmptyPopRun(capacity, ids, a, b, elem);
      assert EndsInEmptyPop(capacity, ids, run, a);
    }
  }

  /** No run takes the queue over its capacity if and only if the same holds. */
  lemma OverflowsExactly<T>(capacity: nat, ids: set<ThreadId>, elem: T)
    ensures (forall schedule: Schedule<T> :: !EndsOverCapacity(capacity, ids, schedule)) <==> Uncontended(capacity, ids)
  {
    hide Run;
    if Uncontended(capacity, ids) {
      forall schedule: Schedule<T>
        ensures !EndsOverCapacity(capacity, ids, schedule)
      {
        if Run(Init<T>(capacity, ids), schedule).Some? {
          UncontendedRun(capacity, ids, schedule);
          QueueStaysBounded(capacity, ids, schedule);
        }
      }
    } else {
      var a, b := TwoThreads(ids);
      var run := OverflowRun(capacity, ids, a, b, elem);
      assert EndsOverCapacity(capacity, ids, run);
    }
  }

  // ----- Callers that use only one of the two

  predicate NoTryPut<T>(schedule: Schedule<T>) {
    forall k :: 0 <= k < |schedule| ==> !schedule[k].1.TryPut?
  }

  predicate NoTryGet<T>(schedule: Schedule<T>) {
    forall k :: 0 <= k < |schedule| ==> !schedule[k].1.TryGet?
  }

  ghost predicate NobodyTriesPut<T>(s: State<T>) {
    s.missedPuts == 0 && forall t :: t in s.threads && s.threads[t].PutClaimed? ==> !s.threads[t].try
  }

  ghost predicate NobodyTriesGet<T>(s: State<T>) {
    s.missedGets == 0 && forall t :: t in s.threads && s.threads[t].GetClaimed? ==> !s.threads[t].try
  }

  lemma {:induction false} NoTryPutRun<T>(s: State<T>, schedule: Schedule<T>)
    requires NobodyTriesPut(s) && NoTryPut(schedule) && Run(s, schedule).Some?
    ensures Run(s, schedule).value.missedPuts == 0
    decreases |schedule|
  {
    if schedule != [] {
      var s' := Next(s, schedule[0].0, schedule[0].1).value;
      assert NobodyTriesPut(s');
      hide Next;
      NoTryPutRun(s', schedule[1..]);
    }
  }

  lemma {:induction false} NoTryGetRun<T>(s: State<T>, schedule: Schedule<T>)
    requires NobodyTriesGet(s) && NoTryGet(schedule) && Run(s, schedule).Some?
    ensures Run(s, schedule).value.missedGets == 0
    decreases |schedule|
  {
    if schedule != [] {
      var s' := Next(s, schedule[0].0, schedule[0].1).value;
      assert NobodyTriesGet(s');
      hide Next;
      NoTryGetRun(s', schedule[1..]);
    }
  }

  /** Whatever the capacity and however many threads: where nobody calls TryPut, no pop
      finds the deque empty. */
  lemma WithoutTryPut<T>(capacity: nat, ids: set<ThreadId>, schedule: Schedule<T>, t: ThreadId)
    requires NoTryPut(schedule)
    ensures !EndsInEmptyPop(capacity, ids, schedule, t)
  {
    hide Run, PopsEmpty, NoTryPut;
    if Run(Init<T>(capacity, ids), schedule).Some? {
      NoTryPutRun(Init(capacity, ids), schedule);
      NeverPopsEmpty(capacity, ids, schedule, t);
    }
  }

  /** Where nobody calls TryGet, the queue keeps to its capacity. */
  lemma WithoutTryGet<T>(capacity: nat, ids: set<ThreadId>, schedule: Schedule<T>)
    requires NoTryGet(schedule)
    ensures !EndsOverCapacity(capacity, ids, schedule)
  {
    hide Run, NoTryGet;
    if Run(Init<T>(capacity, ids), schedule).Some? {
      NoTryGetRun(Init(capacity, ids), schedule);
      QueueStaysBounded(capacity, ids, schedule);
    }
  }
}
