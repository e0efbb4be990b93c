/** ProducerConsumerQueue (pcqueue.h): a deque, a mutex and two semaphores, used
    by any number of threads. One step is one semaphore, mutex or deque operation
    of one thread, and steps interleave freely. */
module ProducerConsumer {
  import opened CStrings

  datatype Call<T> = Put(elem: T) | Get | TryPut(elem: T) | TryGet

  /** Where a thread stands inside a call. */
  datatype PC<T> =
    | Idle
    | PutClaimed(elem: T, try: bool)  // took a token of empty_
    | PutLocked(elem: T)              // holds the mutex
    | PutPushed
    | PutReleased                     // about to post full_
    | PutMissed                       // TryPut did not get the mutex: posts full_ all the same
    | GetClaimed(try: bool)           // took a token of full_
    | GetLocked
    | GetPopped(elem: T)
    | GetReleased(elem: T)            // about to post empty_
    | GetMissed                       // TryGet did not get the mutex: posts empty_ all the same

  type ThreadId = nat

  datatype State<T> = State(
    capacity: nat,
    queue: seq<T>,
    full: nat,
    empty: nat,
    mutex: Option<ThreadId>,
    threads: map<ThreadId, PC<T>>,
    // History: how often a try missed the mutex.
    missedPuts: nat,
    missedGets: nat)

  function Init<T>(capacity: nat, ids: set<ThreadId>): State<T> {
    State(capacity, [], 0, capacity, None, map t | t in ids :: Idle, 0, 0)
  }

  function At<T>(s: State<T>, t: ThreadId, pc: PC<T>): State<T> {
    s.(threads := s.threads[t := pc])
  }

  /** Popping an empty deque is undefined. */
  predicate PopsEmpty<T>(s: State<T>, t: ThreadId) {
    t in s.threads && s.threads[t].GetLocked? && s.queue == []
  }

  /** The next step of thread t; an idle thread starts `call`. None: the thread
      does not exist, waits for a semaphore or the mutex, or has no defined step. */
  function Next<T>(s: State<T>, t: ThreadId, call: Call<T>): Option<State<T>> {
    if t !in s.threads then None
    else if s.threads[t].Idle? then Begin(s, t, call)
    else if Putting(s.threads[t]) then NextPut(s, t)
    else NextGet(s, t)
  }

  predicate Putting<T>(pc: PC<T>) {
    pc.PutClaimed? || pc.PutLocked? || pc.PutPushed? || pc.PutReleased? || pc.PutMissed?
  }

  function NextPut<T>(s: State<T>, t: ThreadId): Option<State<T>>
    requires t in s.threads && Putting(s.threads[t])
  {
    match s.threads[t]
    case PutClaimed(elem, try) =>
      if s.mutex.None? then Some(At(s.(mutex := Some(t)), t, PutLocked(elem)))
      else if try then Some(At(s.(missedPuts := s.missedPuts + 1), t, PutMissed))
      else None
    case PutLocked(elem) => Some(At(s.(queue := s.queue + [elem]), t, PutPushed))
    case PutPushed => Some(At(s.(mutex := None), t, PutReleased))
    case PutReleased => Some(At(s.(full := s.full + 1), t, Idle))
    case PutMissed => Some(At(s.(full := s.full + 1), t, Idle))
  }

  function NextGet<T>(s: State<T>, t: ThreadId): Option<State<T>>
    requires t in s.threads && !s.threads[t].Idle? && !Putting(s.threads[t])
  {
    match s.threads[t]
    case GetClaimed(try) =>
      if s.mutex.None? then Some(At(s.(mutex := Some(t)), t, GetLocked))
      else if try then Some(At(s.(missedGets := s.missedGets + 1), t, GetMissed))
      else None
    case GetLocked =>
      if s.queue == [] then None
      else Some(At(s.(queue := s.queue[1..]), t, GetPopped(s.queue[0])))
    case GetPopped(elem) => Some(At(s.(mutex := None), t, GetReleased(elem)))
    case GetReleased(_) => Some(At(s.(empty := s.empty + 1), t, Idle))
    case GetMissed => Some(At(s.(empty := s.empty + 1), t, Idle))
  }

  function Begin<T>(s: State<T>, t: ThreadId, call: Call<T>): Option<State<T>> {
    match call
    case Put(elem) => if s.empty == 0 then None else Some(At(s.(empty := s.empty - 1), t, PutClaimed(elem, false)))
    case TryPut(elem) => if s.empty == 0 then Some(s) else Some(At(s.(empty := s.empty - 1), t, PutClaimed(elem, true)))
    case Get => if s.full == 0 then None else Some(At(s.(full := s.full - 1), t, GetClaimed(false)))
    case TryGet => if s.full == 0 then Some(s) else Some(At(s.(full := s.full - 1), t, GetClaimed(true)))
  }

  /** A thread waits only for a token it must have, or for the mutex it must have; a try
      waits for neither. */
  lemma WaitsExactly<T>(s: State<T>, t: ThreadId, call: Call<T>)
    requires t in s.threads && !PopsEmpty(s, t)
    ensures Next(s, t, call).None? <==>
      match s.threads[t]
      case Idle => (call.Put? && s.empty == 0) || (call.Get? && s.full == 0)
      case PutClaimed(_, try) => !try && s.mutex.Some?
      case GetClaimed(try) => !try && s.mutex.Some?
      case _ => false
  {
  }

  /** One interleaving: whose turn it is, and what it calls if it is idle. */
  type Schedule<T> = seq<(ThreadId, Call<T>)>

  function Run<T>(s: State<T>, schedule: Schedule<T>): Option<State<T>>
    decreases |schedule|
  {
    if schedule == [] then Some(s)
    else match Next(s, schedule[0].0, schedule[0].1)
      case None => None
      case Some(s') => Run(s', schedule[1..])
  }

  // ----- Counting threads

  /** What a thread inside a call has taken and not yet given. */
  datatype Debt =
    | Nothing
    | OwesPush   // took a token of empty_, has not pushed
    | OwesFull   // has pushed, or missed the mutex: owes full_ a token
    | OwesPop    // took a token of full_, has not popped
    | OwesEmpty  // has popped, or missed the mutex: owes empty_ a token

  function DebtOf<T>(pc: PC<T>): Debt {
    match pc
    case Idle => Nothing
    case PutClaimed(_, _) => OwesPush
    case PutLocked(_) => OwesPush
    case PutPushed => OwesFull
    case PutReleased => OwesFull
    case PutMissed => OwesFull
    case GetClaimed(_) => OwesPop
    case GetLocked => OwesPop
    case GetPopped(_) => OwesEmpty
    case GetReleased(_) => OwesEmpty
    case GetMissed => OwesEmpty
  }

  function Debtors<T>(threads: map<ThreadId, PC<T>>, d: Debt): set<ThreadId> {
    set t | t in threads && DebtOf(threads[t]) == d
  }

  function Count<T>(s: State<T>, d: Debt): nat {
    |Debtors(s.threads, d)|
  }

  /** The number of threads inside a call. */
  function InFlight<T>(s: State<T>): nat {
    Count(s, OwesPush) + Count(s, OwesFull) + Count(s, OwesPop) + Count(s, OwesEmpty)
  }

  lemma DebtorsUpdate<T>(threads: map<ThreadId, PC<T>>, t: ThreadId, pc: PC<T>, d: Debt)
    requires t in threads
    ensures t in Debtors(threads, d) <==> DebtOf(threads[t]) == d
    ensures Debtors(threads[t := pc], d) == if DebtOf(pc) == d then Debtors(threads, d) + {t} else Debtors(threads, d) - {t}
  {
  }

  lemma CountUpdate<T>(threads: map<ThreadId, PC<T>>, t: ThreadId, pc: PC<T>, d: Debt)
    requires t in threads
    ensures |Debtors(threads[t := pc], d)|
         == |Debtors(threads, d)| - (if DebtOf(threads[t]) == d then 1 else 0) + (if DebtOf(pc) == d then 1 else 0)
  {
    hide Debtors, DebtOf;
    DebtorsUpdate(threads, t, pc, d);
  }

  predicate HoldsMutex<T>(pc: PC<T>) {
    pc.PutLocked? || pc.PutPushed? || pc.GetLocked? || pc.GetPopped?
  }

  // ----- Invariants of every run

  /** No token is ever lost or made, whatever the tries do. */
  predicate TokenSum<T>(s: State<T>) {
    s.empty + s.full + InFlight(s) == s.capacity
  }

  /** The tokens that stand for queued values, and by how much missed tries have
      made them wrong. */
  predicate QueueLength<T>(s: State<T>) {
    s.full + Count(s, OwesFull) + Count(s, OwesPop) == |s.queue| + s.missedPuts - s.missedGets
  }

  ghost predicate MutualExclusion<T>(s: State<T>) {
    && (s.mutex.Some? ==> s.mutex.value in s.threads)
    && forall t :: t in s.threads ==> (HoldsMutex(s.threads[t]) <==> s.mutex == Some(t))
  }

  ghost predicate Inv<T>(s: State<T>) {
    TokenSum(s) && QueueLength(s) && MutualExclusion(s)
  }

  lemma InitInv<T>(capacity: nat, ids: set<ThreadId>)
    ensures Inv(Init<T>(capacity, ids))
  {
    NobodyInside(Init<T>(capacity, ids));
  }

  lemma NobodyInside<T>(s: State<T>)
    requires forall t :: t in s.threads ==> s.threads[t].Idle?
    ensures InFlight(s) == Count(s, OwesFull) == Count(s, OwesPop) == 0
  {
    assert Debtors(s.threads, OwesPush) == {};
    assert Debtors(s.threads, OwesFull) == {};
    assert Debtors(s.threads, OwesPop) == {};
    assert Debtors(s.threads, OwesEmpty) == {};
  }

  /** How a step that moves t to pc changes the counts. */
  lemma CountsUpdate<T>(s: State<T>, t: ThreadId, pc: PC<T>)
    requires t in s.threads
    ensures forall d :: |Debtors(s.threads[t := pc], d)|
                     == Count(s, d) - (if DebtOf(s.threads[t]) == d then 1 else 0) + (if DebtOf(pc) == d then 1 else 0)
  {
    forall d {
      CountUpdate(s.threads, t, pc, d);
    }
  }

  lemma BeginInv<T>(s: State<T>, t: ThreadId, call: Call<T>)
    requires Inv(s) && t in s.threads && s.threads[t].Idle? && Begin(s, t, call).Some?
    ensures Inv(Begin(s, t, call).value)
  {
    hide TokenSum, QueueLength;
    var s' := Begin(s, t, call).value;
    if s' != s { TokensKept(s, s', t, Nothing, DebtOf(s'.threads[t])); }
  }

  function One(b: bool): nat {
    if b then 1 else 0
  }

  /** What thread t gives and takes in a step balances what it owes before and after. */
  lemma TokensKept<T>(s: State<T>, s': State<T>, t: ThreadId, from: Debt, to: Debt)
    requires TokenSum(s) && QueueLength(s) && t in s.threads && t in s'.threads
    requires s'.threads == s.threads[t := s'.threads[t]] && s'.capacity == s.capacity
    requires from == DebtOf(s.threads[t]) && to == DebtOf(s'.threads[t])
    requires s'.empty + s'.full + One(to != Nothing) == s.empty + s.full + One(from != Nothing)
    requires s'.full + One(to.OwesFull? || to.OwesPop?) - |s'.queue| - s'.missedPuts + s'.missedGets
          == s.full + One(from.OwesFull? || from.OwesPop?) - |s.queue| - s.missedPuts + s.missedGets
    ensures TokenSum(s') && QueueLength(s')
  {
    hide Debtors, DebtOf;
    CountsUpdate(s, t, s'.threads[t]);
    assert Count(s', OwesPush) == Count(s, OwesPush) - One(from.OwesPush?) + One(to.OwesPush?);
    assert Count(s', OwesFull) == Count(s, OwesFull) - One(from.OwesFull?) + One(to.OwesFull?);
    assert Count(s', OwesPop) == Count(s, OwesPop) - One(from.OwesPop?) + One(to.OwesPop?);
    assert Count(s', OwesEmpty) == Count(s, OwesEmpty) - One(from.OwesEmpty?) + One(to.OwesEmpty?);
  }

  lemma PutInv<T>(s: State<T>, t: ThreadId)
    requires Inv(s) && t in s.threads && Putting(s.threads[t]) && NextPut(s, t).Some?
    ensures Inv(NextPut(s, t).value)
  {
    hide TokenSum, QueueLength;
    var s' := NextPut(s, t).value;
    TokensKept(s, s', t, DebtOf(s.threads[t]), DebtOf(s'.threads[t]));
  }

  lemma GetInv<T>(s: State<T>, t: ThreadId)
    requires Inv(s) && t in s.threads && !s.threads[t].Idle? && !Putting(s.threads[t]) && NextGet(s, t).Some?
    ensures Inv(NextGet(s, t).value)
  {
    hide TokenSum, QueueLength;
    var s' := NextGet(s, t).value;
    TokensKept(s, s', t, DebtOf(s.threads[t]), DebtOf(s'.threads[t]));
  }

  lemma StepInv<T>(s: State<T>, t: ThreadId, call: Call<T>)
    requires Inv(s) && Next(s, t, call).Some?
    ensures Inv(Next(s, t, call).value)
    ensures Next(s, t, call).value.capacity == s.capacity
  {
    if s.threads[t].Idle? {
      BeginInv(s, t, call);
    } else if Putting(s.threads[t]) {
      PutInv(s, t);
    } else {
      GetInv(s, t);
    }
  }

  lemma {:induction false} RunInv<T>(s: State<T>, schedule: Schedule<T>)
    requires Inv(s) && Run(s, schedule).Some?
    ensures Inv(Run(s, schedule).value)
    ensures Run(s, schedule).value.capacity == s.capacity
    decreases |schedule|
  {
    if schedule != [] {
      StepInv(s, schedule[0].0, schedule[0].1);
      RunInv(Next(s, schedule[0].0, schedule[0].1).value, schedule[1..]);
    }
  }

  // ----- What the callers see

  /** A get that has popped: whose it is, and what it has returned; none while it is inside. */
  datatype Got<T> = Got(thread: ThreadId, value: Option<T>)

  /** The calls of a run, as their callers see them. */
  datatype Trace<T> = Trace(
    arguments: map<ThreadId, T>,  // what the put a thread is in was given
    puts: seq<T>,                 // the arguments of the puts that have queued them, in order
    gets: seq<Got<T>>,            // the gets, in the order of their pops
    turns: map<ThreadId, nat>)    // which of them a thread is in

  function NothingSeen<T>(): Trace<T> {
    Trace(map[], [], [], map[])
  }

  /** A put is given its argument by the schedule; a get returns its value when it leaves. */
  function Observe<T>(tr: Trace<T>, s: State<T>, t: ThreadId, call: Call<T>): Trace<T>
    requires t in s.threads
  {
    match s.threads[t]
    case Idle => if call.Put? || call.TryPut? then tr.(arguments := tr.arguments[t := call.elem]) else tr
    case PutLocked(_) => if t in tr.arguments then tr.(puts := tr.puts + [tr.arguments[t]]) else tr
    case GetLocked => tr.(gets := tr.gets + [Got(t, None)], turns := tr.turns[t := |tr.gets|])
    case GetReleased(elem) =>
      if t in tr.turns && tr.turns[t] < |tr.gets| then tr.(gets := tr.gets[tr.turns[t] := Got(t, Some(elem))]) else tr
    case _ => tr
  }

  function Watch<T>(tr: Trace<T>, s: State<T>, schedule: Schedule<T>): Trace<T>
    decreases |schedule|
  {
    if schedule == [] then tr
    else match Next(s, schedule[0].0, schedule[0].1)
      case None => tr
      case Some(s') => Watch(Observe(tr, s, schedule[0].0, schedule[0].1), s', schedule[1..])
  }

  predicate Popped<T>(pc: PC<T>) {
    pc.GetPopped? || pc.GetReleased?
  }

  /** What is queued has been put and not got yet, */
  predicate QueueFollows<T(==)>(s: State<T>, tr: Trace<T>) {
    |tr.gets| <= |tr.puts| && s.queue == tr.puts[|tr.gets|..]
  }

  /** a put holds its argument, */
  ghost predicate PutsFollow<T>(s: State<T>, tr: Trace<T>) {
    forall t :: t in s.threads && (s.threads[t].PutClaimed? || s.threads[t].PutLocked?) ==>
                  t in tr.arguments && tr.arguments[t] == s.threads[t].elem
  }

  /** a get holds the value of its turn, */
  ghost predicate GetsFollow<T>(s: State<T>, tr: Trace<T>) {
    |tr.gets| <= |tr.puts| && forall t :: t in s.threads && Popped(s.threads[t]) ==>
      && t in tr.turns && tr.turns[t] < |tr.gets|
      && tr.gets[tr.turns[t]] == Got(t, None) && s.threads[t].elem == tr.puts[tr.turns[t]]
  }

  /** and what was returned was put at the same place, if the get is not inside any more. */
  ghost predicate ReturnsFollow<T>(s: State<T>, tr: Trace<T>) {
    |tr.gets| <= |tr.puts| && forall i :: 0 <= i < |tr.gets| ==>
      match tr.gets[i].value
      case Some(v) => v == tr.puts[i]
      case None => var t := tr.gets[i].thread; t in s.threads && Popped(s.threads[t]) && t in tr.turns && tr.turns[t] == i
  }

  ghost predicate Follows<T>(s: State<T>, tr: Trace<T>) {
    QueueFollows(s, tr) && PutsFollow(s, tr) && GetsFollow(s, tr) && ReturnsFollow(s, tr)
  }

  lemma FollowStep<T>(s: State<T>, tr: Trace<T>, t: ThreadId, call: Call<T>)
    requires Follows(s, tr) && Next(s, t, call).Some?
    ensures Follows(Next(s, t, call).value, Observe(tr, s, t, call))
  {
    hide QueueFollows, PutsFollow, GetsFollow, ReturnsFollow, Next, Observe;
    StepMoves(s, t, call);
    FollowQueue(s, tr, t, call);
    FollowPuts(s, tr, t, call);
    FollowGets(s, tr, t, call);
  }

  lemma StepMoves<T>(s: State<T>, t: ThreadId, call: Call<T>)
    requires Next(s, t, call).Some?
    ensures var s' := Next(s, t, call).value;
      t in s.threads && s'.threads.Keys == s.threads.Keys && s'.capacity == s.capacity
      && forall u :: u in s.threads && u != t ==> s'.threads[u] == s.threads[u]
  {
    var s' := Next(s, t, call).value;
    assert s' == s || s'.threads.Keys == s.threads.Keys + {t} == s.threads.Keys;
  }

  lemma FollowQueue<T>(s: State<T>, tr: Trace<T>, t: ThreadId, call: Call<T>)
    requires QueueFollows(s, tr) && PutsFollow(s, tr) && Next(s, t, call).Some?
    ensures QueueFollows(Next(s, t, call).value, Observe(tr, s, t, call))
  {
    var n := |tr.gets|;
    match s.threads[t] {
      case PutLocked(elem) => assert (tr.puts + [elem])[n..] == tr.puts[n..] + [elem];
      case GetLocked => assert tr.puts[n..][1..] == tr.puts[n + 1..];
      case _ =>
    }
  }

  lemma FollowPuts<T>(s: State<T>, tr: Trace<T>, t: ThreadId, call: Call<T>)
    requires PutsFollow(s, tr) && Next(s, t, call).Some?
    ensures PutsFollow(Next(s, t, call).value, Observe(tr, s, t, call))
  {
    StepMoves(s, t, call);
  }

  /** All threads but t are where they were. */
  ghost predicate OnlyMoves<T>(s: State<T>, s': State<T>, t: ThreadId) {
    t in s.threads && s'.threads.Keys == s.threads.Keys && forall u :: u in s.threads && u != t ==> s'.threads[u] == s.threads[u]
  }

  lemma FollowGets<T>(s: State<T>, tr: Trace<T>, t: ThreadId, call: Call<T>)
    requires QueueFollows(s, tr) && GetsFollow(s, tr) && ReturnsFollow(s, tr) && Next(s, t, call).Some?
    ensures GetsFollow(Next(s, t, call).value, Observe(tr, s, t, call))
    ensures ReturnsFollow(Next(s, t, call).value, Observe(tr, s, t, call))
  {
    var s', tr' := Next(s, t, call).value, Observe(tr, s, t, call);
    StepMoves(s, t, call);
    assert OnlyMoves(s, s', t);
    hide GetsFollow, ReturnsFollow, OnlyMoves;
    if s.threads[t].GetLocked? {
      assert s.queue[0] == tr.puts[|tr.gets|];
      PopFollows(s, s', tr, tr', t);
    } else if s.threads[t].GetReleased? {
      ReturnFollows(s, s', tr, tr', t);
    } else {
      QuietFollows(s, s', tr, tr', t);
    }
  }

  lemma QuietFollows<T>(s: State<T>, s': State<T>, tr: Trace<T>, tr': Trace<T>, t: ThreadId)
    requires GetsFollow(s, tr) && ReturnsFollow(s, tr) && OnlyMoves(s, s', t)
    requires tr'.gets == tr.gets && tr'.turns == tr.turns && tr.puts <= tr'.puts
    requires Popped(s'.threads[t]) <==> Popped(s.threads[t])
    requires Popped(s.threads[t]) ==> s'.threads[t].elem == s.threads[t].elem
    ensures GetsFollow(s', tr') && ReturnsFollow(s', tr')
  {
  }

  lemma PopFollows<T>(s: State<T>, s': State<T>, tr: Trace<T>, tr': Trace<T>, t: ThreadId)
    requires GetsFollow(s, tr) && ReturnsFollow(s, tr) && OnlyMoves(s, s', t)
    requires !Popped(s.threads[t]) && |tr.gets| < |tr.puts|
    requires tr' == tr.(gets := tr.gets + [Got(t, None)], turns := tr.turns[t := |tr.gets|])
    requires Popped(s'.threads[t]) && s'.threads[t].elem == tr.puts[|tr.gets|]
    ensures GetsFollow(s', tr') && ReturnsFollow(s', tr')
  {
  }

  lemma ReturnFollows<T>(s: State<T>, s': State<T>, tr: Trace<T>, tr': Trace<T>, t: ThreadId)
    requires GetsFollow(s, tr) && ReturnsFollow(s, tr) && OnlyMoves(s, s', t)
    requires Popped(s.threads[t]) && !Popped(s'.threads[t])
    requires t in tr.turns && tr.turns[t] < |tr.gets|
    requires tr' == tr.(gets := tr.gets[tr.turns[t] := Got(t, Some(s.threads[t].elem))])
    ensures GetsFollow(s', tr') && ReturnsFollow(s', tr')
  {
  }

  lemma {:induction false} FollowRun<T>(s: State<T>, tr: Trace<T>, schedule: Schedule<T>)
    requires Follows(s, tr) && Run(s, schedule).Some?
    ensures Follows(Run(s, schedule).value, Watch(tr, s, schedule))
    decreases |schedule|
  {
    hide Follows, Next, Observe;
    if schedule != [] {
      StepMoves(s, schedule[0].0, schedule[0].1);
      FollowStep(s, tr, schedule[0].0, schedule[0].1);
      FollowRun(Next(s, schedule[0].0, schedule[0].1).value, Observe(tr, s, schedule[0].0, schedule[0].1), schedule[1..]);
    }
  }

  /** First in, first out, over every interleaving: the k-th value that leaves the queue is
      returned to its caller as the k-th argument that came in, what came in and has not
      left is queued, and once nobody is inside a call all that has left has been returned. */
  lemma FirstInFirstOut<T>(capacity: nat, ids: set<ThreadId>, schedule: Schedule<T>)
    requires Run(Init(capacity, ids), schedule).Some?
    ensures var s, tr := Run(Init(capacity, ids), schedule).value, Watch(NothingSeen<T>(), Init(capacity, ids), schedule);
      && |tr.gets| <= |tr.puts| && s.queue == tr.puts[|tr.gets|..]
      && (forall k :: 0 <= k < |tr.gets| && tr.gets[k].value.Some? ==> tr.gets[k].value.value == tr.puts[k])
      && ((forall t :: t in s.threads ==> s.threads[t].Idle?) ==> forall k :: 0 <= k < |tr.gets| ==> tr.gets[k].value.Some?)
  {
    hide Run, Watch;
    FollowRun(Init(capacity, ids), NothingSeen<T>(), schedule);
  }

  // ----- What the queue promises

  /** Every reachable state: tokens add up, values leave in the order in which
      they came, and the semaphores count the queue exactly when as many puts as
      gets have missed the mutex. */
  lemma EveryRun<T>(capacity: nat, ids: set<ThreadId>, schedule: Schedule<T>)
    requires Run(Init(capacity, ids), schedule).Some?
    ensures var s := Run(Init(capacity, ids), schedule).value;
            && s.empty + s.full + InFlight(s) == capacity
            && Follows(s, Watch(NothingSeen<T>(), Init(capacity, ids), schedule))
            && (|s.queue| == s.full + Count(s, OwesFull) + Count(s, OwesPop)
                <==> s.missedPuts == s.missedGets)
  {
    InitInv<T>(capacity, ids);
    RunInv(Init(capacity, ids), schedule);
    FollowRun(Init(capacity, ids), NothingSeen<T>(), schedule);
  }

  /** As long as no more puts than gets have missed the mutex, no pop finds the deque empty. */
  lemma NeverPopsEmpty<T>(capacity: nat, ids: set<ThreadId>, schedule: Schedule<T>, t: ThreadId)
    requires Run(Init(capacity, ids), schedule).Some?
    requires var s := Run(Init(capacity, ids), schedule).value; s.missedPuts <= s.missedGets
    ensures !PopsEmpty(Run(Init(capacity, ids), schedule).value, t)
  {
    InitInv<T>(capacity, ids);
    RunInv(Init(capacity, ids), schedule);
    var s := Run(Init(capacity, ids), schedule).value;
    if t in s.threads && s.threads[t].GetLocked? {
      assert t in Debtors(s.threads, OwesPop);
    }
  }

  /** The queue outgrows its capacity by no more than the missed gets that no missed put makes up for. */
  lemma QueueStaysBounded<T>(capacity: nat, ids: set<ThreadId>, schedule: Schedule<T>)
    requires Run(Init(capacity, ids), schedule).Some?
    ensures var s := Run(Init(capacity, ids), schedule).value;
            |s.queue| <= capacity + s.missedGets - s.missedPuts
  {
    InitInv<T>(capacity, ids);
    RunInv(Init(capacity, ids), schedule);
  }

  /** With as many missed puts as gets and nobody inside a call, the semaphores
      say exactly how full the queue is. */
  lemma QuietQueueCounts<T>(capacity: nat, ids: set<ThreadId>, schedule: Schedule<T>)
    requires Run(Init(capacity, ids), schedule).Some?
    requires var s := Run(Init(capacity, ids), schedule).value;
             s.missedPuts == s.missedGets && forall t :: t in s.threads ==> s.threads[t].Idle?
    ensures var s := Run(Init(capacity, ids), schedule).value;
            s.full == |s.queue| && s.empty == capacity - |s.queue|
  {
    InitInv<T>(capacity, ids);
    RunInv(Init(capacity, ids), schedule);
    var s := Run(Init(capacity, ids), schedule).value;
    NobodyInside(s);
  }
}
