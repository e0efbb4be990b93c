/** What holds of one source of the mixer at every step (gtagsmixer.cc): its holder
    counts its threads, is held by one at a time, reports once and is freed once. */
module SourceInvariants {
  import opened CStrings
  import opened MixerProtocol

  // ----- Invariant of a source

  /** The thread has been counted by its holder. */
  predicate Counted(th: Thread) {
    th.pc.HolderWritten? || th.pc.DeleteHolder? || th.pc.Done?
    || (th.reply.Failure? && (AtTheMixer(th.pc) || th.pc.Back?))
  }

  function Uncounted(threads: map<nat, Thread>): set<nat> {
    set t | t in threads && !Counted(threads[t])
  }

  /** The thread was the last to be counted and has not finished yet. */
  predicate Last(th: Thread) {
    || th.pc == HolderWritten(true) || th.pc.DeleteHolder?
    || (th.reply.Failure? && (AtTheMixer(th.pc) || th.pc.Back?))
  }

  predicate HoldsHolder(pc: PC) {
    !pc.Start? && !pc.DeleteHolder? && !pc.Done?
  }

  /** The thread will report, or has just begun to. */
  predicate Reporting(pc: PC) {
    pc.AtMixer? || pc.InMixer?
  }

  ghost predicate Counting(c: Source, h: Holder) {
    h.numWaiting == |Uncounted(c.threads)|
  }

  ghost predicate HolderMutex(c: Source, h: Holder) {
    && (h.mutex.Some? ==> h.mutex.value in c.threads)
    && forall t :: t in c.threads ==> (HoldsHolder(c.threads[t].pc) <==> h.mutex == Some(t))
  }

  /** The last thread is alone, and frees the holder. */
  ghost predicate Freeing(c: Source, h: Holder) {
    && (forall t :: t in c.threads && Last(c.threads[t]) ==>
          h.alive && h.numWaiting == 0 && forall u :: u in c.threads && u != t ==> c.threads[u].pc.Done?)
    && (h.alive && h.numWaiting == 0 ==> exists t :: t in c.threads && Last(c.threads[t]))
    && (!h.alive ==> forall t :: t in c.threads ==> c.threads[t].pc.Done?)
  }

  /** A source reports once: the first result, or a failure by the last thread. */
  ghost predicate ReportsOnce(c: Source, h: Holder) {
    && c.reported <= 1
    && (h.used <==> c.first.Some?)
    && (forall t :: t in c.threads && Reporting(c.threads[t].pc) ==> c.reported == 0)
    && (forall t :: t in c.threads && (c.threads[t].pc.MixerWritten? || c.threads[t].pc.DeleteMixer?) ==> c.reported == 1)
    && (forall t :: t in c.threads && c.threads[t].reply.Failure? && AtTheMixer(c.threads[t].pc) ==> !h.used)
    && (forall t :: t in c.threads && c.threads[t].reply.Result? && !c.threads[t].pc.Start? && !c.threads[t].pc.Locked? ==> h.used)
    && (forall t :: t in c.threads && c.threads[t].reply.Result? && Reporting(c.threads[t].pc) ==>
          c.first == Some(c.threads[t].reply.text))
    && (c.reported == 0 && (h.used || h.numWaiting == 0) ==> exists t :: t in c.threads && Reporting(c.threads[t].pc))
    && (c.reported == 1 && !h.used ==> h.numWaiting == 0)
    && (h.used ==> exists t :: t in c.threads && c.threads[t].reply == Result(c.first.value))
  }

  /** The one thread of a source without holder. */
  ghost predicate Direct(c: Source) {
    && c.threads.Keys == {0} && c.threads[0].reply == Result("") && c.first == Some("")
    && (AtTheMixer(c.threads[0].pc) || c.threads[0].pc.Done?)
    && c.reported == if Reporting(c.threads[0].pc) then 0 else 1
  }

  ghost predicate SourceInv(c: Source) {
    match c.holder
    case Some(h) => c.threads.Keys != {} && Counting(c, h) && HolderMutex(c, h) && Freeing(c, h) && ReportsOnce(c, h)
    case None => Direct(c)
  }

  lemma UncountedUpdate(threads: map<nat, Thread>, t: nat, th: Thread)
    requires t in threads
    ensures t in Uncounted(threads) <==> !Counted(threads[t])
    ensures Uncounted(threads[t := th]) == if Counted(th) then Uncounted(threads) - {t} else Uncounted(threads) + {t}
  {
  }

  lemma CountUpdate(threads: map<nat, Thread>, t: nat, th: Thread)
    requires t in threads
    ensures |Uncounted(threads[t := th])|
         == |Uncounted(threads)| - (if Counted(threads[t]) then 0 else 1) + (if Counted(th) then 0 else 1)
  {
    hide Uncounted, Counted;
    UncountedUpdate(threads, t, th);
    SizeWithout(Uncounted(threads), t);
    SizeWith(Uncounted(threads), t);
  }

  lemma SizeWithout(a: set<nat>, t: nat)
    ensures |a - {t}| == |a| - if t in a then 1 else 0
  {
    if t in a {
      assert a == (a - {t}) + {t};
    } else {
      assert a - {t} == a;
    }
  }

  lemma SizeWith(a: set<nat>, t: nat)
    ensures |a + {t}| == |a| + if t in a then 0 else 1
  {
    if t in a { assert a + {t} == a; }
  }

  lemma NobodyUncounted(threads: map<nat, Thread>)
    requires |Uncounted(threads)| == 0
    ensures forall t :: t in threads ==> Counted(threads[t])
  {
    assert Uncounted(threads) == {};
    forall t | t in threads
      ensures Counted(threads[t])
    {
      assert t !in Uncounted(threads);
    }
  }

  // ----- Steps of one source

  /** Only thread t differs. */
  ghost predicate OnlyThread(c: Source, c': Source, t: nat) {
    && t in c.threads && c'.threads.Keys == c.threads.Keys
    && c'.threads == c.threads[t := c'.threads[t]]
    && forall u :: u in c.threads && u != t ==> c'.threads[u] == c.threads[u]
  }

  lemma HolderStepMoves(c: Source, t: nat)
    requires c.holder.Some? && t in c.threads && HolderStep(c, t).Some?
    ensures OnlyThread(c, HolderStep(c, t).value, t)
    ensures HolderStep(c, t).value.threads[t].reply == c.threads[t].reply
    ensures HolderStep(c, t).value.holder.Some?
  {
  }

  lemma CountingKept(c: Source, t: nat)
    requires c.holder.Some? && Counting(c, c.holder.value) && t in c.threads && HolderStep(c, t).Some?
    ensures HolderStep(c, t).value.holder.Some? && Counting(HolderStep(c, t).value, HolderStep(c, t).value.holder.value)
  {
    hide Uncounted;
    var c' := HolderStep(c, t).value;
    CountUpdate(c.threads, t, c'.threads[t]);
  }

  lemma HolderMutexKept(c: Source, t: nat)
    requires c.holder.Some? && HolderMutex(c, c.holder.value) && t in c.threads && HolderStep(c, t).Some?
    ensures HolderStep(c, t).value.holder.Some? && HolderMutex(HolderStep(c, t).value, HolderStep(c, t).value.holder.value)
  {
    HolderStepMoves(c, t);
  }

  /** While a thread that has yet to be counted holds the holder, every counted one is done. */
  lemma CountedAreDone(c: Source, h: Holder, t: nat, u: nat)
    requires Counting(c, h) && HolderMutex(c, h) && Freeing(c, h)
    requires t in c.threads && HoldsHolder(c.threads[t].pc) && !Counted(c.threads[t])
    requires u in c.threads && u != t && Counted(c.threads[u])
    ensures c.threads[u].pc.Done? && h.alive && h.numWaiting > 0
  {
    assert t in Uncounted(c.threads);
    assert !HoldsHolder(c.threads[u].pc);
    assert !Last(c.threads[u]);
  }

  /** Nothing is left to do but what the last thread does. */
  ghost predicate Alone(c: Source, t: nat) {
    forall u :: u in c.threads && u != t ==> c.threads[u].pc.Done?
  }

  /** The last of the threads to be counted is alone. */
  lemma LastIsAlone(c: Source, h: Holder, t: nat, th: Thread)
    requires Counting(c, h) && HolderMutex(c, h) && Freeing(c, h)
    requires t in c.threads && HoldsHolder(c.threads[t].pc) && !Counted(c.threads[t]) && Counted(th)
    requires h.numWaiting == 1
    ensures Alone(c, t)
  {
    forall u | u in c.threads && u != t
      ensures c.threads[u].pc.Done?
    {
      CountUpdate(c.threads, t, th);
      NobodyUncounted(c.threads[t := th]);
      assert c.threads[t := th][u] == c.threads[u];
      CountedAreDone(c, h, t, u);
    }
  }

  /** A thread that is neither done nor last: the holder still waits for somebody. */
  lemma StillWaiting(c: Source, h: Holder, t: nat)
    requires Counting(c, h) && HolderMutex(c, h) && Freeing(c, h)
    requires t in c.threads && !c.threads[t].pc.Done? && !Last(c.threads[t])
    ensures h.alive && h.numWaiting > 0 && forall u :: u in c.threads ==> !Last(c.threads[u])
  {
    hide Uncounted;
  }

  lemma FreeingStays(c: Source, c': Source, t: nat)
    requires c.holder.Some? && c'.holder.Some? && OnlyThread(c, c', t) && Freeing(c, c.holder.value)
    requires !c.threads[t].pc.Done? && !Last(c.threads[t]) && c'.holder.value.numWaiting > 0 && c'.holder.value.alive
    ensures !Last(c'.threads[t]) ==> Freeing(c', c'.holder.value)
  {
  }

  lemma FreeingLast(c: Source, c': Source, t: nat)
    requires c.holder.Some? && c'.holder.Some? && OnlyThread(c, c', t) && Alone(c, t)
    requires c'.holder.value.numWaiting == 0
    requires if c'.holder.value.alive then Last(c'.threads[t]) else c'.threads[t].pc.Done?
    ensures Freeing(c', c'.holder.value)
  {
  }

  lemma FreeingKept(c: Source, t: nat)
    requires c.holder.Some? && t in c.threads && HolderStep(c, t).Some?
    requires Counting(c, c.holder.value) && HolderMutex(c, c.holder.value) && Freeing(c, c.holder.value)
    ensures HolderStep(c, t).value.holder.Some? && Freeing(HolderStep(c, t).value, HolderStep(c, t).value.holder.value)
  {
    hide Uncounted;
    var c', h := HolderStep(c, t).value, c.holder.value;
    HolderStepMoves(c, t);
    CountUpdate(c.threads, t, c'.threads[t]);
    if Last(c.threads[t]) {
      FreeingLast(c, c', t);
    } else {
      StillWaiting(c, h, t);
      if c'.holder.value.numWaiting == 0 {
        LastIsAlone(c, h, t, c'.threads[t]);
        FreeingLast(c, c', t);
      } else {
        FreeingStays(c, c', t);
      }
    }
  }

  /** While t holds the holder, no other thread is near the mixer. */
  lemma NobodyElseReports(c: Source, h: Holder, t: nat)
    requires HolderMutex(c, h) && t in c.threads && HoldsHolder(c.threads[t].pc)
    ensures forall u :: u in c.threads && u != t ==> !AtTheMixer(c.threads[u].pc) && !c.threads[u].pc.Back?
  {
  }

  lemma ReportsKeptAtWork(c: Source, t: nat)
    requires c.holder.Some? && t in c.threads && c.threads[t].pc.Locked?
    requires Counting(c, c.holder.value) && HolderMutex(c, c.holder.value) && Freeing(c, c.holder.value)
    requires ReportsOnce(c, c.holder.value)
    ensures HolderStep(c, t).Some? && HolderStep(c, t).value.holder.Some?
    ensures ReportsOnce(HolderStep(c, t).value, HolderStep(c, t).value.holder.value)
  {
    hide Counting, Freeing, HolderMutex;
    var c', h := HolderStep(c, t).value, c.holder.value;
    HolderStepMoves(c, t);
    NobodyElseReports(c, h, t);
    StillWaiting(c, h, t);
  }

  lemma ReportsUntouched(c: Source, c': Source, t: nat)
    requires c.holder.Some? && c'.holder.Some? && OnlyThread(c, c', t) && ReportsOnce(c, c.holder.value)
    requires c'.threads[t].reply == c.threads[t].reply && c'.reported == c.reported && c'.first == c.first
    requires !AtTheMixer(c.threads[t].pc) && !AtTheMixer(c'.threads[t].pc)
    requires c.threads[t].pc.Start? ==> c'.threads[t].pc.Locked?
    requires !c.threads[t].pc.Start? ==> !c.threads[t].pc.Locked? && !c'.threads[t].pc.Start? && !c'.threads[t].pc.Locked?
    requires c'.holder.value.used == c.holder.value.used
    requires c.holder.value.used || c'.holder.value.numWaiting == c.holder.value.numWaiting
    ensures ReportsOnce(c', c'.holder.value)
  {
  }

  lemma ReportsKeptElsewhere(c: Source, t: nat)
    requires c.holder.Some? && t in c.threads && HolderStep(c, t).Some? && !c.threads[t].pc.Locked?
    requires ReportsOnce(c, c.holder.value)
    ensures HolderStep(c, t).value.holder.Some?
    ensures ReportsOnce(HolderStep(c, t).value, HolderStep(c, t).value.holder.value)
  {
    var c' := HolderStep(c, t).value;
    HolderStepMoves(c, t);
    assert c.threads[t].pc.Back? && c.threads[t].reply.Result? ==> c.holder.value.used;
    assert c.threads[t].pc.Back? && c.threads[t].reply.Failure? ==> c'.holder == c.holder;
    hide ReportsOnce;
    ReportsUntouched(c, c', t);
  }

  lemma HolderStepKeeps(c: Source, t: nat)
    requires SourceInv(c) && c.holder.Some? && t in c.threads && HolderStep(c, t).Some?
    ensures SourceInv(HolderStep(c, t).value)
  {
    hide Counting, HolderMutex, Freeing, ReportsOnce;
    HolderStepMoves(c, t);
    CountingKept(c, t);
    HolderMutexKept(c, t);
    FreeingKept(c, t);
    if c.threads[t].pc.Locked? { ReportsKeptAtWork(c, t); } else { ReportsKeptElsewhere(c, t); }
  }

  // ----- Steps at the mixer, as the source sees them

  /** A thread moves through the mixer; reports: the step that writes its slot. */
  function Moved(c: Source, t: nat, pc: PC, reports: bool): Source
    requires t in c.threads
  {
    At(c.(reported := c.reported + if reports then 1 else 0), t, pc)
  }

  /** The program counters a step at the mixer can lead to. */
  predicate MixerMove(c: Source, from: PC, to: PC, reports: bool) {
    match from
    case AtMixer => to.InMixer? && !reports
    case InMixer => to.MixerWritten? && reports
    case MixerWritten(last) => (to == if last then DeleteMixer else AfterMixer(c)) && !reports
    case DeleteMixer => to == AfterMixer(c) && !reports
    case _ => false
  }

  lemma MixerMoveKeeps(c: Source, t: nat, to: PC, reports: bool)
    requires SourceInv(c) && t in c.threads && MixerMove(c, c.threads[t].pc, to, reports)
    ensures SourceInv(Moved(c, t, to, reports))
  {
    var c' := Moved(c, t, to, reports);
    assert OnlyThread(c, c', t);
    match c.holder
    case None =>
    case Some(h) =>
      CountUpdate(c.threads, t, c'.threads[t]);
      MoveKeepsRest(c, h, t, to, reports);
      MoveKeepsReports(c, h, t, to, reports);
  }

  lemma MoveKeepsRest(c: Source, h: Holder, t: nat, to: PC, reports: bool)
    requires c.holder == Some(h) && Counting(c, h) && HolderMutex(c, h) && Freeing(c, h)
    requires t in c.threads && MixerMove(c, c.threads[t].pc, to, reports)
    ensures Counting(Moved(c, t, to, reports), h)
    ensures HolderMutex(Moved(c, t, to, reports), h)
    ensures Freeing(Moved(c, t, to, reports), h)
  {
    hide Uncounted;
    var c' := Moved(c, t, to, reports);
    assert OnlyThread(c, c', t);
    CountUpdate(c.threads, t, c'.threads[t]);
    assert Last(c'.threads[t]) == Last(c.threads[t]);
  }

  lemma MoveKeepsReports(c: Source, h: Holder, t: nat, to: PC, reports: bool)
    requires c.holder == Some(h) && HolderMutex(c, h) && ReportsOnce(c, h)
    requires Freeing(c, h)
    requires t in c.threads && MixerMove(c, c.threads[t].pc, to, reports)
    ensures ReportsOnce(Moved(c, t, to, reports), h)
  {
    hide ReportsOnce;
    NobodyElseReports(c, h, t);
    FailureIsLast(c, h, t);
    MovedAlone(c, t, to, reports);
    hide Freeing, HolderMutex;
    ReportsMoved(c, h, t, to, reports);
  }

  lemma FailureIsLast(c: Source, h: Holder, t: nat)
    requires Freeing(c, h) && t in c.threads && AtTheMixer(c.threads[t].pc)
    ensures c.threads[t].reply.Failure? ==> h.numWaiting == 0
  {
  }

  lemma MovedAlone(c: Source, t: nat, to: PC, reports: bool)
    requires t in c.threads
    ensures OnlyThread(c, Moved(c, t, to, reports), t)
  {
  }

  lemma ReportsMoved(c: Source, h: Holder, t: nat, to: PC, reports: bool)
    requires c.holder == Some(h) && ReportsOnce(c, h)
    requires t in c.threads && MixerMove(c, c.threads[t].pc, to, reports) && OnlyThread(c, Moved(c, t, to, reports), t)
    requires forall u :: u in c.threads && u != t ==> !AtTheMixer(c.threads[u].pc) && !c.threads[u].pc.Back?
    requires c.threads[t].reply.Failure? ==> h.numWaiting == 0
    ensures ReportsOnce(Moved(c, t, to, reports), h)
  {
  }
}
