/** What holds of the mixer at every step (gtagsmixer.cc): it counts the reports, is
    held by one thread at a time, replies once and is freed once, by the last one. */
module MixerInvariants {
  import opened CStrings
  import opened Mixing
  import opened MixerProtocol
  import opened SourceInvariants

  // ----- Invariant of the mixer

  predicate HoldsMixer(pc: PC) {
    pc.InMixer? || pc.MixerWritten?
  }

  /** The thread has run the callback and will free the mixer. */
  predicate Deletes(pc: PC) {
    pc == MixerWritten(true) || pc.DeleteMixer?
  }

  ghost predicate MixerCount(s: State) {
    s.mixer.waitingFor == 2 - s.local.reported - s.remote.reported
  }

  ghost predicate MixerMutex(s: State) {
    && (s.mixer.mutex.Some? ==> s.Has(s.mixer.mutex.value.0, s.mixer.mutex.value.1))
    && forall id, t: nat :: s.Has(id, t) ==> (HoldsMixer(s.PcOf(id, t)) <==> s.mixer.mutex == Some((id, t)))
  }

  /** No thread but t of source id is near the mixer. */
  ghost predicate AloneAtMixer(s: State, id: SourceId, t: nat) {
    forall i, u: nat :: s.Has(i, u) && (i, u) != (id, t) ==> !AtTheMixer(s.PcOf(i, u))
  }

  ghost predicate Deletion(s: State) {
    && (forall id, t: nat :: s.Has(id, t) && Deletes(s.PcOf(id, t)) ==>
          s.mixer.alive && s.mixer.waitingFor == 0 && AloneAtMixer(s, id, t))
    && (s.mixer.alive && s.mixer.waitingFor == 0 ==> exists id, t: nat :: s.Has(id, t) && Deletes(s.PcOf(id, t)))
    && (!s.mixer.alive ==> s.mixer.waitingFor == 0 && forall id, t: nat :: s.Has(id, t) ==> !AtTheMixer(s.PcOf(id, t)))
  }

  /** What a source comes to: its first result, or an empty list and a failure. */
  function Outcome(c: Source): string {
    if c.first.Some? then c.first.value else "()"
  }

  function FailureOf(c: Source): string {
    if c.first.Some? then "" else CONNECT_FAILURE
  }

  ghost predicate Slot(m: Mixer, id: SourceId, c: Source) {
    id in m.results && id in m.failures && (c.reported == 1 ==> m.results[id] == Outcome(c) && m.failures[id] == FailureOf(c))
  }

  ghost predicate Slots(s: State) {
    Slot(s.mixer, LOCAL, s.local) && Slot(s.mixer, REMOTE, s.remote)
  }

  ghost predicate Answered(s: State) {
    && s.mixer.callbackRuns == (if s.mixer.waitingFor == 0 && Mixed(s.mixer).Some? then 1 else 0)
    && (s.mixer.crashed <==> s.mixer.waitingFor == 0 && Mixed(s.mixer).None?)
    && (s.mixer.waitingFor == 0 ==> s.mixer.reply == Mixed(s.mixer))
    && (s.mixer.waitingFor > 0 ==> s.mixer.reply == None)
  }

  ghost predicate Inv(s: State) {
    SourceInv(s.local) && SourceInv(s.remote) && MixerCount(s) && MixerMutex(s) && Deletion(s) && Slots(s) && Answered(s)
  }

  // ----- A step in a holder

  /** What the mixer's invariant needs to know about a step in a holder. */
  lemma HolderStepAside(c: Source, t: nat)
    requires SourceInv(c) && c.holder.Some? && t in c.threads && !AtTheMixer(c.threads[t].pc) && HolderStep(c, t).Some?
    ensures OnlyThread(c, HolderStep(c, t).value, t) && HolderStep(c, t).value.reported == c.reported
    ensures c.reported <= 1 && (c.reported == 1 ==> HolderStep(c, t).value.first == c.first)
    ensures AtTheMixer(HolderStep(c, t).value.threads[t].pc) ==>
      HolderStep(c, t).value.threads[t].pc.AtMixer? && c.reported == 0
  {
    hide Uncounted, HolderMutex, Freeing, ReportsOnce, OnlyThread;
    var c', h := HolderStep(c, t).value, c.holder.value;
    HolderStepMoves(c, t);
    HolderStepKeeps(c, t);
    if AtTheMixer(c'.threads[t].pc) { ReporterIsOutcome(c', t); }
    if c.threads[t].pc.Locked? {
      StillWaiting(c, h, t);
      if c.reported == 1 { ReportedWhileWaiting(c, h); }
    }
    ReportedAtMostOnce(c);
  }

  lemma ReportedWhileWaiting(c: Source, h: Holder)
    requires ReportsOnce(c, h) && c.reported == 1 && h.numWaiting > 0
    ensures h.used
  {
  }

  lemma ReportedAtMostOnce(c: Source)
    requires SourceInv(c)
    ensures c.reported <= 1
  {
  }

  /** Only thread t of source id moves. */
  ghost predicate OnlyPc(s: State, s': State, id: SourceId, t: nat) {
    && (forall i, u: nat :: s'.Has(i, u) <==> s.Has(i, u))
    && (forall i, u: nat :: s.Has(i, u) && (i, u) != (id, t) ==> s'.PcOf(i, u) == s.PcOf(i, u))
  }

  lemma OnlyThreadOnlyPc(s: State, id: SourceId, t: nat, c': Source, m': Mixer)
    requires OnlyThread(s.Get(id), c', t)
    ensures OnlyPc(s, s.Set(id, c').(mixer := m'), id, t)
    ensures s.Set(id, c').(mixer := m').Get(id) == c'
  {
  }

  lemma MutexAside(s: State, s': State, id: SourceId, t: nat)
    requires MixerMutex(s) && OnlyPc(s, s', id, t) && s'.mixer == s.mixer && s.Has(id, t)
    requires !HoldsMixer(s.PcOf(id, t)) && !HoldsMixer(s'.PcOf(id, t))
    ensures MixerMutex(s')
  {
  }

  lemma DeletionAside(s: State, s': State, id: SourceId, t: nat)
    requires Deletion(s) && OnlyPc(s, s', id, t) && s'.mixer == s.mixer && s.Has(id, t)
    requires !AtTheMixer(s.PcOf(id, t)) && (AtTheMixer(s'.PcOf(id, t)) ==> s'.PcOf(id, t).AtMixer? && s.mixer.waitingFor != 0)
    ensures Deletion(s')
  {
  }

  lemma HolderStepLeavesMixer(s: State, id: SourceId, t: nat)
    requires Inv(s) && s.Has(id, t) && !AtTheMixer(s.PcOf(id, t)) && s.Get(id).holder.Some?
    requires HolderStep(s.Get(id), t).Some?
    ensures Inv(s.Set(id, HolderStep(s.Get(id), t).value))
  {
    hide SourceInv, HolderStep, MixerMutex, Deletion, OnlyPc, OnlyThread, Mixed;
    var c' := HolderStep(s.Get(id), t).value;
    var s' := s.Set(id, c');
    HolderStepKeeps(s.Get(id), t);
    HolderStepAside(s.Get(id), t);
    ReportedAtMostOnce(s.local);
    ReportedAtMostOnce(s.remote);
    OnlyThreadOnlyPc(s, id, t, c', s.mixer);
    MutexAside(s, s', id, t);
    DeletionAside(s, s', id, t);
  }

  // ----- A step at the mixer

  /** Every step at the mixer moves its thread one on; only one of them reports. */
  lemma MixerStepMoves(c: Source, m: Mixer, id: SourceId, t: nat)
    requires t in c.threads && MixerStep(c, m, id, t).Some?
    ensures var (c', m') := MixerStep(c, m, id, t).value;
      var pc := c.threads[t].pc;
      && MixerMove(c, pc, c'.threads[t].pc, pc.InMixer?)
      && c' == Moved(c, t, c'.threads[t].pc, pc.InMixer?)
      && OnlyThread(c, c', t)
      && (pc.AtMixer? ==> m.mutex.None?)
      && (m'.mutex == if pc.AtMixer? then Some((id, t)) else if pc.MixerWritten? then None else m.mutex)
      && (m'.alive <==> m.alive && !pc.DeleteMixer?)
      && m' == (if pc.InMixer? then Report(m, id, c.threads[t].reply) else m.(mutex := m'.mutex, alive := m'.alive))
  {
  }

  /** A thread about to report is its source's outcome. */
  lemma ReporterIsOutcome(c: Source, t: nat)
    requires SourceInv(c) && t in c.threads && Reporting(c.threads[t].pc)
    ensures c.reported == 0
    ensures c.threads[t].reply.Result? ==> c.first == Some(c.threads[t].reply.text)
    ensures c.threads[t].reply.Failure? ==> c.first == None
  {
  }

  lemma ReportWrites(m: Mixer, id: SourceId, reply: Reply)
    ensures var m' := Report(m, id, reply);
      && m'.waitingFor == m.waitingFor - 1
      && m'.results == m.results[id := if reply.Result? then reply.text else "()"]
      && m'.failures == m.failures[id := if reply.Result? then "" else CONNECT_FAILURE]
  {
    hide Mixed;
  }

  /** A slot is written by its own source's report, and by nothing else. */
  lemma SlotWritten(m: Mixer, m': Mixer, id: SourceId, c: Source, c': Source, reply: Reply)
    requires Slot(m, id, c) && c'.first == c.first
    requires m'.results == m.results[id := if reply.Result? then reply.text else "()"]
    requires m'.failures == m.failures[id := if reply.Result? then "" else CONNECT_FAILURE]
    requires c.first == if reply.Result? then Some(reply.text) else None
    ensures Slot(m', id, c')
    ensures forall other, d :: other != id && Slot(m, other, d) ==> Slot(m', other, d)
  {
  }

  lemma SlotsKept(s: State, id: SourceId, t: nat, c': Source, m': Mixer)
    requires Inv(s) && s.Has(id, t) && AtTheMixer(s.PcOf(id, t))
    requires MixerStep(s.Get(id), s.mixer, id, t) == Some((c', m'))
    ensures MixerCount(s.Set(id, c').(mixer := m'))
    ensures Slots(s.Set(id, c').(mixer := m'))
  {
    hide SourceInv, MixerMutex, Deletion, Answered, Report, MixerStep, OnlyThread, MixerMove;
    MixerStepMoves(s.Get(id), s.mixer, id, t);
    if s.PcOf(id, t).InMixer? {
      var reply := s.Get(id).threads[t].reply;
      ReporterIsOutcome(s.Get(id), t);
      ReportWrites(s.mixer, id, reply);
      hide Slot;
      SlotWritten(s.mixer, m', id, s.Get(id), c', reply);
    }
  }

  lemma AnswerKept(s: State, id: SourceId, t: nat, c': Source, m': Mixer)
    requires Inv(s) && s.Has(id, t) && AtTheMixer(s.PcOf(id, t))
    requires MixerStep(s.Get(id), s.mixer, id, t) == Some((c', m'))
    ensures Answered(s.Set(id, c').(mixer := m'))
  {
    hide SourceInv, MixerMutex, Deletion, Slots, Mix, MixerStep, OnlyThread, MixerMove;
    MixerStepMoves(s.Get(id), s.mixer, id, t);
    if s.PcOf(id, t).InMixer? {
      ReportedAtMostOnce(s.local);
      ReportedAtMostOnce(s.remote);
      ReporterIsOutcome(s.Get(id), t);
    } else {
      assert Mixed(m') == Mixed(s.mixer);
    }
  }

  lemma CountsKept(s: State, id: SourceId, t: nat, c': Source, m': Mixer)
    requires Inv(s) && s.Has(id, t) && AtTheMixer(s.PcOf(id, t))
    requires MixerStep(s.Get(id), s.mixer, id, t) == Some((c', m'))
    ensures MixerCount(s.Set(id, c').(mixer := m'))
    ensures Slots(s.Set(id, c').(mixer := m'))
    ensures Answered(s.Set(id, c').(mixer := m'))
  {
    hide Inv, MixerCount, Slots, Answered, MixerStep;
    SlotsKept(s, id, t, c', m');
    AnswerKept(s, id, t, c', m');
  }

  lemma MutexKept(s: State, id: SourceId, t: nat, c': Source, m': Mixer)
    requires Inv(s) && s.Has(id, t) && AtTheMixer(s.PcOf(id, t))
    requires MixerStep(s.Get(id), s.mixer, id, t) == Some((c', m'))
    ensures MixerMutex(s.Set(id, c').(mixer := m'))
  {
    hide MixerStep, SourceInv, Slots, Answered, Deletion, MixerCount, OnlyThread, Report;
    MixerStepMoves(s.Get(id), s.mixer, id, t);
    OnlyThreadOnlyPc(s, id, t, c', m');
  }

  /** When both sources have reported, nobody is on the way to the mixer. */
  lemma NobodyReporting(s: State)
    requires SourceInv(s.local) && SourceInv(s.remote) && MixerCount(s) && s.mixer.waitingFor == 0
    ensures forall i, u: nat :: s.Has(i, u) ==> !Reporting(s.PcOf(i, u))
  {
    ReportedAtMostOnce(s.local);
    ReportedAtMostOnce(s.remote);
    forall i, u: nat | s.Has(i, u)
      ensures !Reporting(s.PcOf(i, u))
    {
      if Reporting(s.PcOf(i, u)) { ReporterIsOutcome(s.Get(i), u); }
    }
  }

  lemma DeletionByReport(s: State, s': State, id: SourceId, t: nat)
    requires MixerMutex(s) && Deletion(s) && OnlyPc(s, s', id, t) && s.Has(id, t) && s.PcOf(id, t).InMixer?
    requires s.mixer.waitingFor != 0 && s'.mixer.alive == s.mixer.alive
    requires s'.PcOf(id, t) == MixerWritten(s'.mixer.waitingFor == 0)
    requires s'.mixer.waitingFor == 0 ==> forall i, u: nat :: s'.Has(i, u) ==> !Reporting(s'.PcOf(i, u))
    ensures Deletion(s')
  {
    if s'.mixer.waitingFor == 0 {
      assert s'.Has(id, t) && Deletes(s'.PcOf(id, t));
      assert AloneAtMixer(s', id, t);
    }
  }

  lemma DeletionByMove(s: State, s': State, id: SourceId, t: nat)
    requires Deletion(s) && OnlyPc(s, s', id, t) && s.Has(id, t) && AtTheMixer(s.PcOf(id, t)) && !s.PcOf(id, t).InMixer?
    requires s'.mixer.waitingFor == s.mixer.waitingFor && (s'.mixer.alive <==> s.mixer.alive && !s.PcOf(id, t).DeleteMixer?)
    requires s.PcOf(id, t).AtMixer? ==> s'.PcOf(id, t).InMixer? && s.mixer.waitingFor != 0
    requires s.PcOf(id, t) == MixerWritten(true) ==> s'.PcOf(id, t).DeleteMixer?
    requires s.PcOf(id, t) == MixerWritten(false) || s.PcOf(id, t).DeleteMixer? ==> !AtTheMixer(s'.PcOf(id, t))
    ensures Deletion(s')
  {
    assert s'.Has(id, t);
  }

  lemma DeletionKept(s: State, id: SourceId, t: nat, c': Source, m': Mixer)
    requires Inv(s) && s.Has(id, t) && AtTheMixer(s.PcOf(id, t))
    requires MixerStep(s.Get(id), s.mixer, id, t) == Some((c', m'))
    requires SourceInv(c')
    ensures Deletion(s.Set(id, c').(mixer := m'))
  {
    hide SourceInv, MixerMutex, Deletion, OnlyPc, OnlyThread, Slots, Answered;
    var s' := s.Set(id, c').(mixer := m');
    CountsKept(s, id, t, c', m');
    MixerStepMoves(s.Get(id), s.mixer, id, t);
    var pc := s.PcOf(id, t);
    assert pc.InMixer? ==> c'.threads[t].pc == MixerWritten(m'.waitingFor == 0);
    hide MixerStep;
    OnlyThreadOnlyPc(s, id, t, c', m');
    if s.mixer.waitingFor == 0 { NobodyReporting(s); }
    if pc.InMixer? {
      if m'.waitingFor == 0 { NobodyReporting(s'); }
      DeletionByReport(s, s', id, t);
    } else {
      DeletionByMove(s, s', id, t);
    }
  }

  lemma MixerStepKeeps(s: State, id: SourceId, t: nat, c': Source, m': Mixer)
    requires Inv(s) && s.Has(id, t) && AtTheMixer(s.PcOf(id, t))
    requires MixerStep(s.Get(id), s.mixer, id, t) == Some((c', m'))
    ensures Inv(s.Set(id, c').(mixer := m'))
  {
    hide SourceInv, MixerMutex, Deletion, Slots, Answered, MixerStep, MixerCount;
    MixerStepMoves(s.Get(id), s.mixer, id, t);
    var pc := s.PcOf(id, t);
    MixerMoveKeeps(s.Get(id), t, c'.threads[t].pc, pc.InMixer?);
    CountsKept(s, id, t, c', m');
    MutexKept(s, id, t, c', m');
    DeletionKept(s, id, t, c', m');
  }
}
