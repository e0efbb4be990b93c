/** Whole runs of the mixer's threads (gtagsmixer.cc): safety over every interleaving,
    the end of a run, and the reply it leads to. */
module MixerRuns {
  import opened CStrings
  import opened Sequences
  import opened Mixing
  import opened MixerInvariants
  import opened MixerProtocol
  import opened SourceInvariants

  lemma NextKeeps(s: State, id: SourceId, t: nat)
    requires Inv(s) && Next(s, id, t).Some?
    ensures Inv(Next(s, id, t).value)
  {
    hide SourceInv, MixerStep, HolderStep, MixerMutex, MixerCount, Deletion, Slots, Answered;
    var c := s.Get(id);
    if AtTheMixer(c.threads[t].pc) {
      var (c', m') := MixerStep(c, s.mixer, id, t).value;
      MixerStepKeeps(s, id, t, c', m');
    } else {
      HolderStepLeavesMixer(s, id, t);
    }
  }

  lemma {:induction false} RunKeeps(s: State, schedule: Schedule)
    requires Inv(s) && Run(s, schedule).Some?
    ensures Inv(Run(s, schedule).value)
    decreases |schedule|
  {
    hide Inv, Next;
    if schedule != [] {
      NextKeeps(s, schedule[0].0, schedule[0].1);
      RunKeeps(Next(s, schedule[0].0, schedule[0].1).value, schedule[1..]);
    }
  }

  /** Every source that exists has at least one service. */
  predicate Served(local: Option<map<nat, Reply>>, remote: map<nat, Reply>) {
    remote.Keys != {} && (local.Some? ==> local.value.Keys != {})
  }

  lemma NewSourceInv(replies: map<nat, Reply>)
    requires replies.Keys != {}
    ensures SourceInv(NewSource(replies))
  {
    var c := NewSource(replies);
    assert Uncounted(c.threads) == replies.Keys;
    assert c.threads.Keys == replies.Keys;
  }

  lemma InitInv(local: Option<map<nat, Reply>>, remote: map<nat, Reply>)
    requires Served(local, remote)
    ensures Inv(Init(local, remote))
  {
    NewSourceInv(remote);
    if local.Some? { NewSourceInv(local.value); }
    hide Counting, HolderMutex, Freeing, ReportsOnce;
  }

  /** The reply, whatever the order in which the sources reported. */
  function ReplyOf(s: State): Option<string> {
    Mix(Outcome(s.local), Outcome(s.remote), FailureOf(s.remote))
  }

  lemma HolderIsAlive(c: Source, t: nat)
    requires SourceInv(c) && t in c.threads && !AtTheMixer(c.threads[t].pc) && !c.threads[t].pc.Done?
    ensures c.holder.Some? && c.holder.value.alive
  {
  }

  lemma NothingFreedIsUsed(s: State, id: SourceId, t: nat)
    requires Inv(s)
    ensures !UsesFreed(s, id, t)
  {
    hide SourceInv;
    if s.Has(id, t) && !AtTheMixer(s.PcOf(id, t)) && !s.PcOf(id, t).Done? { HolderIsAlive(s.Get(id), t); }
  }

  /** Both sources have reported. */
  predicate BothReported(s: State) {
    s.local.reported == 1 && s.remote.reported == 1
  }

  lemma AnsweredOnce(s: State)
    requires Inv(s)
    ensures s.local.reported <= 1 && s.remote.reported <= 1
    ensures s.mixer.callbackRuns == if BothReported(s) && ReplyOf(s).Some? then 1 else 0
    ensures s.mixer.crashed <==> BothReported(s) && ReplyOf(s).None?
    ensures BothReported(s) ==> s.mixer.reply == ReplyOf(s)
  {
    hide SourceInv, Mix;
    ReportedAtMostOnce(s.local);
    ReportedAtMostOnce(s.remote);
  }

  /** Safety: over every run, of any number of services, nothing that was freed is
      touched, each source reports at most once, and the client gets at most one reply:
      it has it exactly when both have reported and their answers can be mixed, and then
      it does not depend on which source came first. */
  lemma EveryRun(local: Option<map<nat, Reply>>, remote: map<nat, Reply>, schedule: Schedule, s: State)
    requires Served(local, remote) && Run(Init(local, remote), schedule) == Some(s)
    ensures forall id, t: nat :: !UsesFreed(s, id, t)
    ensures s.local.reported <= 1 && s.remote.reported <= 1
    ensures s.mixer.callbackRuns == if BothReported(s) && ReplyOf(s).Some? then 1 else 0
    ensures s.mixer.crashed <==> BothReported(s) && ReplyOf(s).None?
    ensures BothReported(s) ==> s.mixer.reply == ReplyOf(s)
  {
    hide Inv, Run, UsesFreed, Mix, ReplyOf;
    InitInv(local, remote);
    RunKeeps(Init(local, remote), schedule);
    AnsweredOnce(s);
    forall id, t: nat
      ensures !UsesFreed(s, id, t)
    {
      NothingFreedIsUsed(s, id, t);
    }
  }

  // ----- The end of a run

  ghost predicate AllDone(s: State) {
    forall id, t: nat :: s.Has(id, t) ==> s.PcOf(id, t).Done?
  }

  lemma DoneSource(c: Source)
    requires SourceInv(c) && forall t :: t in c.threads ==> c.threads[t].pc.Done?
    ensures c.reported == 1 && (c.holder.Some? ==> !c.holder.value.alive)
  {
    if c.holder.Some? {
      assert Uncounted(c.threads) == {};
    }
  }

  /** When every thread is done, each source has reported and is freed, the client
      has its one reply, and the mixer is freed; or the program has not got that far. */
  lemma DoneMeansAnswered(s: State)
    requires Inv(s) && AllDone(s)
    ensures BothReported(s) && !s.mixer.alive
    ensures forall id: SourceId :: s.Get(id).holder.Some? ==> !s.Get(id).holder.value.alive
    ensures !s.mixer.crashed ==> s.mixer.callbackRuns == 1 && s.mixer.reply == ReplyOf(s) && ReplyOf(s).Some?
  {
    hide SourceInv, MixerMutex, Slots, Answered, Mix, ReplyOf;
    assert forall t :: t in s.local.threads ==> s.Has(LOCAL, t) && s.PcOf(LOCAL, t).Done?;
    assert forall t :: t in s.remote.threads ==> s.Has(REMOTE, t) && s.PcOf(REMOTE, t).Done?;
    DoneSource(s.local);
    DoneSource(s.remote);
    AnsweredOnce(s);
  }

  /** In a holder, whoever has its mutex can move; if nobody has, everybody can. */
  lemma HolderMoves(s: State, id: SourceId, t: nat) returns (u: nat)
    requires SourceInv(s.Get(id)) && s.Has(id, t) && !AtTheMixer(s.PcOf(id, t)) && !s.PcOf(id, t).Done?
    requires !s.mixer.crashed
    ensures s.Has(id, u) && (!AtTheMixer(s.PcOf(id, u)) ==> Next(s, id, u).Some?)
  {
    var h := s.Get(id).holder.value;
    assert HolderMutex(s.Get(id), h);
    u := if h.mutex.Some? then h.mutex.value else t;
    hide Counting, Freeing, ReportsOnce;
  }

  lemma MixerMoves(s: State, id: SourceId, t: nat)
    requires MixerMutex(s) && s.Has(id, t) && AtTheMixer(s.PcOf(id, t)) && !s.mixer.crashed
    requires s.mixer.mutex.None? || s.mixer.mutex == Some((id, t))
    ensures Next(s, id, t).Some?
  {
  }

  /** No deadlock: while some thread is not done, some thread can move, unless the
      program has ended. */
  lemma NeverStuck(s: State)
    requires Inv(s) && !AllDone(s) && !s.mixer.crashed
    ensures exists id, t: nat :: Next(s, id, t).Some?
  {
    hide SourceInv, Next, Deletion, Slots, Answered;
    var id, t: nat :| s.Has(id, t) && !s.PcOf(id, t).Done?;
    if s.mixer.mutex.Some? {
      MixerMoves(s, s.mixer.mutex.value.0, s.mixer.mutex.value.1);
    } else if AtTheMixer(s.PcOf(id, t)) {
      MixerMoves(s, id, t);
    } else {
      var u := HolderMoves(s, id, t);
      if AtTheMixer(s.PcOf(id, u)) { MixerMoves(s, id, u); }
    }
  }

  /** Nothing more happens. */
  ghost predicate Ended(s: State) {
    forall id, t: nat :: Next(s, id, t).None?
  }

  /** A run ends with all threads done or with the end of the program, and not before. */
  lemma EndedExactly(s: State)
    requires Inv(s)
    ensures Ended(s) <==> AllDone(s) || s.mixer.crashed
  {
    if !AllDone(s) && !s.mixer.crashed { NeverStuck(s); }
    if AllDone(s) {
      forall id, t: nat
        ensures Next(s, id, t).None?
      {
        if s.Has(id, t) { assert s.PcOf(id, t).Done?; }
      }
    }
  }

  // ----- Runs are bounded

  function Rank(pc: PC): nat {
    match pc
    case Start => 9
    case Locked => 8
    case AtMixer => 7
    case InMixer => 6
    case MixerWritten(_) => 5
    case DeleteMixer => 4
    case Back => 3
    case HolderWritten(_) => 2
    case DeleteHolder => 1
    case Done => 0
  }

  /** The steps a source may still take. */
  function Work(c: Source): set<(nat, nat)> {
    set t, k | t in c.threads && 0 <= k < Rank(c.threads[t].pc) :: (t, k)
  }

  lemma WorkShrinks(c: Source, c': Source, t: nat)
    requires OnlyThread(c, c', t) && Rank(c'.threads[t].pc) < Rank(c.threads[t].pc)
    ensures |Work(c')| < |Work(c)|
  {
    var w := (t, Rank(c'.threads[t].pc));
    assert w in Work(c) && w !in Work(c');
    assert Work(c') <= Work(c) - {w};
    SmallerSet(Work(c'), Work(c) - {w});
  }

  lemma NextWorks(s: State, id: SourceId, t: nat)
    requires Next(s, id, t).Some?
    ensures |Work(Next(s, id, t).value.local)| + |Work(Next(s, id, t).value.remote)| < |Work(s.local)| + |Work(s.remote)|
  {
    hide Work, OnlyThread;
    var c := s.Get(id);
    if AtTheMixer(c.threads[t].pc) {
      MixerStepMoves(c, s.mixer, id, t);
      WorkShrinks(c, MixerStep(c, s.mixer, id, t).value.0, t);
    } else {
      HolderStepMoves(c, t);
      WorkShrinks(c, HolderStep(c, t).value, t);
    }
  }

  /** No run is longer than the work it starts with. */
  lemma {:induction false} RunsEnd(s: State, schedule: Schedule)
    requires Run(s, schedule).Some?
    ensures |schedule| + |Work(Run(s, schedule).value.local)| + |Work(Run(s, schedule).value.remote)|
         <= |Work(s.local)| + |Work(s.remote)|
    decreases |schedule|
  {
    hide Work, Next;
    if schedule != [] {
      NextWorks(s, schedule[0].0, schedule[0].1);
      RunsEnd(Next(s, schedule[0].0, schedule[0].1).value, schedule[1..]);
    }
  }

  /** Every run can be continued to its end. */
  lemma {:induction false} Continues(s: State) returns (schedule: Schedule, s': State)
    requires Inv(s)
    ensures Run(s, schedule) == Some(s') && Inv(s') && Ended(s')
    decreases |Work(s.local)| + |Work(s.remote)|
  {
    hide Inv, Next, Work;
    if id: SourceId, t: nat :| Next(s, id, t).Some? {
      NextKeeps(s, id, t);
      NextWorks(s, id, t);
      var rest;
      rest, s' := Continues(Next(s, id, t).value);
      schedule := [(id, t)] + rest;
      assert schedule[1..] == rest;
    } else {
      schedule, s' := [], s;
    }
  }

  // ----- What the services answered decides the reply

  /** The threads of c carry these answers. */
  ghost predicate Carries(c: Source, c0: Source) {
    && (c.holder.Some? <==> c0.holder.Some?)
    && c.threads.Keys == c0.threads.Keys && forall t :: t in c.threads ==> c.threads[t].reply == c0.threads[t].reply
  }

  lemma NextCarries(s: State, id: SourceId, t: nat)
    requires Next(s, id, t).Some?
    ensures Carries(Next(s, id, t).value.local, s.local) && Carries(Next(s, id, t).value.remote, s.remote)
  {
    var c := s.Get(id);
    if AtTheMixer(c.threads[t].pc) {
      MixerStepMoves(c, s.mixer, id, t);
    } else {
      HolderStepMoves(c, t);
    }
  }

  lemma {:induction false} RunCarries(s: State, schedule: Schedule)
    requires Run(s, schedule).Some?
    ensures Carries(Run(s, schedule).value.local, s.local) && Carries(Run(s, schedule).value.remote, s.remote)
    decreases |schedule|
  {
    hide Next;
    if schedule != [] {
      NextCarries(s, schedule[0].0, schedule[0].1);
      RunCarries(Next(s, schedule[0].0, schedule[0].1).value, schedule[1..]);
    }
  }

  /** The first result of a finished source is one of its services' answers, and there is none
      only if all of them failed. */
  ghost predicate Possible(first: Option<string>, replies: map<nat, Reply>) {
    match first
    case Some(text) => exists t :: t in replies && replies[t] == Result(text)
    case None => forall t :: t in replies ==> replies[t].Failure?
  }

  /** A source that has reported stands for one of its services' answers. */
  lemma ReportedSource(c: Source)
    requires SourceInv(c) && c.reported == 1
    ensures c.first.None? ==> forall t :: t in c.threads ==> c.threads[t].reply.Failure?
    ensures c.first.Some? ==> exists t :: t in c.threads && c.threads[t].reply == Result(c.first.value)
  {
    if c.holder.Some? && c.first.None? { NobodyUncounted(c.threads); }
  }

  lemma SourcePossible(c: Source, replies: map<nat, Reply>)
    requires SourceInv(c) && Carries(c, NewSource(replies)) && c.reported == 1
    ensures Possible(c.first, replies)
  {
    hide SourceInv;
    ReportedSource(c);
    assert NewSource(replies).threads.Keys == replies.Keys;
  }

  /** The answer each source stands for when it is done. */
  function Answer(first: Option<string>): (string, string) {
    if first.Some? then (first.value, "") else ("()", CONNECT_FAILURE)
  }

  /** The end of every run: each source stands for one answer of its services (the empty
      text without a local server), or for its failure if all of them failed. If these can be
      mixed, every thread is done, mixer and holders are freed and the client has exactly one
      reply, the mix; if not, the program has ended and the client has none. */
  lemma CompletedRun(local: Option<map<nat, Reply>>, remote: map<nat, Reply>, schedule: Schedule, s: State)
      returns (l: Option<string>, r: Option<string>)
    requires Served(local, remote) && Run(Init(local, remote), schedule) == Some(s) && Ended(s)
    ensures if local.Some? then Possible(l, local.value) else l == Some("")
    ensures Possible(r, remote)
    ensures s.mixer.reply == Mix(Answer(l).0, Answer(r).0, Answer(r).1)
    ensures s.mixer.callbackRuns == if s.mixer.reply.Some? then 1 else 0
    ensures s.mixer.crashed <==> s.mixer.reply.None?
    ensures s.mixer.reply.Some? ==> AllDone(s) && !s.mixer.alive
    ensures l == s.local.first && r == s.remote.first
  {
    var s0 := Init(local, remote);
    InitInv(local, remote);
    hide Mix;
    assert Inv(s0);
    hide Inv, Run, Possible, Ended;
    RunKeeps(s0, schedule);
    RunCarries(s0, schedule);
    EndedExactly(s);
    AnsweredOnce(s);
    if AllDone(s) { DoneMeansAnswered(s); }
    l, r := s.local.first, s.remote.first;
    Ends(s, local, remote);
  }

  lemma Ends(s: State, local: Option<map<nat, Reply>>, remote: map<nat, Reply>)
    requires Inv(s) && BothReported(s) && Carries(s.remote, NewSource(remote))
    requires Carries(s.local, if local.Some? then NewSource(local.value) else NoSource())
    ensures if local.Some? then Possible(s.local.first, local.value) else s.local.first == Some("")
    ensures Possible(s.remote.first, remote)
  {
    hide Possible, MixerMutex, MixerCount, Deletion, Slots, Answered;
    assert local.None? ==> s.local.first == Some("");
    hide SourceInv;
    if local.Some? { SourcePossible(s.local, local.value); }
    SourcePossible(s.remote, remote);
  }

  // ----- Exactly when the one reply arrives

  /** None of the services answers with a text that ends the program when it is mixed. */
  predicate Harmless(replies: map<nat, Reply>) {
    forall t :: t in replies && replies[t].Result? ==> !FromReply(replies[t].text).Crash?
  }

  lemma NoAnswerIsHarmless()
    ensures !FromReply("").Crash? && !FromReply("()").Crash?
  {
    NothingFrom();
  }

  lemma HarmlessAnswer(first: Option<string>, replies: map<nat, Reply>)
    requires Harmless(replies) && Possible(first, replies)
    ensures !FromReply(Answer(first).0).Crash?
  {
    hide FromReply;
    NoAnswerIsHarmless();
  }

  /** If no service answers with such a text, every run ends with exactly one reply. */
  lemma HarmlessMeansAnswered(local: Option<map<nat, Reply>>, remote: map<nat, Reply>, schedule: Schedule, s: State)
    requires Served(local, remote) && Run(Init(local, remote), schedule) == Some(s) && Ended(s)
    requires Harmless(remote) && (local.Some? ==> Harmless(local.value))
    ensures s.mixer.callbackRuns == 1 && AllDone(s) && !s.mixer.alive
  {
    hide Run, Init, Ended, AllDone, Possible, Harmless, FromReply;
    var l, r := CompletedRun(local, remote, schedule, s);
    HarmlessAnswer(r, remote);
    if local.Some? { HarmlessAnswer(l, local.value); } else { NoAnswerIsHarmless(); }
  }

  /** Once a source has a first result, it keeps it. */
  lemma NextFirst(s: State, id: SourceId, t: nat, i: SourceId)
    requires Inv(s) && Next(s, id, t).Some? && s.Get(i).first.Some?
    ensures Next(s, id, t).value.Get(i).first == s.Get(i).first
  {
    var c := s.Get(id);
    if AtTheMixer(c.threads[t].pc) {
      MixerStepMoves(c, s.mixer, id, t);
    } else if c.threads[t].pc.Locked? {
      assert ReportsOnce(c, c.holder.value);
    }
  }

  lemma {:induction false} RunFirst(s: State, schedule: Schedule, i: SourceId)
    requires Inv(s) && Run(s, schedule).Some? && s.Get(i).first.Some?
    ensures Run(s, schedule).value.Get(i).first == s.Get(i).first
    decreases |schedule|
  {
    hide Inv, Next;
    if schedule != [] {
      NextFirst(s, schedule[0].0, schedule[0].1, i);
      NextKeeps(s, schedule[0].0, schedule[0].1);
      RunFirst(Next(s, schedule[0].0, schedule[0].1).value, schedule[1..], i);
    }
  }

  lemma {:induction false} RunAppend(s: State, a: Schedule, b: Schedule)
    requires Run(s, a).Some?
    ensures Run(s, a + b) == Run(Run(s, a).value, b)
    decreases |a|
  {
    hide Next;
    if a == [] {
      assert a + b == b;
    } else {
      assert (a + b)[0] == a[0] && (a + b)[1..] == a[1..] + b;
      RunAppend(Next(s, a[0].0, a[0].1).value, a[1..], b);
    }
  }

  /** The service that moves first gives its source's answer. */
  lemma FirstToMove(local: Option<map<nat, Reply>>, remote: map<nat, Reply>, id: SourceId, t: nat)
      returns (schedule: Schedule, s: State)
    requires Served(local, remote) && (id.LOCAL? ==> local.Some?)
    requires var replies := if id.LOCAL? then local.value else remote; t in replies && replies[t].Result?
    ensures Run(Init(local, remote), schedule) == Some(s)
    ensures s.Get(id).first == Some((if id.LOCAL? then local.value else remote)[t].text)
  {
    var s0 := Init(local, remote);
    var s1 := Next(s0, id, t).value;
    s := Next(s1, id, t).value;
    schedule := [(id, t), (id, t)];
    assert schedule[1..] == [(id, t)] && schedule[1..][1..] == [];
    assert Run(s1, schedule[1..]) == Some(s);
  }

  /** If a service answers with such a text, there is a run that ends without a reply. */
  lemma HarmMeansNoReply(local: Option<map<nat, Reply>>, remote: map<nat, Reply>, id: SourceId, t: nat)
      returns (schedule: Schedule, s: State)
    requires Served(local, remote) && (id.LOCAL? ==> local.Some?)
    requires var replies := if id.LOCAL? then local.value else remote;
      t in replies && replies[t].Result? && FromReply(replies[t].text).Crash?
    ensures Run(Init(local, remote), schedule) == Some(s) && Ended(s) && s.mixer.callbackRuns == 0
  {
    hide Inv, Ended, Possible, FromReply, AllDone;
    var s0 := Init(local, remote);
    var begin, s1 := FirstToMove(local, remote, id, t);
    hide Run, Init;
    InitInv(local, remote);
    RunKeeps(s0, begin);
    var rest;
    rest, s := Continues(s1);
    RunFirst(s1, rest, id);
    schedule := begin + rest;
    RunAppend(s0, begin, rest);
    var l, r := CompletedRun(local, remote, schedule, s);
  }

  /** A run that ends, but not with exactly one reply. */
  ghost predicate EndsUnanswered(local: Option<map<nat, Reply>>, remote: map<nat, Reply>, schedule: Schedule) {
    var end := Run(Init(local, remote), schedule);
    end.Some? && Ended(end.value) && end.value.mixer.callbackRuns != 1
  }

  /** Every run ends with exactly one reply if and only if no service answers with a text
      that the mixer does not survive. */
  lemma AnsweredExactly(local: Option<map<nat, Reply>>, remote: map<nat, Reply>)
    requires Served(local, remote)
    ensures (forall schedule :: !EndsUnanswered(local, remote, schedule))
       <==> Harmless(remote) && (local.Some? ==> Harmless(local.value))
  {
    hide Run, Init, Ended, AllDone, FromReply;
    if Harmless(remote) && (local.Some? ==> Harmless(local.value)) {
      hide Harmless;
      forall schedule
        ensures !EndsUnanswered(local, remote, schedule)
      {
        if EndsUnanswered(local, remote, schedule) {
          HarmlessMeansAnswered(local, remote, schedule, Run(Init(local, remote), schedule).value);
        }
      }
    } else if !Harmless(remote) {
      var t :| t in remote && remote[t].Result? && FromReply(remote[t].text).Crash?;
      var schedule, s := HarmMeansNoReply(local, remote, REMOTE, t);
      assert EndsUnanswered(local, remote, schedule);
    } else {
      var t :| t in local.value && local.value[t].Result? && FromReply(local.value[t].text).Crash?;
      var schedule, s := HarmMeansNoReply(local, remote, LOCAL, t);
      assert EndsUnanswered(local, remote, schedule);
    }
  }

  // ----- Agreeing services

  /** The services of a source that do answer give the same answer. */
  ghost predicate Agreeing(replies: map<nat, Reply>) {
    forall t, u :: t in replies && u in replies && replies[t].Result? && replies[u].Result? ==> replies[t] == replies[u]
  }

  lemma OnlyOnePossible(a: Option<string>, b: Option<string>, replies: map<nat, Reply>)
    requires Agreeing(replies) && Possible(a, replies) && Possible(b, replies)
    ensures a == b
  {
  }

  /** Then every run ends in the same way, whoever wins the races. */
  lemma ReplyIsDetermined(local: Option<map<nat, Reply>>, remote: map<nat, Reply>,
                          one: Schedule, s1: State, two: Schedule, s2: State)
    requires Served(local, remote) && (local.Some? ==> Agreeing(local.value)) && Agreeing(remote)
    requires Run(Init(local, remote), one) == Some(s1) && Ended(s1)
    requires Run(Init(local, remote), two) == Some(s2) && Ended(s2)
    ensures s1.mixer.reply == s2.mixer.reply && s1.mixer.callbackRuns == s2.mixer.callbackRuns
  {
    hide Run, Init, Mix, Agreeing, Possible, Ended, AllDone;
    var l1, r1 := CompletedRun(local, remote, one, s1);
    var l2, r2 := CompletedRun(local, remote, two, s2);
    OnlyOnePossible(r1, r2, remote);
    if local.Some? { OnlyOnePossible(l1, l2, local.value); }
  }
}
