/** The race of service replies to the mixer (gtagsmixer.cc, mixerrequesthandler.cc):
    every service of a source answers its ResultHolder once, from a thread of its
    own; holders and mixer free themselves. One step is one mutex operation, one
    section under a mutex, or one deletion, and steps interleave freely. */
module MixerProtocol {
  import opened CStrings
  import opened Mixing

  /** What one service answers. */
  datatype Reply = Result(text: string) | Failure

  const CONNECT_FAILURE := "Failed to connect to remote services."

  /** Where a reporting thread stands. */
  datatype PC =
    | Start
    | Locked                      // holds the holder's mutex
    | AtMixer                     // about to lock the mixer
    | InMixer                     // holds the mixer's mutex
    | MixerWritten(last: bool)    // has written its slot; last: the callback has run
    | DeleteMixer
    | Back                        // back in the holder
    | HolderWritten(last: bool)   // about to unlock the holder
    | DeleteHolder
    | Done

  datatype Thread = Thread(reply: Reply, pc: PC)

  datatype Holder = Holder(numWaiting: int, used: bool, mutex: Option<nat>, alive: bool)

  /** A source: its holder and the threads that answer it. Without a local server
      there is no holder, and the request thread reports an empty result itself.
      History: how often the source reported, and the first result it got. */
  datatype Source = Source(holder: Option<Holder>, threads: map<nat, Thread>, reported: nat, first: Option<string>)

  /** crashed: mixing the answers has ended the program, before the callback ran. */
  datatype Mixer = Mixer(results: map<SourceId, string>, failures: map<SourceId, string>, waitingFor: int,
                         mutex: Option<(SourceId, nat)>, alive: bool, callbackRuns: nat, reply: Option<string>,
                         crashed: bool)

  datatype State = State(local: Source, remote: Source, mixer: Mixer) {
    function Get(id: SourceId): Source {
      if id.LOCAL? then local else remote
    }

    function Set(id: SourceId, c: Source): State {
      if id.LOCAL? then this.(local := c) else this.(remote := c)
    }

    predicate Has(id: SourceId, t: nat) {
      t in Get(id).threads
    }

    function PcOf(id: SourceId, t: nat): PC
      requires Has(id, t)
    {
      Get(id).threads[t].pc
    }
  }

  // ----- Steps

  function At(c: Source, t: nat, pc: PC): Source
    requires t in c.threads
  {
    c.(threads := c.threads[t := c.threads[t].(pc := pc)])
  }

  /** A step inside the holder: taking its mutex, ResultHolder::set_result or
      set_failure up to the mixer, and from there to the end. */
  function HolderStep(c: Source, t: nat): Option<Source>
    requires c.holder.Some? && t in c.threads
  {
    var h, th := c.holder.value, c.threads[t];
    match th.pc
    case Start =>
      if h.mutex.Some? then None else Some(At(c.(holder := Some(h.(mutex := Some(t)))), t, Locked))
    case Locked =>
      if th.reply.Result? then
        if h.used then Some(At(c, t, Back))
        else Some(At(c.(holder := Some(h.(used := true)), first := Some(th.reply.text)), t, AtMixer))
      else
        var h' := h.(numWaiting := h.numWaiting - 1);
        Some(At(c.(holder := Some(h')), t,
                if h'.numWaiting > 0 then HolderWritten(false) else if !h.used then AtMixer else HolderWritten(true)))
    case Back =>
      if th.reply.Result? then
        var h' := h.(numWaiting := h.numWaiting - 1);
        Some(At(c.(holder := Some(h')), t, HolderWritten(!(h'.numWaiting > 0))))
      else Some(At(c, t, HolderWritten(true)))
    case HolderWritten(last) =>
      Some(At(c.(holder := Some(h.(mutex := None))), t, if last then DeleteHolder else PC.Done))
    case DeleteHolder => Some(At(c.(holder := Some(h.(alive := false))), t, PC.Done))
    case _ => None
  }

  /** Where a thread goes when it has left the mixer. */
  function AfterMixer(c: Source): PC {
    if c.holder.Some? then Back else PC.Done
  }

  /** ResultMixer::set_result or set_failure with CheckIfDone, under the mutex. */
  function Report(m: Mixer, id: SourceId, reply: Reply): Mixer {
    var m' := m.(results := m.results[id := if reply.Result? then reply.text else "()"],
                 failures := m.failures[id := if reply.Result? then "" else CONNECT_FAILURE],
                 waitingFor := m.waitingFor - 1);
    if m'.waitingFor > 0 then m'
    else if Mixed(m').Some? then m'.(callbackRuns := m.callbackRuns + 1, reply := Mixed(m'))
    else m'.(crashed := true)
  }

  /** The mixed reply; None: the program does not survive the sources' answers. */
  function Mixed(m: Mixer): Option<string> {
    if LOCAL in m.results && REMOTE in m.results && REMOTE in m.failures
    then Mix(m.results[LOCAL], m.results[REMOTE], m.failures[REMOTE]) else None
  }

  function MixerStep(c: Source, m: Mixer, id: SourceId, t: nat): Option<(Source, Mixer)>
    requires t in c.threads
  {
    match c.threads[t].pc
    case AtMixer =>
      if m.mutex.Some? then None else Some((At(c, t, InMixer), m.(mutex := Some((id, t)))))
    case InMixer =>
      var m' := Report(m, id, c.threads[t].reply);
      Some((At(c.(reported := c.reported + 1), t, MixerWritten(m'.waitingFor == 0)), m'))
    case MixerWritten(last) =>
      Some((At(c, t, if last then DeleteMixer else AfterMixer(c)), m.(mutex := None)))
    case DeleteMixer => Some((At(c, t, AfterMixer(c)), m.(alive := false)))
    case _ => None
  }

  predicate AtTheMixer(pc: PC) {
    pc.AtMixer? || pc.InMixer? || pc.MixerWritten? || pc.DeleteMixer?
  }

  /** The next step of thread t of source id, if it exists, is not blocked, and the
      program has not ended. */
  function Next(s: State, id: SourceId, t: nat): Option<State> {
    var c := s.Get(id);
    if s.mixer.crashed || t !in c.threads then None
    else if AtTheMixer(c.threads[t].pc) then
      match MixerStep(c, s.mixer, id, t)
      case None => None
      case Some((c', m')) => Some(s.Set(id, c').(mixer := m'))
    else if c.holder.None? then None
    else
      match HolderStep(c, t)
      case None => None
      case Some(c') => Some(s.Set(id, c'))
  }

  type Schedule = seq<(SourceId, nat)>

  function Run(s: State, schedule: Schedule): Option<State>
    decreases |schedule|
  {
    if schedule == [] then Some(s)
    else match Next(s, schedule[0].0, schedule[0].1)
      case None => None
      case Some(s') => Run(s', schedule[1..])
  }

  /** A source with at least one service; each answers once. */
  function NewSource(replies: map<nat, Reply>): Source {
    Source(Some(Holder(|replies.Keys|, false, None, true)), map t | t in replies :: Thread(replies[t], Start), 0, None)
  }

  /** No local server: one thread on its way to the mixer with an empty result. */
  function NoSource(): Source {
    Source(None, map[0 := Thread(Result(""), AtMixer)], 0, Some(""))
  }

  function Init(local: Option<map<nat, Reply>>, remote: map<nat, Reply>): State {
    State(if local.Some? then NewSource(local.value) else NoSource(), NewSource(remote),
          Mixer(map[LOCAL := "", REMOTE := ""], map[LOCAL := "", REMOTE := ""], 2, None, true, 0, None, false))
  }

  // ----- What could go wrong

  /** The next step of the thread touches an object that has been freed. */
  predicate UsesFreed(s: State, id: SourceId, t: nat) {
    var c := s.Get(id);
    t in c.threads &&
    if AtTheMixer(c.threads[t].pc) then !s.mixer.alive
    else !c.threads[t].pc.Done? && (c.holder.Some? ==> !c.holder.value.alive)
  }
}
