/** ResultHolder as an object (gtagsmixer.cc): what its methods do when nothing comes
    between, and what a whole series of replies leaves in the mixer. */
module ResultHolders {
  import opened CStrings
  import opened Sequences
  import opened Mixing
  import P = MixerProtocol
  import Runs = MixerRuns

  class ResultHolder {
    const id: SourceId
    const mixer: ResultMixer
    var numWaiting: nat
    var used: bool

    // How often the mixer was told, and whether the object has deleted itself.
    ghost var reports: nat
    ghost var deleted: bool

    ghost predicate Valid()
      reads this
    {
      && (deleted <==> numWaiting == 0)
      && reports == if used || deleted then 1 else 0
    }

    /** The mixer is still there for as long as this source has not reported. */
    ghost predicate MayReport()
      reads this, mixer
    {
      reports == 0 ==> mixer.Valid() && !mixer.deleted
    }

    constructor (id: SourceId, numServices: nat, mixer: ResultMixer)
      requires numServices > 0
      ensures Valid() && this.id == id && this.mixer == mixer && numWaiting == numServices
      ensures !used && reports == 0
    {
      this.id, this.mixer := id, mixer;
      numWaiting, used, reports, deleted := numServices, false, 0, false;
    }

    /** The mixer has been told by this source; it survives that unless both sources have
        reported and the mix ends the program. */
    twostate predicate Told(result: string, failure: string, alive: bool)
      reads this, mixer
    {
      && mixer.results == old(mixer.results)[id := result] && mixer.failures == old(mixer.failures)[id := failure]
      && mixer.waitingFor == old(mixer.waitingFor) - 1
      && (alive <==> Survives(mixer))
      && (alive ==> mixer.Valid() && Replied(mixer))
    }

    /** alive: the program has survived the mix, if this was the last report. */
    method SetResult(result: string) returns (alive: bool)
      requires Valid() && !deleted && MayReport()
      modifies this, mixer
      ensures used && reports == 1
      ensures old(used) ==> alive && unchanged(mixer)
      ensures !old(used) ==> Told(result, "", alive)
      ensures alive ==> Valid() && numWaiting == old(numWaiting) - 1
    {
      alive := true;
      if !used {
        used := true;
        reports := reports + 1;
        alive := mixer.SetResult(result, id);
        if !alive {
          return;
        }
      }
      numWaiting := numWaiting - 1;
      if numWaiting > 0 {
        return;
      }
      deleted := true;
    }

    method SetFailure() returns (alive: bool)
      requires Valid() && !deleted && MayReport()
      modifies this, mixer
      ensures used == old(used) && reports == if used || numWaiting == 0 then 1 else 0
      ensures numWaiting == old(numWaiting) - 1
      ensures used || numWaiting > 0 ==> alive && unchanged(mixer)
      ensures !used && numWaiting == 0 ==> Told("()", P.CONNECT_FAILURE, alive)
      ensures alive ==> Valid()
    {
      alive := true;
      numWaiting := numWaiting - 1;
      if numWaiting > 0 {
        return;
      }
      if !used {
        reports := reports + 1;
        alive := mixer.SetFailure(P.CONNECT_FAILURE, id);
        if !alive {
          return;
        }
      }
      deleted := true;
    }
  }

  /** The program outlives the mixer's present count: it still waits, or its mix exists. */
  ghost predicate Survives(mixer: ResultMixer)
    reads mixer
  {
    mixer.waitingFor > 0 ||
    (LOCAL in mixer.results && REMOTE in mixer.results && REMOTE in mixer.failures
     && Mix(mixer.results[LOCAL], mixer.results[REMOTE], mixer.failures[REMOTE]).Some?)
  }

  /** Once the mixer is done, its reply is the mix. */
  ghost predicate Replied(mixer: ResultMixer)
    requires mixer.Valid()
    reads mixer
  {
    mixer.deleted ==> Some(mixer.reply) == Mix(mixer.results[LOCAL], mixer.results[REMOTE], mixer.failures[REMOTE])
  }

  /** The first result among the replies. */
  function FirstResult(replies: seq<P.Reply>): (first: Option<string>)
    ensures first.None? <==> forall k :: 0 <= k < |replies| ==> replies[k].Failure?
    ensures first.Some? ==> P.Result(first.value) in replies
  {
    if replies == [] then None
    else if replies[0].Result? then Some(replies[0].text)
    else FirstResult(replies[1..])
  }

  lemma {:induction false} FirstResultNext(replies: seq<P.Reply>, k: nat)
    requires k < |replies|
    ensures FirstResult(replies[..k + 1])
         == if FirstResult(replies[..k]).Some? then FirstResult(replies[..k])
            else if replies[k].Result? then Some(replies[k].text) else None
  {
    if k > 0 {
      assert replies[..k + 1][1..] == replies[1..][..k] && replies[..k][1..] == replies[1..][..k - 1];
      FirstResultNext(replies[1..], k - 1);
    }
  }

  lemma {:induction false} FirstResultStays(replies: seq<P.Reply>, k: nat)
    requires k <= |replies| && FirstResult(replies[..k]).Some?
    ensures FirstResult(replies) == FirstResult(replies[..k])
  {
    assert replies[..k][0] == replies[0];
    if !replies[0].Result? {
      assert replies[..k][1..] == replies[1..][..k - 1];
      FirstResultStays(replies[1..], k - 1);
    }
  }

  /** All services of a new source answer, one after the other: it reports once, its first
      result, or a failure with the last reply, and then deletes itself; the program ends
      on the way exactly if the other source has reported and the mix ends it. */
  method Serve(h: ResultHolder, replies: seq<P.Reply>) returns (alive: bool)
    requires h.Valid() && !h.used && h.numWaiting == |replies| > 0 && h.mixer.Valid() && !h.mixer.deleted
    modifies h, h.mixer
    ensures h.reports == 1 && h.mixer.waitingFor == old(h.mixer.waitingFor) - 1
    ensures var answer := Runs.Answer(FirstResult(replies));
      h.mixer.results == old(h.mixer.results)[h.id := answer.0] && h.mixer.failures == old(h.mixer.failures)[h.id := answer.1]
    ensures alive <==> Survives(h.mixer)
    ensures alive ==> h.deleted && h.mixer.Valid() && Replied(h.mixer)
  {
    hide Survives, Replied, Mix, FirstResult;
    var k := 0;
    while k < |replies|
      invariant 0 <= k <= |replies| && h.Valid() && h.numWaiting == |replies| - k && h.mixer.Valid()
      invariant h.used <==> FirstResult(replies[..k]).Some?
      invariant h.reports == 0 ==> unchanged(h.mixer)
      invariant h.reports == 1 ==> h.mixer.waitingFor == old(h.mixer.waitingFor) - 1 && Survives(h.mixer) && Replied(h.mixer)
                                   && h.mixer.results == old(h.mixer.results)[h.id := Runs.Answer(FirstResult(replies[..k])).0]
                                   && h.mixer.failures == old(h.mixer.failures)[h.id := Runs.Answer(FirstResult(replies[..k])).1]
    {
      FirstResultNext(replies, k);
      if replies[k].Result? {
        alive := h.SetResult(replies[k].text);
      } else {
        alive := h.SetFailure();
      }
      if !alive {
        if replies[k].Result? { FirstResultStays(replies, k + 1); } else { TakeAll(replies); }
        return;
      }
      k := k + 1;
    }
    TakeAll(replies);
    alive := true;
  }
}
