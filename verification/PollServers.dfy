/** PollServer (pollserver.cc): two parallel arrays of descriptors and owners that
    handlers change while a reverse loop dispatches events over them. */
module PollServers {
  import opened Sequences

  /** The revents bits that matter: POLLIN, POLLOUT, POLLHUP, and any other. */
  datatype Events = Events(input: bool, output: bool, hangup: bool, other: bool)

  const NO_EVENTS := Events(false, false, false, false)

  datatype PollFd = PollFd(fd: int, revents: Events) {
    predicate Readable() { revents.input }
    predicate Writable() { revents.output || revents.hangup }
    predicate Ready() { Readable() || Writable() }
  }

  /** -1 is the descriptor of a pollable that has been closed. */
  class Pollable {
    const fd: int

    constructor (fd: int)
      ensures this.fd == fd
    {
      this.fd := fd;
    }
  }

  /** What a handler does to the server, step by step. Only an open pollable is
      ever registered; any pollable may be unregistered. */
  datatype Action = Register(p: Pollable) | Unregister(p: Pollable)

  predicate Open(a: Action) {
    a.Register? ==> a.p.fd != -1
  }

  /** What the CHECK in Unregister lets the handlers of a descriptor do. */
  predicate Allowed(a: Action, fd: int) {
    a.Unregister? ==> a.p.fd == -1 || a.p.fd == fd
  }

  /** One call of HandleRead or HandleWrite for a descriptor. */
  datatype Dispatch = Read(fd: int) | Write(fd: int)

  /** A call as it was made: on which owner, and what that did. */
  datatype Call = Call(what: Dispatch, owner: Pollable, actions: seq<Action>)

  /** What the k-th call of a pass does: any actions, and others every time. */
  type Handlers = (Dispatch, nat) -> seq<Action>

  // ----- What a pass over the array dispatches

  /** The calls for one entry; `quit` holds the descriptors whose own HandleRead
      has unregistered them. */
  function OfEntry(e: PollFd, quit: set<int>): seq<Dispatch> {
    (if e.Readable() then [Read(e.fd)] else [])
    + (if e.Writable() && e.fd !in quit then [Write(e.fd)] else [])
  }

  /** The calls for the entries of s, visited from the last to the first. */
  function Dispatches(s: seq<PollFd>, quit: set<int>): seq<Dispatch> {
    if s == [] then [] else Dispatches(s[1..], quit) + OfEntry(s[0], quit)
  }

  predicate DistinctFds(s: seq<PollFd>) {
    forall i, j :: 0 <= i < j < |s| ==> s[i].fd != s[j].fd
  }

  /** How many entries poll() reports. */
  function Reported(s: seq<PollFd>): nat {
    if s == [] then 0 else (if s[|s| - 1].revents != NO_EVENTS then 1 else 0) + Reported(s[..|s| - 1])
  }

  function ReadyCount(s: seq<PollFd>): nat {
    if s == [] then 0 else (if s[|s| - 1].Ready() then 1 else 0) + ReadyCount(s[..|s| - 1])
  }

  lemma {:induction false} ReadyAreReported(s: seq<PollFd>)
    ensures ReadyCount(s) <= Reported(s)
  {
    if s != [] { ReadyAreReported(s[..|s| - 1]); }
  }

  lemma {:induction false} NoneReady(s: seq<PollFd>, k: nat)
    requires ReadyCount(s) == 0 && k < |s|
    ensures !s[k].Ready()
  {
    if k < |s| - 1 { NoneReady(s[..|s| - 1], k); }
  }

  /** Entries without events add nothing. */
  lemma {:induction false} SkipUnready(s: seq<PollFd>, k: nat, quit: set<int>)
    requires k <= |s| && forall j :: 0 <= j < k ==> !s[j].Ready()
    ensures Dispatches(s, quit) == Dispatches(s[k..], quit)
  {
    if k > 0 {
      SkipUnready(s[1..], k - 1, quit);
      assert s[1..][k - 1..] == s[k..];
      Neutral(Dispatches(s[1..], quit));
    }
  }

  /** A descriptor that is not among the entries may quit without effect. */
  lemma {:induction false} QuitElsewhere(s: seq<PollFd>, quit: set<int>, fd: int)
    requires forall k :: 0 <= k < |s| ==> s[k].fd != fd
    ensures Dispatches(s, quit + {fd}) == Dispatches(s, quit)
  {
    if s != [] { QuitElsewhere(s[1..], quit, fd); }
  }

  /** The descriptor has input. */
  ghost predicate SomeInput(s: seq<PollFd>, fd: int) {
    exists k :: 0 <= k < |s| && s[k].fd == fd && s[k].revents.input
  }

  /** The descriptor takes output, or the other side has hung up. */
  ghost predicate SomeOutput(s: seq<PollFd>, fd: int) {
    exists k :: 0 <= k < |s| && s[k].fd == fd && (s[k].revents.output || s[k].revents.hangup)
  }

  lemma SomeInTail(s: seq<PollFd>, fd: int)
    requires s != []
    ensures SomeInput(s, fd) <==> (s[0].fd == fd && s[0].revents.input) || SomeInput(s[1..], fd)
    ensures SomeOutput(s, fd) <==> (s[0].fd == fd && (s[0].revents.output || s[0].revents.hangup)) || SomeOutput(s[1..], fd)
  {
    assert forall k :: 0 <= k < |s[1..]| ==> s[1..][k] == s[k + 1];
    assert forall k :: 0 < k < |s| ==> s[k] == s[1..][k - 1];
  }

  /** POLLIN calls HandleRead, POLLOUT or POLLHUP calls HandleWrite, unless the descriptor has quit. */
  lemma {:induction false} DispatchedExactly(s: seq<PollFd>, quit: set<int>, fd: int)
    ensures Read(fd) in Dispatches(s, quit) <==> SomeInput(s, fd)
    ensures Write(fd) in Dispatches(s, quit) <==> fd !in quit && SomeOutput(s, fd)
  {
    if s != [] {
      DispatchedExactly(s[1..], quit, fd);
      SomeInTail(s, fd);
      hide SomeInput, SomeOutput;
    }
  }

  /** The i-th call comes from slot k. */
  ghost predicate From(s: seq<PollFd>, quit: set<int>, i: nat, k: nat) {
    i < |Dispatches(s, quit)| && k < |s| && Dispatches(s, quit)[i].fd == s[k].fd
  }

  /** The slots are visited from the last to the first, and of the two calls for a slot
      HandleRead comes first. */
  lemma {:induction false} DispatchedInOrder(s: seq<PollFd>, quit: set<int>, i: nat, j: nat) returns (k: nat, l: nat)
    requires i < j < |Dispatches(s, quit)|
    ensures From(s, quit, i, k) && From(s, quit, j, l) && k >= l
    ensures k == l ==> Dispatches(s, quit)[i].Read? && Dispatches(s, quit)[j].Write?
  {
    var rest := Dispatches(s[1..], quit);
    if j < |rest| {
      k, l := DispatchedInOrder(s[1..], quit, i, j);
      k, l := k + 1, l + 1;
    } else {
      l := 0;
      if i < |rest| {
        k := SlotOfCall(s[1..], quit, i);
        k := k + 1;
      } else {
        k := 0;
      }
    }
  }

  lemma {:induction false} SlotOfCall(s: seq<PollFd>, quit: set<int>, i: nat) returns (k: nat)
    requires i < |Dispatches(s, quit)|
    ensures From(s, quit, i, k)
  {
    if i < |Dispatches(s[1..], quit)| {
      k := SlotOfCall(s[1..], quit, i);
      k := k + 1;
    } else {
      k := 0;
    }
  }

  /** No descriptor gets two reads or two writes in a pass. */
  lemma {:induction false} DispatchedOnce(s: seq<PollFd>, quit: set<int>)
    requires DistinctFds(s)
    ensures forall d :: multiset(Dispatches(s, quit))[d] <= 1
  {
    if s != [] {
      DispatchedOnce(s[1..], quit);
      NotInTail(s, quit);
      var rest, first := Dispatches(s[1..], quit), OfEntry(s[0], quit);
      assert forall d :: multiset(first)[d] <= 1;
      hide Dispatches, OfEntry, DistinctFds;
      assert multiset(rest + first) == multiset(rest) + multiset(first);
      forall d
        ensures multiset(rest)[d] + multiset(first)[d] <= 1
      {
        if d in first { assert d !in rest; }
      }
    }
  }

  lemma NotInTail(s: seq<PollFd>, quit: set<int>)
    requires DistinctFds(s) && s != []
    ensures forall d :: d in OfEntry(s[0], quit) ==> d !in Dispatches(s[1..], quit)
  {
    hide Dispatches;
    DispatchedExactly(s[1..], quit, s[0].fd);
    assert forall k :: 0 <= k < |s[1..]| ==> s[1..][k].fd != s[0].fd;
  }

  // ----- The owners

  function Owners(o: seq<Pollable?>): set<Pollable?> {
    set q | q in o
  }

  ghost predicate DistinctOwners(o: seq<Pollable?>) {
    && (forall k :: 0 <= k < |o| ==> o[k] != null)
    && (forall i, j :: 0 <= i < j < |o| ==> o[i].fd != o[j].fd)
  }

  /** The owners once p has taken its descriptor. */
  ghost function Taken(owners: set<Pollable?>, p: Pollable): set<Pollable?> {
    (set q | q in owners && (q == null || q.fd != p.fd)) + {p}
  }

  /** The owners after an action, */
  ghost function Effect(owners: set<Pollable?>, a: Action): set<Pollable?> {
    match a
    case Register(p) => Taken(owners, p)
    case Unregister(p) => owners - {p}
  }

  /** after a list of them, */
  ghost function Effects(owners: set<Pollable?>, actions: seq<Action>): set<Pollable?> {
    if actions == [] then owners
    else Effect(Effects(owners, actions[..|actions| - 1]), actions[|actions| - 1])
  }

  /** and after a series of calls. */
  ghost function OwnersAfter(owners: set<Pollable?>, calls: seq<Call>): set<Pollable?> {
    if calls == [] then owners
    else Effects(OwnersAfter(owners, calls[..|calls| - 1]), calls[|calls| - 1].actions)
  }

  /** The action gives the descriptor up. */
  predicate GivesUp(owners: set<Pollable?>, a: Action, fd: int) {
    a.Unregister? && a.p in owners && a.p.fd == fd
  }

  /** One of the actions does, */
  ghost predicate Quits(owners: set<Pollable?>, actions: seq<Action>, fd: int) {
    && actions != []
    && (|| Quits(owners, actions[..|actions| - 1], fd)
        || GivesUp(Effects(owners, actions[..|actions| - 1]), actions[|actions| - 1], fd))
  }

  /** and so these descriptors quit in their own HandleRead. */
  ghost function Quitters(owners: set<Pollable?>, calls: seq<Call>): set<int> {
    if calls == [] then {}
    else
      var before, last := calls[..|calls| - 1], calls[|calls| - 1];
      Quitters(owners, before)
      + if last.what.Read? && Quits(OwnersAfter(owners, before), last.actions, last.what.fd) then {last.what.fd} else {}
  }

  predicate AllowedCall(c: Call) {
    forall a :: a in c.actions ==> Allowed(a, c.what.fd)
  }

  predicate AllAllowed(calls: seq<Call>) {
    forall n :: 0 <= n < |calls| ==> AllowedCall(calls[n])
  }

  /** Every call went to whoever owned its descriptor by then, and did what that does. */
  ghost predicate Recorded(owners: set<Pollable?>, calls: seq<Call>, handlers: Handlers) {
    forall n :: 0 <= n < |calls| ==>
      && calls[n].owner in OwnersAfter(owners, calls[..n]) && calls[n].owner.fd == calls[n].what.fd
      && calls[n].actions == handlers(calls[n].what, n)
  }

  function Whats(calls: seq<Call>): (w: seq<Dispatch>)
    ensures |w| == |calls|
  {
    if calls == [] then [] else Whats(calls[..|calls| - 1]) + [calls[|calls| - 1].what]
  }

  lemma EffectsNext(owners: set<Pollable?>, actions: seq<Action>, k: nat, fd: int)
    requires k < |actions|
    ensures Effects(owners, actions[..k + 1]) == Effect(Effects(owners, actions[..k]), actions[k])
    ensures Quits(owners, actions[..k + 1], fd)
       <==> Quits(owners, actions[..k], fd) || GivesUp(Effects(owners, actions[..k]), actions[k], fd)
  {
    assert actions[..k + 1][..k] == actions[..k];
  }

  lemma EffectsNone(owners: set<Pollable?>, fd: int)
    ensures Effects(owners, []) == owners && !Quits(owners, [], fd)
  {
  }

  /** One more call. */
  lemma OneMoreCall(owners: set<Pollable?>, calls: seq<Call>, c: Call)
    ensures OwnersAfter(owners, calls + [c]) == Effects(OwnersAfter(owners, calls), c.actions)
    ensures Quitters(owners, calls + [c]) == Quitters(owners, calls)
      + if c.what.Read? && Quits(OwnersAfter(owners, calls), c.actions, c.what.fd) then {c.what.fd} else {}
    ensures Whats(calls + [c]) == Whats(calls) + [c.what]
    ensures AllAllowed(calls) ==> (AllAllowed(calls + [c]) <==> AllowedCall(c))
  {
    hide Effects, Quits, AllowedCall;
    assert (calls + [c])[..|calls|] == calls;
    assert (calls + [c])[|calls|] == c;
  }

  lemma RecordedNext(owners: set<Pollable?>, calls: seq<Call>, c: Call, handlers: Handlers)
    requires Recorded(owners, calls, handlers)
    requires c.owner in OwnersAfter(owners, calls) && c.owner.fd == c.what.fd
    requires c.actions == handlers(c.what, |calls|)
    ensures Recorded(owners, calls + [c], handlers)
  {
    hide OwnersAfter;
    assert (calls + [c])[..|calls|] == calls;
    assert forall n :: 0 <= n < |calls| ==> (calls + [c])[..n] == calls[..n] && (calls + [c])[n] == calls[n];
  }

  lemma OwnersReplace(o: seq<Pollable?>, i: nat, p: Pollable)
    requires DistinctOwners(o) && i < |o| && o[i].fd == p.fd
    ensures Owners(o[i := p]) == Taken(Owners(o), p)
  {
    var o' := o[i := p];
    forall q | q in Owners(o) && (q == null || q.fd != p.fd)
      ensures q in o'
    {
      var k :| 0 <= k < |o| && o[k] == q;
      assert o'[k] == q;
    }
    assert o'[i] == p;
  }

  lemma DistinctAppend(f: seq<PollFd>, o: seq<Pollable?>, p: Pollable)
    requires DistinctFds(f) && DistinctOwners(o) && |o| == |f|
    requires forall k :: 0 <= k < |f| ==> o[k].fd == f[k].fd != p.fd
    ensures forall e: PollFd :: e.fd == p.fd ==> DistinctFds(f + [e])
    ensures DistinctOwners(o + [p])
  {
  }

  lemma OwnersAppend(o: seq<Pollable?>, p: Pollable)
    requires DistinctOwners(o) && forall k :: 0 <= k < |o| ==> o[k].fd != p.fd
    ensures Owners(o + [p]) == Taken(Owners(o), p)
  {
  }

  /** The last owner moves into slot i, and the last slot is given up. */
  lemma OwnersSwapOut(o: seq<Pollable?>, i: nat)
    requires DistinctOwners(o) && i < |o|
    ensures Owners(o[i := o[|o| - 1]][..|o| - 1]) == Owners(o) - {o[i]}
  {
    var o' := o[i := o[|o| - 1]][..|o| - 1];
    forall q | q in Owners(o) - {o[i]}
      ensures q in o'
    {
      var k :| 0 <= k < |o| && o[k] == q;
      assert if k == |o| - 1 then o'[i] == q else o'[k] == q;
    }
  }

  class PollServer {
    var fds: array<PollFd>
    var pollables: array<Pollable?>
    var maxFds: nat
    var numFds: nat
    var currentFd: int

    // The calls made since the pass began.
    ghost var log: seq<Call>

    ghost predicate Valid()
      reads this, fds, pollables
    {
      && fds.Length == pollables.Length == maxFds
      && numFds <= maxFds && maxFds > 0
      && DistinctFds(fds[..numFds])
      && DistinctOwners(pollables[..numFds])
      && forall k :: 0 <= k < numFds ==> pollables[k].fd == fds[k].fd != -1
    }

    /** The pollables that own a descriptor. */
    ghost function Registered(): set<Pollable?>
      requires Valid()
      reads this, fds, pollables
    {
      Owners(pollables[..numFds])
    }

    /** Space for at least one descriptor: doubling nothing would give nothing. */
    constructor (maxFds: nat)
      requires maxFds > 0
      ensures Valid() && Registered() == {} && log == [] && currentFd == -1
      ensures fresh(fds) && fresh(pollables)
    {
      this.maxFds := maxFds;
      fds := new PollFd[maxFds];
      pollables := new Pollable?[maxFds];
      numFds, currentFd := 0, -1;
      log := [];
    }

    method LastIndexOf(fd: int) returns (i: int)
      requires Valid()
      ensures i == -1 || (0 <= i < numFds && fds[i].fd == fd)
      ensures i == -1 ==> forall k :: 0 <= k < numFds ==> fds[k].fd != fd
    {
      i := numFds - 1;
      while i >= 0
        invariant -1 <= i < numFds
        invariant forall k :: i < k < numFds ==> fds[k].fd != fd
      {
        if fds[i].fd == fd {
          return;
        }
        i := i - 1;
      }
    }

    /** realloc keeps the whole old block; the new half is uninitialised. */
    method DoubleCapacity()
      requires Valid()
      modifies this`fds, this`pollables, this`maxFds
      ensures Valid() && maxFds == 2 * old(maxFds)
      ensures fresh(fds) && fresh(pollables)
      ensures fds[..old(maxFds)] == old(fds[..]) && pollables[..old(maxFds)] == old(pollables[..])
    {
      hide DistinctFds, DistinctOwners;
      ghost var f, o := fds[..], pollables[..];
      DistinctOwnersNotNull(pollables[..numFds]);
      var newFds := Realloc(fds);
      var newPollables := Realloc(pollables);
      assert newFds[..maxFds][..numFds] == f[..numFds] && newPollables[..maxFds][..numFds] == o[..numFds];
      assert newFds[..numFds] == fds[..numFds] && newPollables[..numFds] == pollables[..numFds];
      fds, pollables, maxFds := newFds, newPollables, 2 * maxFds;
      assert forall k :: 0 <= k < numFds ==> fds[k] == f[k] && pollables[k] == o[k];
    }

    method Realloc<T(0)>(a: array<T>) returns (b: array<T>)
      ensures fresh(b) && b.Length == 2 * a.Length && b[..a.Length] == a[..]
    {
      b := new T[2 * a.Length];
      forall k | 0 <= k < a.Length {
        b[k] := a[k];
      }
    }

    /** Gives the descriptor of p to p, whoever owned it before. The revents of a
        slot are not touched. */
    method Register(p: Pollable)
      requires Valid() && p.fd != -1
      modifies this, fds, pollables
      ensures Valid() && currentFd == old(currentFd) && log == old(log)
      ensures fds == old(fds) || fresh(fds)
      ensures pollables == old(pollables) || fresh(pollables)
      ensures Registered() == Taken(old(Registered()), p)
      ensures numFds >= old(numFds) && fds[..old(numFds)] == old(fds[..numFds])
      ensures old(maxFds) <= maxFds
      ensures forall k :: 0 <= k < old(maxFds) ==> fds[k].revents == old(fds[k].revents)
    {
      var index := LastIndexOf(p.fd);
      if index == -1 {
        Append(p);
      } else {
        Overwrite(index, p);
      }
    }

    method Append(p: Pollable)
      requires Valid() && p.fd != -1 && forall k :: 0 <= k < numFds ==> fds[k].fd != p.fd
      modifies this, fds, pollables
      ensures Valid() && currentFd == old(currentFd) && log == old(log)
      ensures fds == old(fds) || fresh(fds)
      ensures pollables == old(pollables) || fresh(pollables)
      ensures Registered() == Taken(old(Registered()), p)
      ensures numFds == old(numFds) + 1 && fds[..old(numFds)] == old(fds[..numFds])
      ensures old(maxFds) <= maxFds
      ensures forall k :: 0 <= k < old(maxFds) ==> fds[k].revents == old(fds[k].revents)
    {
      hide Taken, Owners, DistinctFds, DistinctOwners;
      ghost var f, o := fds[..], pollables[..numFds];
      DistinctAppend(fds[..numFds], o, p);
      if numFds == maxFds {
        DoubleCapacity();
      }
      assert fds[..|f|] == f && pollables[..numFds] == o;
      fds[numFds] := fds[numFds].(fd := p.fd);
      pollables[numFds] := p;
      numFds := numFds + 1;
      assert fds[..numFds - 1] == f[..numFds - 1];
      assert fds[..numFds] == f[..numFds - 1] + [fds[numFds - 1]];
      assert pollables[..numFds] == o + [p];
      OwnersAppend(o, p);
    }

    method Overwrite(index: nat, p: Pollable)
      requires Valid() && index < numFds && fds[index].fd == p.fd
      modifies fds, pollables
      ensures Valid() && fds[..] == old(fds[..])
      ensures Registered() == Taken(old(Registered()), p)
    {
      fds[index] := fds[index].(fd := p.fd);
      OwnersReplace(pollables[..numFds], index, p);
      pollables[index] := p;
      assert pollables[..numFds] == old(pollables[..numFds])[index := p];
      assert fds[..] == old(fds[..]);
      assert fds[..numFds] == old(fds[..numFds]);
    }

    /** Gives up the descriptor of p if p still owns it: the last entry moves into
        its slot, with its events cleared. Alive is false when the CHECK fails that
        only the current descriptor (or a closed pollable) is unregistered. */
    method Unregister(p: Pollable) returns (alive: bool, done: bool)
      requires Valid()
      modifies this`numFds, fds, pollables
      ensures alive <==> currentFd == -1 || p.fd == -1 || currentFd == p.fd
      ensures !alive ==> !done
      ensures Valid() && Registered() == if alive then old(Registered()) - {p} else old(Registered())
      ensures alive ==> (done <==> p in old(Registered()))
      ensures !done ==> numFds == old(numFds) && fds[..] == old(fds[..])
      ensures done ==> numFds == old(numFds) - 1 && p.fd != -1
      ensures done ==> exists i :: 0 <= i <= numFds && old(fds[i].fd) == p.fd && fds[i].revents == NO_EVENTS
                                && forall k :: 0 <= k < maxFds && k != i ==> fds[k] == old(fds[k])
    {
      if !(currentFd == -1 || p.fd == -1 || currentFd == p.fd) {
        return false, false;
      }
      OwnerIsUnique(pollables[..numFds], p);
      var i := numFds - 1;
      while i >= 0
        invariant -1 <= i < numFds
        invariant forall k :: i < k < numFds ==> fds[k].fd != p.fd
      {
        if fds[i].fd == p.fd {
          if pollables[i] != p {
            NotOwner(pollables[..numFds], i, p);
            return true, false;
          }
          MoveLastInto(i);
          return true, true;
        }
        i := i - 1;
      }
      NoOwner(pollables[..numFds], p);
      return true, false;
    }

    method MoveLastInto(i: nat)
      requires Valid() && i < numFds
      modifies this`numFds, fds, pollables
      ensures Valid() && numFds == old(numFds) - 1
      ensures Registered() == old(Registered()) - {old(pollables[i])}
      ensures old(pollables[i]) in old(Registered())
      ensures fds[i].revents == NO_EVENTS
      ensures forall k :: 0 <= k < maxFds && k != i ==> fds[k] == old(fds[k])
    {
      ghost var f, o := fds[..numFds], pollables[..numFds];
      assert o[i] in o;
      fds[i] := PollFd(fds[numFds - 1].fd, NO_EVENTS);
      pollables[i] := pollables[numFds - 1];
      numFds := numFds - 1;
      assert pollables[..numFds] == o[i := o[|o| - 1]][..|o| - 1];
      OwnersSwapOut(o, i);
    }

    method IsRegistered(p: Pollable) returns (r: bool)
      requires Valid()
      ensures r == (p in Registered())
    {
      var i := LastIndexOf(p.fd);
      OwnerIsUnique(pollables[..numFds], p);
      if i == -1 {
        NoOwner(pollables[..numFds], p);
      } else if pollables[i] != p {
        NotOwner(pollables[..numFds], i, p);
      }
      return i >= 0 && pollables[i] == p;
    }

    /** Where slot i stands while the handler of descriptor c runs: the slots below
        are untouched, and slot i holds its entry unless c was given up. */
    ghost predicate Handling(i: nat, below: seq<PollFd>, entry: PollFd, left: bool)
      requires Valid()
      reads this, fds, pollables
    {
      && i == |below| <= numFds && i < maxFds && entry.fd != -1
      && fds[..i] == below
      && (forall k :: 0 <= k < i ==> below[k].fd != entry.fd)
      && if left then fds[i].revents == NO_EVENTS else i < numFds && fds[i] == entry
    }

    /** One action of a handler of descriptor entry.fd; the CHECK fails exactly if it is not allowed. */
    method Act(a: Action, i: nat, ghost below: seq<PollFd>, ghost entry: PollFd, ghost left: bool)
      returns (alive: bool, ghost leaves: bool)
      requires Valid() && Open(a) && Handling(i, below, entry, left) && currentFd == entry.fd
      modifies this, fds, pollables
      ensures Valid() && currentFd == old(currentFd) && log == old(log)
      ensures fds == old(fds) || fresh(fds)
      ensures pollables == old(pollables) || fresh(pollables)
      ensures alive <==> Allowed(a, entry.fd)
      ensures alive ==> Handling(i, below, entry, leaves) && Registered() == Effect(old(Registered()), a)
      ensures alive ==> (leaves <==> left || GivesUp(old(Registered()), a, entry.fd))
    {
      hide Taken;
      alive, leaves := true, left;
      match a
      case Register(p) =>
        ghost var n := numFds;
        Register(p);
        assert fds[..i] == fds[..n][..i];
        assert i < n ==> fds[i] == fds[..n][i];
      case Unregister(p) =>
        ghost var f := fds[..numFds];
        assert f[..i] == below;
        var done;
        alive, done := Unregister(p);
        if done {
          ghost var j :| 0 <= j <= numFds && old(fds[j].fd) == p.fd && fds[j].revents == NO_EVENTS
                      && forall k :: 0 <= k < maxFds && k != j ==> fds[k] == old(fds[k]);
          SlotOf(f, i, j, below, entry);
          leaves := true;
        }
    }

    /** HandleRead or HandleWrite of the owner of slot i, as any list of actions. */
    method RunHandler(actions: seq<Action>, i: nat, ghost below: seq<PollFd>, ghost entry: PollFd)
      returns (alive: bool, ghost left: bool)
      requires Valid() && (forall a :: a in actions ==> Open(a))
      requires Handling(i, below, entry, false) && currentFd == entry.fd
      modifies this, fds, pollables
      ensures Valid() && currentFd == old(currentFd) && log == old(log)
      ensures fds == old(fds) || fresh(fds)
      ensures pollables == old(pollables) || fresh(pollables)
      ensures alive <==> forall a :: a in actions ==> Allowed(a, entry.fd)
      ensures alive ==> Handling(i, below, entry, left) && Registered() == Effects(old(Registered()), actions)
      ensures alive ==> (left <==> Quits(old(Registered()), actions, entry.fd))
    {
      hide Handling, Effect, Effects, Quits, GivesUp, Allowed, Registered, Valid;
      left := false;
      var k := 0;
      TakeAll(actions);
      assert actions[..0] == [];
      EffectsNone(Registered(), entry.fd);
      while k < |actions|
        invariant 0 <= k <= |actions| && Valid() && currentFd == old(currentFd) && log == old(log)
        invariant fds == old(fds) || fresh(fds)
        invariant pollables == old(pollables) || fresh(pollables)
        invariant Handling(i, below, entry, left) && Registered() == Effects(old(Registered()), actions[..k])
        invariant left <==> Quits(old(Registered()), actions[..k], entry.fd)
        invariant forall j :: 0 <= j < k ==> Allowed(actions[j], entry.fd)
      {
        EffectsNext(old(Registered()), actions, k, entry.fd);
        alive, left := Act(actions[k], i, below, entry, left);
        if !alive {
          return;
        }
        k := k + 1;
      }
      alive := true;
    }

    /** The calls of the pass so far, up to where the owners stand now. */
    ghost predicate Tracks(owners: set<Pollable?>, handlers: Handlers)
      requires Valid()
      reads this, fds, pollables
    {
      Registered() == OwnersAfter(owners, log) && Recorded(owners, log, handlers) && AllAllowed(log)
    }

    /** One call of a handler for the descriptor of slot i. */
    method CallHandler(what: Dispatch, i: nat, calls: nat, handlers: Handlers, ghost owners: set<Pollable?>,
                       ghost below: seq<PollFd>, ghost entry: PollFd)
      returns (alive: bool, ghost left: bool)
      requires Valid() && Tracks(owners, handlers) && calls == |log|
      requires forall w, k, a :: a in handlers(w, k) ==> Open(a)
      requires Handling(i, below, entry, false) && currentFd == entry.fd == what.fd
      modifies this, fds, pollables
      ensures Valid() && currentFd == old(currentFd)
      ensures fds == old(fds) || fresh(fds)
      ensures pollables == old(pollables) || fresh(pollables)
      ensures |log| == calls + 1 && log[..calls] == old(log) && Recorded(owners, log, handlers)
      ensures Whats(log) == Whats(old(log)) + [what]
      ensures alive <==> AllAllowed(log)
      ensures alive ==> Tracks(owners, handlers) && Handling(i, below, entry, left)
      ensures left <==> Quits(old(Registered()), log[calls].actions, entry.fd)
      ensures Quitters(owners, log) == Quitters(owners, old(log)) + Leaving(entry.fd, what.Read? && left)
      ensures AllAllowed(log[..calls])
    {
      hide Recorded, Effects, Quits, Quitters, AllAllowed, Whats, OwnersAfter;
      OwnerOfSlot(this, i);
      var owner := pollables[i];
      var actions := handlers(what, calls);
      ghost var call := Call(what, owner, actions);
      OneMoreCall(owners, log, call);
      RecordedNext(owners, log, call, handlers);
      ghost var quits := Quits(Registered(), actions, entry.fd);
      LogCall(call);
      alive, left := RunHandler(actions, i, below, entry);
      left := quits;
    }

    ghost method LogCall(call: Call)
      requires Valid()
      modifies `log
      ensures Valid() && log == old(log) + [call] && Registered() == old(Registered())
    {
      log := log + [call];
    }

    /** The body of the loop: HandleRead, then HandleWrite unless the entry has left. */
    method HandleEntry(i: nat, calls: nat, handlers: Handlers, ghost owners: set<Pollable?>)
      returns (alive: bool, hadEvent: bool, callsAfter: nat, ghost leaves: bool)
      requires Valid() && i < numFds && Tracks(owners, handlers) && calls == |log|
      requires forall w, k, a :: a in handlers(w, k) ==> Open(a)
      modifies this, fds, pollables
      ensures Valid()
      ensures fds == old(fds) || fresh(fds)
      ensures pollables == old(pollables) || fresh(pollables)
      ensures Recorded(owners, log, handlers) && (alive <==> AllAllowed(log))
      ensures alive ==> Tracks(owners, handlers) && callsAfter == |log|
      ensures alive ==> i <= numFds && fds[..i] == old(fds[..i]) && hadEvent == old(fds[i]).Ready()
      ensures alive ==> (
                Whats(log) == Whats(old(log))
                              + (if old(fds[i].revents.input) then [Read(old(fds[i].fd))] else [])
                              + (if old(fds[i].revents.output || fds[i].revents.hangup) && !leaves then [Write(old(fds[i].fd))] else []))
      ensures Quitters(owners, log) == Quitters(owners, old(log)) + Leaving(old(fds[i].fd), leaves)
      ensures alive ==> Whats(log) == Whats(old(log)) + OfEntry(old(fds[i]), Leaving(old(fds[i].fd), leaves))
      ensures !alive ==> Stopped(log, Whats(old(log)) + OfEntry(old(fds[i]), Leaving(old(fds[i].fd), leaves)))
    {
      hide Recorded, Quits, Quitters, AllAllowed, Whats, OwnersAfter, Stopped;
      ghost var entry, below, before := fds[i], fds[..i], Whats(log);
      BelowIsOther(fds[..numFds], i, below);
      currentFd := fds[i].fd;
      alive, hadEvent, callsAfter, leaves := true, false, calls, false;
      if fds[i].Readable() {
        alive, leaves := CallHandler(Read(currentFd), i, callsAfter, handlers, owners, below, entry);
        if !alive {
          StoppedInEntry(log, before, entry, leaves);
          return;
        }
        callsAfter := callsAfter + 1;
        hadEvent := true;
      }
      if i < numFds && fds[i].Writable() {
        ghost var leavesLater;
        alive, leavesLater := CallHandler(Write(currentFd), i, callsAfter, handlers, owners, below, entry);
        if !alive {
          StoppedInEntry(log, before, entry, leaves);
          return;
        }
        callsAfter := callsAfter + 1;
        hadEvent := true;
      }
    }

    ghost method StartPass()
      requires Valid()
      modifies `log
      ensures Valid() && log == [] && Registered() == old(Registered())
    {
      log := [];
    }

    /** No descriptor's handlers are running. */
    method LeaveHandlers()
      requires Valid()
      modifies `currentFd
      ensures Valid() && currentFd == -1 && Registered() == old(Registered())
    {
      currentFd := -1;
    }

    /** One pass, whatever its handlers do: every call goes to whoever owns the descriptor
        by then. The pass comes through exactly if no call unregisters another open
        descriptor; then the calls are exactly those for the entries that were there at
        the start, but that a descriptor that quits in its own HandleRead gets no
        HandleWrite. Otherwise it stops in the first call that does. */
    method HandlePollEvents(numEvents: nat, handlers: Handlers) returns (alive: bool)
      requires Valid() && numEvents == Reported(fds[..numFds])
      requires forall w, k, a :: a in handlers(w, k) ==> Open(a)
      modifies this, fds, pollables
      ensures Valid() && Recorded(old(Registered()), log, handlers)
      ensures alive <==> AllAllowed(log)
      ensures (forall w, k, a :: a in handlers(w, k) ==> Allowed(a, w.fd)) ==> alive
      ensures alive ==> Whats(log) == Dispatches(old(fds[..numFds]), Quitters(old(Registered()), log))
      ensures alive ==> forall fd :: Read(fd) in Whats(log) <==> SomeInput(old(fds[..numFds]), fd)
      ensures alive ==> forall fd :: Write(fd) in Whats(log) <==>
                                       fd !in Quitters(old(Registered()), log) && SomeOutput(old(fds[..numFds]), fd)
      ensures alive ==> Registered() == OwnersAfter(old(Registered()), log) && currentFd == -1
      ensures !alive ==> Stopped(log, Dispatches(old(fds[..numFds]), Quitters(old(Registered()), log)))
    {
      hide Dispatches, Reported, Valid, Registered, Recorded, Quitters, AllAllowed, Whats, OwnersAfter, Stopped, Passing, SomeInput, SomeOutput;
      Bounds(this);
      ghost var start, owners := fds[..numFds], Registered();
      StartPass();
      NoCalls(owners, handlers);
      var left, calls := numEvents, 0;
      var i := numFds - 1;
      PassBegins(this, left, start, owners);
      while i >= 0 && left > 0
        invariant Valid() && Passing(i, left, start, owners) && Tracks(owners, handlers) && calls == |log|
        invariant fds == old(fds) || fresh(fds)
        invariant pollables == old(pollables) || fresh(pollables)
      {
        var hadEvent;
        alive, hadEvent, calls := Visit(i, left, calls, handlers, owners, start);
        if !alive {
          AllowedHandlers(owners, log, handlers);
          return;
        }
        if hadEvent {
          left := left - 1;
        }
        i := i - 1;
      }
      PassEnds(this, i, left, start, owners);
      forall fd {
        DispatchedExactly(start, Quitters(owners, log), fd);
      }
      LeaveHandlers();
      alive := true;
    }

    /** The pass has come down to slot i: the entries up to there are as they were at its
        start, no more of them are ready than are left to report, and the calls so far are
        those for the entries above. */
    ghost predicate Passing(i: int, left: int, start: seq<PollFd>, owners: set<Pollable?>)
      reads this, fds
    {
      && -1 <= i < |start| && i < numFds <= fds.Length && DistinctFds(start)
      && fds[..i + 1] == start[..i + 1] && ReadyCount(start[..i + 1]) <= left
      && Whats(log) == Dispatches(start[i + 1..], Quitters(owners, log))
      && forall k :: 0 <= k <= i ==> start[k].fd !in Quitters(owners, log)
    }

    /** One iteration, as a part of the whole pass. */
    method Visit(i: nat, left: int, calls: nat, handlers: Handlers, ghost owners: set<Pollable?>, ghost start: seq<PollFd>)
      returns (alive: bool, hadEvent: bool, callsAfter: nat)
      requires Valid() && Passing(i, left, start, owners) && Tracks(owners, handlers) && calls == |log|
      requires forall w, k, a :: a in handlers(w, k) ==> Open(a)
      modifies this, fds, pollables
      ensures Valid() && Recorded(owners, log, handlers) && (alive <==> AllAllowed(log))
      ensures fds == old(fds) || fresh(fds)
      ensures pollables == old(pollables) || fresh(pollables)
      ensures alive ==> Tracks(owners, handlers) && callsAfter == |log|
      ensures alive ==> Passing(i - 1, if hadEvent then left - 1 else left, start, owners)
      ensures !alive ==> Stopped(log, Dispatches(start, Quitters(owners, log)))
    {
      hide Dispatches, OfEntry, ReadyCount, DistinctFds, Valid, Registered, PollFd.Ready;
      hide Recorded, Quitters, AllAllowed, Whats, OwnersAfter, Stopped, Tracks;
      ghost var leaves, quit := false, Quitters(owners, log);
      assert fds[i] == fds[..i + 1][i] == start[i];
      alive, hadEvent, callsAfter, leaves := HandleEntry(i, calls, handlers, owners);
      PassStep(start, i, quit, leaves);
      if alive {
        Bounds(this);
      } else {
        StoppedHere(start, i, log, Quitters(owners, log));
      }
    }
  }

  lemma PassBegins(ps: PollServer, left: int, start: seq<PollFd>, owners: set<Pollable?>)
    requires ps.Valid() && ps.log == [] && start == ps.fds[..ps.numFds] && left == Reported(start)
    ensures ps.Passing(ps.numFds - 1, left, start, owners)
  {
    hide Dispatches, ReadyCount, Reported;
    ReadyAreReported(start);
    TakeAll(start);
    NoDispatches(Quitters(owners, []));
    assert start[|start|..] == [] && Whats([]) == [] && Quitters(owners, []) == {};
  }

  lemma PassEnds(ps: PollServer, i: int, left: int, start: seq<PollFd>, owners: set<Pollable?>)
    requires ps.Passing(i, left, start, owners) && (i < 0 || left <= 0)
    ensures Whats(ps.log) == Dispatches(start, Quitters(owners, ps.log))
  {
    hide Dispatches, ReadyCount, Whats, Quitters;
    ReadyNone(start);
    RestUnready(start, i + 1, Quitters(owners, ps.log));
  }

  function Leaving(fd: int, leaves: bool): set<int> {
    if leaves then {fd} else {}
  }

  /** These calls are the first of the given ones, and only the last of them did
      something that it may not do. */
  predicate Stopped(calls: seq<Call>, all: seq<Dispatch>) {
    && calls != [] && Whats(calls) <= all
    && AllAllowed(calls[..|calls| - 1]) && !AllowedCall(calls[|calls| - 1])
  }

  lemma StoppedAt(calls: seq<Call>, all: seq<Dispatch>)
    requires calls != [] && Whats(calls) <= all && AllAllowed(calls[..|calls| - 1]) && !AllAllowed(calls)
    ensures Stopped(calls, all)
  {
    SplitLast(calls);
  }

  lemma StoppedInEntry(calls: seq<Call>, before: seq<Dispatch>, e: PollFd, leaves: bool)
    requires calls != [] && AllAllowed(calls[..|calls| - 1]) && !AllAllowed(calls)
    requires (e.Readable() && Whats(calls) == before + [Read(e.fd)])
          || Whats(calls) == before + OfEntry(e, Leaving(e.fd, leaves))
    ensures Stopped(calls, before + OfEntry(e, Leaving(e.fd, leaves)))
  {
    hide AllAllowed, Whats;
    StoppedAt(calls, before + OfEntry(e, Leaving(e.fd, leaves)));
  }

  lemma StoppedHere(s: seq<PollFd>, i: nat, calls: seq<Call>, quit: set<int>)
    requires i <= |s| && Stopped(calls, Dispatches(s[i..], quit))
    ensures Stopped(calls, Dispatches(s, quit))
  {
    DispatchesPrefix(s, i, quit);
  }

  lemma {:induction false} DispatchesPrefix(s: seq<PollFd>, i: nat, quit: set<int>)
    requires i <= |s|
    ensures Dispatches(s[i..], quit) <= Dispatches(s, quit)
  {
    if i > 0 {
      DispatchesPrefix(s[1..], i - 1, quit);
      assert s[1..][i - 1..] == s[i..];
    }
  }

  /** Handlers that keep to what is allowed never end the pass. */
  lemma AllowedHandlers(owners: set<Pollable?>, calls: seq<Call>, handlers: Handlers)
    requires Recorded(owners, calls, handlers)
    ensures (forall w, k, a :: a in handlers(w, k) ==> Allowed(a, w.fd)) ==> AllAllowed(calls)
  {
    hide OwnersAfter;
  }

  lemma NoCalls(owners: set<Pollable?>, handlers: Handlers)
    ensures OwnersAfter(owners, []) == owners && Recorded(owners, [], handlers)
    ensures AllAllowed([]) && Whats([]) == [] && Quitters(owners, []) == {}
  {
  }

  lemma OwnerOfSlot(ps: PollServer, i: nat)
    requires ps.Valid() && i < ps.numFds
    ensures ps.pollables[i] != null && ps.pollables[i].fd == ps.fds[i].fd && ps.pollables[i] in ps.Registered()
  {
    assert ps.pollables[..ps.numFds][i] == ps.pollables[i];
  }

  /** Where nothing is left to report, the entries below make no calls. */
  lemma RestUnready(s: seq<PollFd>, k: nat, quit: set<int>)
    requires k <= |s| && ReadyCount(s[..k]) == 0
    ensures Dispatches(s, quit) == Dispatches(s[k..], quit)
  {
    hide ReadyCount, Dispatches;
    forall j | 0 <= j < k
      ensures !s[j].Ready()
    {
      NoneReady(s[..k], j);
    }
    SkipUnready(s, k, quit);
  }

  lemma ReadyNone(s: seq<PollFd>)
    ensures ReadyCount(s[..0]) == 0
  {
  }

  lemma Bounds(ps: PollServer)
    requires ps.Valid()
    ensures ps.numFds <= ps.fds.Length && DistinctFds(ps.fds[..ps.numFds])
  {
  }

  lemma NoDispatches(quit: set<int>)
    ensures Dispatches([], quit) == []
  {
  }

  /** What one more entry means for the calls made so far and for the entries below. */
  lemma PassStep(s: seq<PollFd>, i: nat, quit: set<int>, leaves: bool)
    requires DistinctFds(s) && i < |s| && s[i].fd !in quit
    ensures Dispatches(s[i + 1..], quit) + OfEntry(s[i], Leaving(s[i].fd, leaves))
         == Dispatches(s[i..], quit + Leaving(s[i].fd, leaves))
    ensures ReadyCount(s[..i + 1]) == ReadyCount(s[..i]) + if s[i].Ready() then 1 else 0
    ensures forall k :: 0 <= k < i ==> s[k].fd != s[i].fd
    ensures s[..i + 1][..i] == s[..i]
  {
    NextEntry(s, i, quit, leaves);
    hide Dispatches, OfEntry;
    assert quit + {} == quit;
    assert s[..i + 1][..i] == s[..i];
  }

  lemma BelowIsOther(f: seq<PollFd>, i: nat, below: seq<PollFd>)
    requires DistinctFds(f) && i < |f| && below == f[..i]
    ensures forall k :: 0 <= k < i ==> below[k].fd != f[i].fd
  {
  }

  /** The calls for one more entry come behind those for the entries above it. */
  lemma NextEntry(s: seq<PollFd>, i: nat, quit: set<int>, leaves: bool)
    requires DistinctFds(s) && i < |s| && s[i].fd !in quit
    ensures Dispatches(s[i..], if leaves then quit + {s[i].fd} else quit)
         == Dispatches(s[i + 1..], quit) + OfEntry(s[i], if leaves then {s[i].fd} else {})
  {
    DropNext(s, i);
    if leaves { QuitElsewhere(s[i + 1..], quit, s[i].fd); }
  }

  /** The descriptor of slot i is in no slot below, and once only. */
  lemma SlotOf(f: seq<PollFd>, i: nat, j: nat, below: seq<PollFd>, entry: PollFd)
    requires DistinctFds(f) && i <= |f| && f[..i] == below && forall k :: 0 <= k < i ==> below[k].fd != entry.fd
    requires j < |f| && f[j].fd == entry.fd
    ensures i <= j
    ensures i < |f| && f[i] == entry ==> i == j
  {
    assert forall k :: 0 <= k < i ==> f[k] == below[k];
  }

  lemma DistinctOwnersNotNull(o: seq<Pollable?>)
    requires DistinctOwners(o)
    ensures forall k :: 0 <= k < |o| ==> o[k] != null
  {
  }

  lemma OwnerIsUnique(o: seq<Pollable?>, p: Pollable)
    requires DistinctOwners(o)
    ensures p in Owners(o) <==> exists k :: 0 <= k < |o| && o[k] == p
  {
  }

  lemma NotOwner(o: seq<Pollable?>, i: nat, p: Pollable)
    requires DistinctOwners(o) && i < |o| && o[i].fd == p.fd && o[i] != p
    ensures p !in Owners(o)
  {
  }

  lemma NoOwner(o: seq<Pollable?>, p: Pollable)
    requires DistinctOwners(o) && forall k :: 0 <= k < |o| ==> o[k].fd != p.fd
    ensures p !in Owners(o)
  {
  }
}
