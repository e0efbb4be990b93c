/** One RPC over a poll server (socket.cc): a connecting socket that hands its
    descriptor to a connected one, and two callbacks that are to be used up. */
module RpcSockets {
  import opened Sequences
  import opened PollServers

  /** A callback is usable until it is deleted; a one-shot one deletes itself when
      it runs. Using it later would be undefined. */
  class Callback {
    const repeatable: bool
    var usable: bool
    var runs: nat
    var argument: string

    constructor (repeatable: bool)
      ensures usable && runs == 0 && this.repeatable == repeatable
    {
      this.repeatable := repeatable;
      usable, runs, argument := true, 0, "";
    }

    predicate Fresh()
      reads this
    {
      usable && runs == 0
    }

    /** Used up without having run. */
    predicate Discarded()
      reads this
    {
      !usable && runs == 0
    }

    /** Used up by its only run. */
    predicate Consumed()
      reads this
    {
      !usable && runs == 1
    }

    /** Run once; only a repeatable callback is still there. */
    predicate RanOnce()
      reads this
    {
      runs == 1 && usable == repeatable
    }

    method Run(argument: string)
      requires usable
      modifies this
      ensures runs == old(runs) + 1 && usable == repeatable && this.argument == argument
    {
      runs, usable := runs + 1, repeatable;
      this.argument := argument;
    }

    method Delete()
      requires usable
      modifies this
      ensures !usable && runs == old(runs)
    {
      usable := false;
    }
  }

  /** A one-shot done callback and an error callback that nothing has used yet; there may
      be no error callback, and it may be repeatable. */
  ghost predicate Pending(done: Callback, error: Callback?)
    reads done, error
  {
    && done.Fresh() && !done.repeatable
    && (error != null ==> error != done && error.Fresh())
  }

  /** RPCSocket::HandleError */
  method HandleError(done: Callback, error: Callback?)
    requires Pending(done, error)
    modifies done, error
    ensures done.Discarded() && (error != null ==> error.RanOnce())
  {
    done.Delete();
    if error != null {
      error.Run("");
    }
  }

  /** What connect() says about a non-blocking connection. */
  datatype Connection = Established | InProgress | Refused

  /** How the last recv() of a read event ends. */
  datatype Received = Closed | WouldBlock | Failed

  ghost predicate MayUnregister(ps: PollServer, p: Pollable)
    reads ps, ps.fds, ps.pollables
  {
    ps.Valid() && (ps.currentFd == -1 || ps.currentFd == p.fd)
  }

  /** The socket that waits for its connection. Its bound callbacks hand both
      callbacks of the RPC on, so it holds them itself here. */
  class ClientSocket {
    const pollable: Pollable
    const command: string
    const done: Callback
    const error: Callback?

    ghost predicate Valid()
      reads done, error
    {
      Pending(done, error) && pollable.fd != -1
    }

    /** The constructor registers the new socket. */
    constructor (fd: int, ps: PollServer, command: string, done: Callback, error: Callback?)
      requires ps.Valid() && fd != -1 && Pending(done, error)
      modifies ps, ps.fds, ps.pollables
      ensures Valid() && this.done == done && this.error == error && this.command == command
      ensures ps.Valid() && ps.currentFd == old(ps.currentFd)
      ensures fresh(pollable) && pollable.fd == fd
      ensures ps.Registered() == Taken(old(ps.Registered()), pollable)
      ensures ps.fds == old(ps.fds) || fresh(ps.fds)
      ensures ps.pollables == old(ps.pollables) || fresh(ps.pollables)
    {
      var p := new Pollable(fd);
      pollable := p;
      this.command, this.done, this.error := command, done, error;
      new;
      ps.Register(p);
    }

    /** Destroys the socket once the connection's fate is known. */
    method HandleWrite(ps: PollServer, c: Connection) returns (rpc: RpcSocket?)
      requires Valid() && MayUnregister(ps, pollable)
      modifies ps, ps.fds, ps.pollables, done, error
      ensures ps.Valid() && ps.currentFd == old(ps.currentFd)
      ensures ps.fds == old(ps.fds) || fresh(ps.fds)
      ensures ps.pollables == old(ps.pollables) || fresh(ps.pollables)
      ensures c.InProgress? ==> rpc == null && Valid() && ps.Registered() == old(ps.Registered())
      ensures c.Refused? ==>
                && rpc == null && done.Discarded() && (error != null ==> error.RanOnce())
                && ps.Registered() == old(ps.Registered()) - {pollable}
      ensures c.Established? ==>
                && rpc != null && fresh(rpc) && rpc.Valid() && rpc.done == done && rpc.open
                && done.Fresh() && (error != null ==> error.Discarded())
                && rpc.pollable != pollable && rpc.pollable.fd == pollable.fd
                && rpc.inbuf == "" && rpc.outbuf == command
                && ps.Registered() == Taken(old(ps.Registered()), rpc.pollable)
                && pollable !in ps.Registered() && rpc.pollable in ps.Registered()
    {
      hide PollServer.Valid, PollServer.Registered;
      rpc := null;
      if c.Established? {
        // The connected callback: RPCSocket::Create.
        if error != null {
          error.Delete();
        }
        rpc := new RpcSocket(pollable.fd, ps, command, done);
        // ~Pollable: the descriptor has a new owner by now.
        var alive, removed := ps.Unregister(pollable);
      } else if c.Refused? {
        // Close(), the error callback, and ~Pollable.
        var alive, removed := ps.Unregister(pollable);
        HandleError(done, error);
        alive, removed := ps.Unregister(pollable);
      }
    }
  }

  /** The connected socket: sends the command, collects the answer until the other
      side disconnects. */
  class RpcSocket {
    const pollable: Pollable
    const done: Callback
    var inbuf: string
    var outbuf: string
    var open: bool

    // Everything received and sent so far.
    ghost var received: string
    ghost var sent: string

    ghost predicate Valid()
      reads this
    {
      inbuf == received && pollable.fd != -1
    }

    constructor (fd: int, ps: PollServer, command: string, done: Callback)
      requires ps.Valid() && fd != -1
      modifies ps, ps.fds, ps.pollables
      ensures Valid() && open && this.done == done && inbuf == "" && outbuf == command && sent == ""
      ensures ps.Valid() && ps.currentFd == old(ps.currentFd)
      ensures fresh(pollable) && pollable.fd == fd
      ensures ps.Registered() == Taken(old(ps.Registered()), pollable)
      ensures ps.fds == old(ps.fds) || fresh(ps.fds)
      ensures ps.pollables == old(ps.pollables) || fresh(ps.pollables)
    {
      var p := new Pollable(fd);
      pollable := p;
      this.done := done;
      inbuf, outbuf, open := "", command, true;
      received, sent := "", "";
      new;
      ps.Register(p);
    }

    /** Appends what recv() delivers; when the other side has closed, the done
        callback gets everything ever received, and the socket destroys itself. */
    method HandleRead(ps: PollServer, chunks: seq<string>, end: Received)
      requires Valid() && open && MayUnregister(ps, pollable) && pollable in ps.Registered()
      requires done.Fresh() && !done.repeatable
      modifies this, done, ps, ps.fds, ps.pollables
      ensures Valid() && ps.Valid() && ps.currentFd == old(ps.currentFd)
      ensures ps.fds == old(ps.fds) && ps.pollables == old(ps.pollables)
      ensures received == old(received) + Concat(chunks) && outbuf == old(outbuf) && sent == old(sent)
      ensures open <==> !end.Closed?
      ensures open ==> done.Fresh() && ps.Registered() == old(ps.Registered())
      ensures !open ==> done.Consumed() && done.argument == received && ps.Registered() == old(ps.Registered()) - {pollable}
    {
      hide PollServer.Valid, PollServer.Registered;
      var i := 0;
      TakeAll(chunks);
      assert chunks[..0] == [];
      while i < |chunks|
        modifies this
        invariant 0 <= i <= |chunks| && inbuf == received == old(received) + Concat(chunks[..i])
        invariant outbuf == old(outbuf) && sent == old(sent) && open
      {
        ConcatNext(chunks, i);
        inbuf, received := inbuf + chunks[i], received + chunks[i];
        i := i + 1;
      }
      if end.Closed? {
        var alive, removed := ps.Unregister(pollable);
        // HandleDisconnected, then Close() in the destructor.
        done.Run(inbuf);
        alive, removed := ps.Unregister(pollable);
        open := false;
      }
      // HandleReceived is false for an RPC socket: the input is kept.
    }

    /** Writes as long as write() takes something; `wrote(k)` is what its k-th call
        returns, never more than it was given. Nothing is lost or sent twice. */
    method HandleWrite(wrote: nat -> int)
      requires Valid() && open
      modifies this`outbuf, this`sent
      ensures Valid() && sent + outbuf == old(sent) + old(outbuf)
      ensures old(sent) <= sent
      ensures old(outbuf) != "" && wrote(0) > 0 ==> sent != old(sent)
    {
      var towrite, totalwrote, calls := |outbuf|, 0, 0;
      while towrite > 0
        invariant 0 <= totalwrote && totalwrote + towrite == |outbuf| && 0 <= towrite
        invariant calls > 0 ==> totalwrote > 0
        invariant calls == 0 ==> totalwrote == 0
      {
        var w := wrote(calls);
        if w <= 0 {
          break;
        }
        w := if w > towrite then towrite else w;
        calls := calls + 1;
        totalwrote := totalwrote + w;
        towrite := towrite - w;
      }
      assert outbuf == outbuf[..totalwrote] + outbuf[totalwrote..];
      Associative(sent, outbuf[..totalwrote], outbuf[totalwrote..]);
      sent := sent + outbuf[..totalwrote];
      outbuf := outbuf[totalwrote..];
    }
  }

  function Concat(chunks: seq<string>): string {
    if chunks == [] then "" else Concat(chunks[..|chunks| - 1]) + chunks[|chunks| - 1]
  }

  lemma ConcatNext(chunks: seq<string>, i: nat)
    requires i < |chunks|
    ensures forall s: string :: s + Concat(chunks[..i + 1]) == (s + Concat(chunks[..i])) + chunks[i]
  {
    assert chunks[..i + 1][..i] == chunks[..i];
    forall s: string {
      Associative(s, Concat(chunks[..i]), chunks[i]);
    }
  }

  /** RPCSocket::PerformRPC; `fd` is None when the address cannot be resolved. A
      repeatable done callback is refused; the error callback is then left alone. */
  method PerformRPC(ps: PollServer, fd: Descriptor, command: string, done: Callback, error: Callback?)
    returns (client: ClientSocket?)
    requires ps.Valid() && done.Fresh() && (error != null ==> error != done && error.Fresh())
    requires fd.Resolved? ==> fd.fd != -1
    modifies ps, ps.fds, ps.pollables, done, error
    ensures ps.Valid() && ps.currentFd == old(ps.currentFd)
    ensures ps.fds == old(ps.fds) || fresh(ps.fds)
    ensures ps.pollables == old(ps.pollables) || fresh(ps.pollables)
    ensures done.repeatable ==> client == null && done.Discarded() && (error != null ==> error.Fresh())
    ensures !done.repeatable && fd.Unresolved? ==> client == null && done.Discarded() && (error != null ==> error.RanOnce())
    ensures !done.repeatable && fd.Resolved? ==>
              && client != null && fresh(client) && fresh(client.pollable) && client.Valid()
              && client.done == done && client.error == error && client.command == command && client.pollable.fd == fd.fd
              && ps.Registered() == Taken(old(ps.Registered()), client.pollable)
    ensures client == null ==> ps.Registered() == old(ps.Registered())
  {
    client := null;
    if done.repeatable {
      done.Delete();
    } else if fd.Unresolved? {
      HandleError(done, error);
    } else {
      client := new ClientSocket(fd.fd, ps, command, done, error);
    }
  }

  datatype Descriptor = Resolved(fd: int) | Unresolved

  /** What the poll loop reports for the RPC's descriptor, and what others do to the
      server in between. */
  datatype Event =
    | Writable(c: Connection, wrote: nat -> int)
    | Readable(chunks: seq<string>, end: Received)
    | Other(a: Action)

  /** The action is about another descriptor. */
  predicate Elsewhere(a: Action, fd: int) {
    Open(a) && a.p.fd != fd
  }

  /** The owners that the others' actions leave. */
  ghost function OthersAfter(owners: set<Pollable?>, events: seq<Event>): set<Pollable?> {
    if events == [] then owners
    else
      var before, last := OthersAfter(owners, events[..|events| - 1]), events[|events| - 1];
      if last.Other? then Effect(before, last.a) else before
  }

  /** All that is settled once an RPC is over: exactly one callback ran, once, and
      both are used up, but for a repeatable error callback that ran. */
  ghost predicate Settled(done: Callback, error: Callback?)
    reads done, error
  {
    || (done.Consumed() && (error != null ==> error.Discarded()))
    || (done.Discarded() && (error != null ==> error.RanOnce()))
  }

  /** None of these owners has the descriptor. */
  predicate Apart(owners: set<Pollable?>, fd: int) {
    forall q :: q in owners && q != null ==> q.fd != fd
  }

  /** The loop enters or leaves the handlers of a descriptor. */
  method SetCurrent(ps: PollServer, fd: int)
    requires ps.Valid()
    modifies ps`currentFd
    ensures ps.Valid() && ps.currentFd == fd && ps.Registered() == old(ps.Registered())
  {
    ps.currentFd := fd;
  }

  /** The descriptor has one owner beside the others. */
  ghost predicate Owned(ps: PollServer, others: set<Pollable?>, own: Pollable)
    requires ps.Valid()
    reads ps, ps.fds, ps.pollables
  {
    Apart(others, own.fd) && own !in others && ps.Registered() == others + {own}
  }

  /** Another pollable comes or goes; the descriptor keeps its owner. */
  method Act(ps: PollServer, a: Action, ghost own: Pollable, ghost others: set<Pollable?>) returns (ghost after: set<Pollable?>)
    requires ps.Valid() && ps.currentFd == -1 && Elsewhere(a, own.fd) && Owned(ps, others, own)
    modifies ps, ps.fds, ps.pollables
    ensures ps.Valid() && ps.currentFd == -1 && Owned(ps, after, own)
    ensures ps.fds == old(ps.fds) || fresh(ps.fds)
    ensures ps.pollables == old(ps.pollables) || fresh(ps.pollables)
    ensures after == Effect(others, a)
  {
    hide Taken, Apart, PollServer.Valid, PollServer.Registered;
    after := Effect(others, a);
    OtherActs(others, own, a);
    match a {
      case Register(p) => ps.Register(p);
      case Unregister(p) => var alive, removed := ps.Unregister(p);
    }
  }

  /** The poll loop reports the connecting socket as writable. */
  method Connecting(ps: PollServer, client: ClientSocket, c: Connection, ghost others: set<Pollable?>)
    returns (rpc: RpcSocket?, over: bool)
    requires ps.Valid() && ps.currentFd == -1 && client.Valid() && Owned(ps, others, client.pollable)
    modifies ps, ps.fds, ps.pollables, client.done, client.error
    ensures ps.Valid() && ps.currentFd == -1
    ensures ps.fds == old(ps.fds) || fresh(ps.fds)
    ensures ps.pollables == old(ps.pollables) || fresh(ps.pollables)
    ensures over ==> Settled(client.done, client.error) && ps.Registered() == others && Apart(others, client.pollable.fd)
    ensures !over && rpc == null ==> client.Valid() && Owned(ps, others, client.pollable)
    ensures !over && rpc != null ==>
              && fresh(rpc) && rpc.Valid() && rpc.open && rpc.done == client.done && rpc.pollable.fd == client.pollable.fd
              && client.done.Fresh() && (client.error != null ==> client.error.Discarded()) && Owned(ps, others, rpc.pollable)
  {
    hide Taken, Apart, PollServer.Valid, PollServer.Registered;
    var own := client.pollable;
    SetCurrent(ps, own.fd);
    rpc := client.HandleWrite(ps, c);
    SetCurrent(ps, -1);
    over := c.Refused?;
    if over {
      assert others + {own} - {own} == others;
    } else if rpc != null {
      TakenOver(others, own, rpc.pollable);
    }
  }

  /** The poll loop reports the connected socket as readable. */
  method Answering(ps: PollServer, rpc: RpcSocket, chunks: seq<string>, end: Received, ghost others: set<Pollable?>)
    returns (over: bool)
    requires ps.Valid() && ps.currentFd == -1 && rpc.Valid() && rpc.open && Owned(ps, others, rpc.pollable)
    requires rpc.done.Fresh() && !rpc.done.repeatable
    modifies rpc, rpc.done, ps, ps.fds, ps.pollables
    ensures ps.Valid() && ps.currentFd == -1 && rpc.Valid()
    ensures ps.fds == old(ps.fds) && ps.pollables == old(ps.pollables)
    ensures over ==> rpc.done.Consumed() && ps.Registered() == others && Apart(others, rpc.pollable.fd)
    ensures !over ==> rpc.open && rpc.done.Fresh() && Owned(ps, others, rpc.pollable)
  {
    hide Taken, Apart, PollServer.Valid, PollServer.Registered;
    SetCurrent(ps, rpc.pollable.fd);
    rpc.HandleRead(ps, chunks, end);
    SetCurrent(ps, -1);
    over := !rpc.open;
    assert others + {rpc.pollable} - {rpc.pollable} == others;
  }

  /** A whole RPC, under any sequence of events, with other pollables coming and going in
      between; n events have been used. When it is over it is settled and owns no descriptor,
      and the others are as they have left it; until then done has not run, and the
      descriptor has exactly one owner beside the others. */
  method RunRpc(ps: PollServer, fd: Descriptor, command: string, done: Callback, error: Callback?, events: seq<Event>)
    returns (over: bool, n: nat)
    requires ps.Valid() && ps.currentFd == -1 && Pending(done, error)
    requires fd.Resolved? ==> fd.fd != -1 && Apart(ps.Registered(), fd.fd)
    requires fd.Resolved? ==> forall e :: e in events && e.Other? ==> Elsewhere(e.a, fd.fd)
    modifies ps, ps.fds, ps.pollables, done, error
    ensures ps.Valid() && ps.currentFd == -1 && n <= |events| && (!over ==> n == |events|)
    ensures over ==> Settled(done, error) && ps.Registered() == OthersAfter(old(ps.Registered()), events[..n])
    ensures over && fd.Resolved? ==> Apart(ps.Registered(), fd.fd)
    ensures !over ==> done.Fresh() && (error != null ==> error.runs == 0)
    ensures !over ==> fd.Resolved? && exists own: Pollable ::
              own.fd == fd.fd && own !in OthersAfter(old(ps.Registered()), events)
              && ps.Registered() == OthersAfter(old(ps.Registered()), events) + {own}
    ensures done.Consumed() ==> over
  {
    hide Taken, Apart, Settled, Owned, Elsewhere, PollServer.Valid, PollServer.Registered, OthersAfter;
    ghost var owners := ps.Registered();
    var client := PerformRPC(ps, fd, command, done, error);
    OthersNone(owners, events);
    if client == null {
      SettledByFailure(done, error);
      return true, 0;
    }
    TakenNew(owners, client.pollable);
    OwnedBy(ps, owners, client.pollable);
    over, n := HandleEvents(ps, client, events, owners);
  }

  /** The events from the registration of the connecting socket on. */
  method HandleEvents(ps: PollServer, client: ClientSocket, events: seq<Event>, ghost owners: set<Pollable?>)
    returns (over: bool, n: nat)
    requires ps.Valid() && ps.currentFd == -1 && client.Valid() && Owned(ps, owners, client.pollable)
    requires forall e :: e in events && e.Other? ==> Elsewhere(e.a, client.pollable.fd)
    modifies ps, ps.fds, ps.pollables, client.done, client.error
    ensures ps.Valid() && ps.currentFd == -1 && n <= |events| && (!over ==> n == |events|)
    ensures over ==> Settled(client.done, client.error) && ps.Registered() == OthersAfter(owners, events[..n])
    ensures over ==> Apart(ps.Registered(), client.pollable.fd)
    ensures !over ==> client.done.Fresh() && (client.error != null ==> client.error.runs == 0)
    ensures !over ==> exists own: Pollable ::
              own.fd == client.pollable.fd && own !in OthersAfter(owners, events)
              && ps.Registered() == OthersAfter(owners, events) + {own}
    ensures client.done.Consumed() ==> over
  {
    hide Taken, Apart, Settled, Owned, Elsewhere, Effect, PollServer.Valid, PollServer.Registered, OthersAfter, RpcSocket.Valid;
    var done, error := client.done, client.error;
    n := 0;
    OthersNone(owners, events);
    ghost var own, others := client.pollable, owners;
    var rpc: RpcSocket? := null;
    while n < |events|
      invariant 0 <= n <= |events| && ps.Valid() && ps.currentFd == -1
      invariant ps.fds == old(ps.fds) || fresh(ps.fds)
      invariant ps.pollables == old(ps.pollables) || fresh(ps.pollables)
      invariant rpc == null ==> client.Valid() && own == client.pollable
      invariant rpc != null ==> rpc.Valid() && rpc.open && rpc.done == done && fresh(rpc) && done.Fresh() && own == rpc.pollable
      invariant rpc != null ==> !done.repeatable && (error != null ==> error.Discarded())
      invariant others == OthersAfter(owners, events[..n]) && own.fd == client.pollable.fd && Owned(ps, others, own)
    {
      OthersNext(owners, events, n);
      match events[n] {
        case Writable(c, wrote) =>
          if rpc != null {
            rpc.HandleWrite(wrote);
          } else {
            rpc, over := Connecting(ps, client, c, others);
            if over {
              return true, n + 1;
            }
            own := if rpc != null then rpc.pollable else own;
          }
        case Readable(chunks, end) =>
          // The connecting socket reads nothing.
          if rpc != null {
            over := Answering(ps, rpc, chunks, end, others);
            if over {
              SettledByAnswer(done, error);
              return true, n + 1;
            }
          }
        case Other(a) =>
          others := Act(ps, a, own, others);
      }
      n := n + 1;
    }
    assert events[..n] == events;
    OwnedMeans(ps, others, own);
    over := false;
  }

  lemma OwnedBy(ps: PollServer, others: set<Pollable?>, own: Pollable)
    requires ps.Valid() && Apart(others, own.fd) && own !in others && ps.Registered() == others + {own}
    ensures Owned(ps, others, own)
  {
  }

  lemma OwnedMeans(ps: PollServer, others: set<Pollable?>, own: Pollable)
    requires ps.Valid() && Owned(ps, others, own)
    ensures Apart(others, own.fd) && own !in others && ps.Registered() == others + {own}
  {
  }

  lemma SettledByFailure(done: Callback, error: Callback?)
    requires done.Discarded() && (error != null ==> error.RanOnce())
    ensures Settled(done, error)
  {
  }

  lemma SettledByAnswer(done: Callback, error: Callback?)
    requires done.Consumed() && (error != null ==> error.Discarded())
    ensures Settled(done, error)
  {
  }

  lemma OthersNone(owners: set<Pollable?>, events: seq<Event>)
    ensures OthersAfter(owners, events[..0]) == owners
  {
  }

  lemma OthersNext(owners: set<Pollable?>, events: seq<Event>, n: nat)
    requires n < |events|
    ensures var before := OthersAfter(owners, events[..n]);
      OthersAfter(owners, events[..n + 1])
      == if events[n].Other? then Effect(before, events[n].a) else before
  {
    assert events[..n + 1][..n] == events[..n];
  }

  /** Others come and go beside the owner of the descriptor. */
  lemma OtherActs(others: set<Pollable?>, own: Pollable, a: Action)
    requires Elsewhere(a, own.fd) && own !in others && Apart(others, own.fd)
    ensures var after := Effect(others, a);
      own !in after && Apart(after, own.fd) && Effect(others + {own}, a) == after + {own}
  {
  }

  lemma TakenNew(owners: set<Pollable?>, p: Pollable)
    requires Apart(owners, p.fd)
    ensures Taken(owners, p) == owners + {p} && p !in owners
  {
  }

  lemma TakenOver(owners: set<Pollable?>, old0: Pollable, p: Pollable)
    requires Apart(owners, p.fd) && old0.fd == p.fd
    ensures Taken(owners + {old0}, p) == owners + {p} && p !in owners
  {
  }
}
