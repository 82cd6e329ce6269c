/**
  The life of a downstream (server side) connection on a stream transport. A connection is in the
  busy queue until it is released, fails or times out, then in the destroy queue until a sweep
  frees it; the busy flag of a connection whose acceptance is still under way delays that. Steps
  are what runs under the stream's lock or between two yields of the accepting coroutine.
 */
module Downstream {
  import opened Options
  import opened Lists

  /** How far a get call that has not returned has come. */
  datatype Stage = Accepting | Failing

  datatype Conn = Conn(fd: Option<nat>, busy: bool, connectDeadline: int, ioDeadline: int)

  datatype State = State(
    conns: map<nat, Conn>,       // connections that have not been freed
    busyQueue: seq<nat>,
    destroyQueue: seq<nat>,
    calls: map<nat, Stage>,      // get calls that have not returned, by their connections
    accepts: seq<nat>,           // sockets accepted so far, in order
    closed: seq<nat>,            // sockets closed so far, in order
    freed: seq<nat>,             // connections freed so far, in order
    next: nat)                   // connection numbers and socket numbers from here on are unused

  const INIT := State(map[], [], [], map[], [], [], [], 0)

  datatype Net = Net(acceptTimeout: int, ioTimeout: int)

  datatype Event =
    | GetStart(now: int, accepted: bool)
    | GetSuccess(conn: nat, now: int)
    | GetFailure(conn: nat, now: int)
    | GetFailed(conn: nat)
    | Release(conn: nat)
    | Timeouts(now: int)
    | PendingDestroy

  // ----- the steps

  /** Closes the socket if it is open and moves the connection to the destroy queue. */
  function PrepareDestroy(s: State, c: nat): (t: State)
    requires c in s.conns
  {
    var x := s.conns[c];
    s.(conns := s.conns[c := x.(fd := None)],
       closed := if x.fd.Some? then s.closed + [x.fd.value] else s.closed,
       busyQueue := Without(s.busyQueue, c),
       destroyQueue := Without(s.destroyQueue, c) + [c])
  }

  /** Frees the connection unless it is busy. */
  function Destroy(s: State, c: nat): (t: State)
    requires c in s.conns
  {
    if s.conns[c].busy then s
    else s.(conns := s.conns - {c}, busyQueue := Without(s.busyQueue, c),
            destroyQueue := Without(s.destroyQueue, c), freed := s.freed + [c])
  }

  function Deadline(timeout: int, now: int, before: int): int { if timeout > 0 then now + timeout else before }

  predicate Expired(net: Net, x: Conn, now: int)
  {
    || (net.acceptTimeout > 0 && 0 < x.connectDeadline <= now)
    || (net.ioTimeout > 0 && 0 < x.ioDeadline <= now)
  }

  /** The timeout sweep over the connections `queue`. */
  function Sweep(s: State, queue: seq<nat>, net: Net, now: int): (t: State)
    requires forall c <- queue :: c in s.conns
    decreases |queue|
  {
    if queue == [] then s
    else Sweep(if Expired(net, s.conns[queue[0]], now) then PrepareDestroy(s, queue[0]) else s, queue[1..], net, now)
  }

  function DestroyAll(s: State, queue: seq<nat>): (t: State)
    requires NoDup(queue) && forall c <- queue :: c in s.conns
    decreases |queue|
  {
    if queue == [] then s
    else
      assert forall c <- queue[1..] :: c != queue[0];
      DestroyAll(Destroy(s, queue[0]), queue[1..])
  }

  /** A new connection; the socket, if the accept call gave one, gets the connection's number. */
  function Start(s: State, net: Net, now: int, accepted: bool): State
  {
    var x := Conn(if accepted then Some(s.next) else None, true, Deadline(net.acceptTimeout, now, -1), -1);
    s.(conns := s.conns[s.next := x], busyQueue := s.busyQueue + [s.next], calls := s.calls[s.next := Accepting],
       accepts := if accepted then s.accepts + [s.next] else s.accepts, next := s.next + 1)
  }

  function Succeed(s: State, c: nat, net: Net, now: int): State
    requires c in s.conns
  {
    var x := s.conns[c];
    s.(conns := s.conns[c := x.(busy := false, connectDeadline := -1,
                                ioDeadline := Deadline(net.ioTimeout, now, x.ioDeadline))],
       calls := s.calls - {c})
  }

  function Fail(s: State, c: nat, net: Net, now: int): State
    requires c in s.conns
  {
    var x := s.conns[c];
    PrepareDestroy(s.(conns := s.conns[c := x.(connectDeadline := Deadline(net.acceptTimeout, now, x.connectDeadline))],
                      calls := s.calls[c := Failing]), c)
  }

  function Unbusy(s: State, c: nat): State
    requires c in s.conns
  {
    s.(conns := s.conns[c := s.conns[c].(busy := false)], calls := s.calls - {c})
  }

  /** A call goes on where it was, and its owner releases a connection only before it is freed. */
  predicate Enabled(s: State, e: Event)
  {
    match e
    case GetSuccess(c, _) => c in s.calls && s.calls[c] == Accepting
    case GetFailure(c, _) => c in s.calls && s.calls[c] == Accepting
    case GetFailed(c) => c in s.calls && s.calls[c] == Failing
    case Release(c) => c in s.conns
    case _ => true
  }

  /** No connection that the step uses has been freed, and it frees none twice. */
  ghost predicate Safe(s: State, e: Event)
  {
    match e
    case GetStart(_, _) => true
    case GetSuccess(c, _) => c in s.conns
    case GetFailure(c, _) => c in s.conns
    case GetFailed(c) => c in s.conns
    case Release(c) => c in s.conns
    case Timeouts(_) => forall c <- s.busyQueue :: c in s.conns
    case PendingDestroy => NoDup(s.destroyQueue) && forall c <- s.destroyQueue :: c in s.conns
  }

  ghost function Step(s: State, e: Event, net: Net): (t: State)
    requires Enabled(s, e) && Safe(s, e)
  {
    match e
    case GetStart(now, accepted) => Start(s, net, now, accepted)
    case GetSuccess(c, now) => Succeed(s, c, net, now)
    case GetFailure(c, now) => Fail(s, c, net, now)
    case GetFailed(c) => Unbusy(s, c)
    case Release(c) => PrepareDestroy(s, c)
    case Timeouts(now) => Sweep(s, s.busyQueue, net, now)
    case PendingDestroy => DestroyAll(s, s.destroyQueue)
  }

  // ----- what every step keeps

  predicate InOneQueue(s: State, c: nat)
  {
    (c in s.busyQueue && c !in s.destroyQueue) || (c !in s.busyQueue && c in s.destroyQueue)
  }

  /** Every connection that is not freed is in exactly one of the queues, once. */
  ghost predicate Queued(s: State)
  {
    && NoDup(s.busyQueue) && NoDup(s.destroyQueue)
    && (forall c :: c in s.conns ==> InOneQueue(s, c))
    && (forall c :: c in s.busyQueue || c in s.destroyQueue ==> c in s.conns)
  }

  /** A socket has its connection's number; it is closed at most once; one that was accepted is
      closed or is still held by its connection, and then that one is in the busy queue. */
  ghost predicate Sockets(s: State)
  {
    && NoDup(s.closed)
    && (forall f :: f in s.closed ==> f in s.accepts)
    && (forall f :: f in s.accepts ==> f < s.next && (f in s.closed || (f in s.conns && s.conns[f].fd == Some(f))))
    && (forall c :: c in s.conns ==>
          && c < s.next
          && (s.conns[c].fd.Some? ==> s.conns[c].fd.value == c && c in s.accepts && c !in s.closed))
    && (forall c :: c in s.destroyQueue && c in s.conns ==> s.conns[c].fd.None?)
  }

  /** A connection is busy if and only if its get call has not returned, and then it is not freed. */
  ghost predicate Flags(s: State)
  {
    && (forall c :: c in s.conns ==> (s.conns[c].busy <==> c in s.calls))
    && (forall c :: c in s.calls ==> c in s.conns)
    && NoDup(s.freed)
    && (forall c :: c in s.freed ==> c < s.next && c !in s.conns)
  }

  ghost predicate Inv(s: State) { Queued(s) && Sockets(s) && Flags(s) }

  lemma WithoutAppend(q: seq<nat>, c: nat)
    requires NoDup(q)
    ensures NoDup(Without(q, c)) && c !in Without(q, c)
    ensures forall x :: x in Without(q, c) <==> x in q && x != c
  {
    hide Without;
    if c in q { WithoutNoDup(q, c); } else { WithoutAbsent(q, c); }
  }

  lemma {:induction false} WithoutAbsent(q: seq<nat>, c: nat)
    requires c !in q
    ensures Without(q, c) == q
  {
    if q != [] {
      assert q[0] in q;
      WithoutAbsent(q[1..], c);
    }
  }

  lemma PrepareKeeps(s: State, c: nat)
    requires Inv(s) && c in s.conns
    ensures Inv(PrepareDestroy(s, c))
  {
    hide Without, Queued, Sockets;
    PreparedQueues(s, c);
    PreparedSockets(s, c);
  }

  lemma PreparedQueues(s: State, c: nat)
    requires Queued(s) && c in s.conns
    ensures Queued(PrepareDestroy(s, c))
  {
    hide Without;
    WithoutAppend(s.busyQueue, c);
    WithoutAppend(s.destroyQueue, c);
  }

  lemma PreparedSockets(s: State, c: nat)
    requires Queued(s) && Sockets(s) && c in s.conns
    ensures Sockets(PrepareDestroy(s, c))
  {
    hide Without;
    WithoutAppend(s.destroyQueue, c);
  }

  lemma DestroyKeeps(s: State, c: nat)
    requires Inv(s) && c in s.destroyQueue
    ensures c in s.conns && Inv(Destroy(s, c))
  {
    hide Without;
    WithoutAppend(s.busyQueue, c);
    WithoutAppend(s.destroyQueue, c);
  }

  lemma StartKeeps(s: State, net: Net, now: int, accepted: bool)
    requires Inv(s)
    ensures Inv(Start(s, net, now, accepted))
  {
    var t := Start(s, net, now, accepted);
    assert s.next !in s.busyQueue && s.next !in s.destroyQueue;
    assert Queued(t);
  }

  /** Changing flags and deadlines of one connection touches neither queues nor sockets. */
  lemma TouchKeeps(s: State, c: nat, x: Conn, calls: map<nat, Stage>)
    requires Inv(s) && c in s.conns && x.fd == s.conns[c].fd && (x.busy <==> c in calls)
    requires forall d :: d != c ==> (d in calls <==> d in s.calls)
    ensures Inv(s.(conns := s.conns[c := x], calls := calls))
  {
  }

  lemma {:induction false} SweepKeeps(s: State, queue: seq<nat>, net: Net, now: int)
    requires Inv(s) && forall c <- queue :: c in s.conns
    ensures Inv(Sweep(s, queue, net, now))
    decreases |queue|
  {
    hide Inv, PrepareDestroy;
    if queue != [] {
      var c := queue[0];
      PrepareKeeps(s, c);
      SameConns(s, c);
      SweepKeeps(if Expired(net, s.conns[c], now) then PrepareDestroy(s, c) else s, queue[1..], net, now);
    }
  }

  lemma SameConns(s: State, c: nat)
    requires c in s.conns
    ensures PrepareDestroy(s, c).conns.Keys == s.conns.Keys
  {
  }

  lemma {:induction false} DestroyAllKeeps(s: State, queue: seq<nat>)
    requires Inv(s) && NoDup(queue) && forall c <- queue :: c in s.destroyQueue && c in s.conns
    ensures Inv(DestroyAll(s, queue))
    decreases |queue|
  {
    if queue != [] {
      var c := queue[0];
      assert forall d <- queue[1..] :: d != c;
      DestroyKeeps(s, c);
      OthersStay(s, c, queue[1..]);
      hide Inv, Destroy;
      DestroyAllKeeps(Destroy(s, c), queue[1..]);
    }
  }

  lemma OthersStay(s: State, c: nat, others: seq<nat>)
    requires Inv(s) && c in s.conns && NoDup(others)
    requires forall d <- others :: d != c && d in s.destroyQueue && d in s.conns
    ensures var t := Destroy(s, c); forall d <- others :: d in t.destroyQueue && d in t.conns
  {
    hide Without;
    WithoutAppend(s.destroyQueue, c);
  }

  lemma QueuesAllocated(s: State)
    requires Inv(s)
    ensures NoDup(s.destroyQueue) && NoDup(s.busyQueue)
    ensures (forall c <- s.busyQueue :: c in s.conns) && forall c <- s.destroyQueue :: c in s.conns
  {
  }

  /** Every step that the callers may take uses only connections that are not freed, and keeps the invariant. */
  lemma StepKeeps(s: State, e: Event, net: Net)
    requires Inv(s) && Enabled(s, e)
    ensures Safe(s, e)
    ensures Inv(Step(s, e, net))
  {
    hide Inv, Sweep, DestroyAll, PrepareDestroy, Queued, Sockets, Flags;
    QueuesAllocated(s);
    CallsAllocated(s);
    match e
    case GetStart(now, accepted) => StartKeeps(s, net, now, accepted);
    case GetSuccess(c, now) =>
      var t := Succeed(s, c, net, now);
      TouchKeeps(s, c, t.conns[c], t.calls);
    case GetFailure(c, now) =>
      var x := s.conns[c].(connectDeadline := Deadline(net.acceptTimeout, now, s.conns[c].connectDeadline));
      var calls := s.calls[c := Failing];
      TouchKeeps(s, c, x, calls);
      PrepareKeeps(s.(conns := s.conns[c := x], calls := calls), c);
    case GetFailed(c) =>
      var t := Unbusy(s, c);
      TouchKeeps(s, c, t.conns[c], t.calls);
    case Release(c) => PrepareKeeps(s, c);
    case Timeouts(now) => SweepKeeps(s, s.busyQueue, net, now);
    case PendingDestroy => DestroyAllKeeps(s, s.destroyQueue);
  }

  lemma CallsAllocated(s: State)
    requires Inv(s)
    ensures forall c :: c in s.calls ==> c in s.conns && s.conns[c].busy
  {
  }

  // ----- runs

  /** A run goes on, or ends with the use of a connection that was freed. */
  datatype Outcome = Alive(state: State) | Dangling

  /** What a run of steps that the callers may take leads to. */
  ghost predicate Reaches(s: State, events: seq<Event>, net: Net, r: Outcome)
    decreases |events|
  {
    if events == [] then r == Alive(s)
    else
      && Enabled(s, events[0])
      && if Safe(s, events[0]) then Reaches(Step(s, events[0], net), events[1..], net, r) else r == Dangling
  }

  lemma {:induction false} RunKeeps(s: State, events: seq<Event>, net: Net, r: Outcome)
    requires Inv(s) && Reaches(s, events, net, r)
    ensures r.Alive? && Inv(r.state)
    decreases |events|
  {
    hide Inv, Step;
    if events != [] {
      StepKeeps(s, events[0], net);
      RunKeeps(Step(s, events[0], net), events[1..], net, r);
    }
  }

  /** In every run: no step uses a connection that was freed; a connection that is not freed is in exactly
      one queue; one whose get call has not returned is not freed; no socket is closed twice; the socket
      of a freed connection, if it had one, has been closed; and no connection is freed twice. */
  lemma EveryRun(events: seq<Event>, net: Net, r: Outcome)
    requires Reaches(INIT, events, net, r)
    ensures r.Alive?
    ensures var s := r.state;
      && (forall c :: c in s.conns ==> InOneQueue(s, c))
      && (forall c :: c in s.calls ==> c in s.conns && c !in s.freed)
      && NoDup(s.busyQueue) && NoDup(s.destroyQueue) && NoDup(s.closed) && NoDup(s.freed)
      && (forall c :: c in s.freed ==> c !in s.conns && (c in s.accepts ==> c in s.closed))
      && (forall c :: c in s.destroyQueue && c in s.accepts ==> c in s.closed)
  {
    RunKeeps(INIT, events, net, r);
  }

  lemma {:induction false} DestroyAllSpares(s: State, queue: seq<nat>)
    requires NoDup(queue) && forall c <- queue :: c in s.conns
    ensures var t := DestroyAll(s, queue);
      && (forall c :: c in t.conns <==> c in s.conns && (c in queue ==> s.conns[c].busy))
      && (forall c :: c in t.conns ==> t.conns[c] == s.conns[c])
    decreases |queue|
  {
    if queue != [] {
      assert forall c <- queue[1..] :: c != queue[0];
      assert forall c :: c in queue <==> c == queue[0] || c in queue[1..];
      DestroyAllSpares(Destroy(s, queue[0]), queue[1..]);
    }
  }

  /** Only the sweep of the destroy queue frees, and it frees exactly what is there and not busy. */
  lemma FreesOnlyIdle(s: State, e: Event, net: Net)
    requires Inv(s) && Enabled(s, e)
    ensures Safe(s, e)
    ensures var t := Step(s, e, net);
      forall c :: c in s.conns ==> (c !in t.conns <==> e.PendingDestroy? && c in s.destroyQueue && !s.conns[c].busy)
  {
    hide DestroyAll, Sweep, Without;
    QueuesAllocated(s);
    CallsAllocated(s);
    match e
    case PendingDestroy => DestroyAllSpares(s, s.destroyQueue);
    case Timeouts(now) => SweepConns(s, s.busyQueue, net, now);
    case _ =>
  }

  lemma {:induction false} SweepConns(s: State, queue: seq<nat>, net: Net, now: int)
    requires forall c <- queue :: c in s.conns
    ensures Sweep(s, queue, net, now).conns.Keys == s.conns.Keys
    decreases |queue|
  {
    hide PrepareDestroy;
    if queue != [] {
      SameConns(s, queue[0]);
      SweepConns(if Expired(net, s.conns[queue[0]], now) then PrepareDestroy(s, queue[0]) else s, queue[1..], net, now);
    }
  }

  /** What a sweep does to one connection: an expired one in the queue leaves the busy queue, the
      deadlines of all stay. */
  lemma {:induction false} SweepEffect(s: State, queue: seq<nat>, net: Net, now: int, d: nat)
    requires Inv(s) && d in s.conns && forall c <- queue :: c in s.conns
    ensures var t := Sweep(s, queue, net, now);
      && d in t.conns
      && Expired(net, t.conns[d], now) == Expired(net, s.conns[d], now)
      && (d in t.busyQueue <==> d in s.busyQueue && !(d in queue && Expired(net, s.conns[d], now)))
    decreases |queue|
  {
    if queue != [] {
      var c := queue[0];
      var u := if Expired(net, s.conns[c], now) then PrepareDestroy(s, c) else s;
      PrepareKeeps(s, c);
      PrepareEffect(s, c, d);
      SameConns(s, c);
      hide Inv, PrepareDestroy, Expired;
      SweepEffect(u, queue[1..], net, now, d);
    }
  }

  lemma PrepareEffect(s: State, c: nat, d: nat)
    requires Inv(s) && c in s.conns && d in s.conns
    ensures var t := PrepareDestroy(s, c);
      && t.conns[d].connectDeadline == s.conns[d].connectDeadline && t.conns[d].ioDeadline == s.conns[d].ioDeadline
      && (d in t.busyQueue <==> d in s.busyQueue && d != c)
  {
    hide Without;
    WithoutAppend(s.busyQueue, c);
  }

  /** After a timeout sweep no expired connection is left in the busy queue, and the sweep moves
      no other connection. */
  lemma SweepClears(s: State, net: Net, now: int)
    requires Inv(s)
    ensures var t := Step(s, Timeouts(now), net);
      && (forall c <- t.busyQueue :: c in t.conns && !Expired(net, t.conns[c], now))
      && (forall c <- s.busyQueue :: c in s.conns && (!Expired(net, s.conns[c], now) ==> c in t.busyQueue))
  {
    hide Sweep, Expired;
    QueuesAllocated(s);
    var t := Step(s, Timeouts(now), net);
    StepKeeps(s, Timeouts(now), net);
    QueuesAllocated(t);
    SweepConns(s, s.busyQueue, net, now);
    forall c | c in s.conns
      ensures c in t.conns && Expired(net, t.conns[c], now) == Expired(net, s.conns[c], now)
      ensures c in t.busyQueue <==> c in s.busyQueue && !Expired(net, s.conns[c], now) {
      SweepEffect(s, s.busyQueue, net, now, c);
    }
  }

  /** A sweep takes a connection that is being accepted once the accept timeout has passed since the
      start, and one whose get has returned once the I/O timeout has passed since then, not before. */
  lemma KeptUntilDeadline(s: State, net: Net, c: nat, at: int, now: int, accepted: bool)
    requires Inv(s) && at > 0
    ensures Inv(Start(s, net, at, accepted))
    ensures s.next in Step(Start(s, net, at, accepted), Timeouts(now), net).busyQueue
            <==> !(0 < net.acceptTimeout <= now - at)
    ensures c in s.busyQueue && c in s.conns ==>
      && Inv(Succeed(s, c, net, at))
      && (c in Step(Succeed(s, c, net, at), Timeouts(now), net).busyQueue <==> !(0 < net.ioTimeout <= now - at))
  {
    hide Sweep, Inv;
    StartKeeps(s, net, at, accepted);
    var t := Start(s, net, at, accepted);
    QueuesAllocated(t);
    SweepEffect(t, t.busyQueue, net, now, s.next);
    if c in s.busyQueue && c in s.conns {
      var u := Succeed(s, c, net, at);
      TouchKeeps(s, c, u.conns[c], u.calls);
      QueuesAllocated(u);
      SweepEffect(u, u.busyQueue, net, now, c);
    }
  }

  // ----- the steps as the code runs them

  class Stream {
    const net: Net
    var conns: map<nat, Conn>
    var busyQueue: seq<nat>
    var destroyQueue: seq<nat>
    var calls: map<nat, Stage>
    var accepts: seq<nat>
    var closed: seq<nat>
    var freed: seq<nat>
    var next: nat

    ghost function View(): State
      reads this
    {
      State(conns, busyQueue, destroyQueue, calls, accepts, closed, freed, next)
    }

    constructor (net: Net)
      ensures View() == INIT && this.net == net
    {
      this.net := net;
      conns, busyQueue, destroyQueue, calls := map[], [], [], map[];
      accepts, closed, freed, next := [], [], [], 0;
    }

    method PrepareDestroyConn(c: nat)
      requires c in conns
      modifies this
      ensures View() == PrepareDestroy(old(View()), c)
    {
      hide Without;
      if conns[c].fd.Some? {
        closed := closed + [conns[c].fd.value];
        conns := conns[c := conns[c].(fd := None)];
      } else {
        assert conns == conns[c := conns[c].(fd := None)];
      }
      busyQueue := Without(busyQueue, c);
      destroyQueue := Without(destroyQueue, c);
      destroyQueue := destroyQueue + [c];
    }

    method DestroyConn(c: nat)
      requires c in conns
      modifies this
      ensures View() == Destroy(old(View()), c)
    {
      hide Without;
      if conns[c].busy {
        return;
      }
      busyQueue := Without(busyQueue, c);
      destroyQueue := Without(destroyQueue, c);
      conns := conns - {c};
      freed := freed + [c];
    }

    /** The beginning of a get call, up to the point where the handshake may yield. */
    method BeginGet(now: int, accepted: bool) returns (c: nat)
      requires Inv(View())
      modifies this
      ensures Inv(View()) && View() == Step(old(View()), GetStart(now, accepted), net)
      ensures c in conns && conns[c].busy
    {
      hide Inv, Queued, Sockets, Flags;
      StepKeeps(View(), GetStart(now, accepted), net);
      c := next;
      next := next + 1;
      conns, calls := conns[c := Conn(None, true, -1, -1)], calls[c := Accepting];
      busyQueue := busyQueue + [c];
      if net.acceptTimeout > 0 {
        conns := conns[c := conns[c].(connectDeadline := now + net.acceptTimeout)];
      }
      if accepted {
        accepts := accepts + [c];
        conns := conns[c := conns[c].(fd := Some(c))];
      }
      assert conns == Start(old(View()), net, now, accepted).conns;
    }

    /** The end of a get call whose acceptance succeeded. */
    method EndGet(c: nat, now: int)
      requires Inv(View()) && c in calls && calls[c] == Accepting
      modifies this
      ensures Inv(View()) && View() == Step(old(View()), GetSuccess(c, now), net)
    {
      hide Inv, Queued, Sockets, Flags;
      StepKeeps(View(), GetSuccess(c, now), net);
      var x := conns[c].(connectDeadline := -1);
      x := x.(busy := false);
      if net.ioTimeout > 0 {
        x := x.(ioDeadline := now + net.ioTimeout);
      }
      conns, calls := conns[c := x], calls - {c};
    }

    /** The end of a get call whose acceptance failed; other steps may come between the two halves. */
    method FailGet(c: nat, now: int)
      requires Inv(View()) && c in calls && calls[c] == Accepting
      modifies this
      ensures Inv(View()) && View() == Step(old(View()), GetFailure(c, now), net)
    {
      hide Inv, Queued, Sockets, Flags;
      StepKeeps(View(), GetFailure(c, now), net);
      var x := conns[c];
      if net.acceptTimeout > 0 {
        x := x.(connectDeadline := now + net.acceptTimeout);
      }
      conns, calls := conns[c := x], calls[c := Failing];
      PrepareDestroyConn(c);
    }

    method ClearBusy(c: nat)
      requires Inv(View()) && c in calls && calls[c] == Failing
      modifies this
      ensures Inv(View()) && View() == Step(old(View()), GetFailed(c), net)
    {
      hide Inv, Queued, Sockets, Flags;
      StepKeeps(View(), GetFailed(c), net);
      conns, calls := conns[c := conns[c].(busy := false)], calls - {c};
    }

    method ReleaseConn(c: nat)
      requires Inv(View()) && c in conns
      modifies this
      ensures Inv(View()) && View() == Step(old(View()), Release(c), net)
    {
      hide Inv, Queued, Sockets, Flags;
      StepKeeps(View(), Release(c), net);
      PrepareDestroyConn(c);
    }

    method ConnTimeouts(now: int)
      requires Inv(View())
      modifies this
      ensures Inv(View()) && View() == Step(old(View()), Timeouts(now), net)
    {
      hide Inv, Queued, Sockets, Flags;
      StepKeeps(View(), Timeouts(now), net);
      QueuesAllocated(View());
      var queue := busyQueue;
      assert queue[0..] == queue;
      for i := 0 to |queue|
        invariant forall c <- queue :: c in conns
        invariant Sweep(View(), queue[i..], net, now) == Sweep(old(View()), queue, net, now)
      {
        var c := queue[i];
        assert queue[i..][0] == c && queue[i..][1..] == queue[i + 1..];
        if Expired(net, conns[c], now) {
          SameConns(View(), c);
          PrepareDestroyConn(c);
        }
      }
    }

    method DestroyPending()
      requires Inv(View())
      modifies this
      ensures Inv(View()) && View() == Step(old(View()), PendingDestroy, net)
    {
      hide Inv, Queued, Sockets, Flags;
      StepKeeps(View(), PendingDestroy, net);
      QueuesAllocated(View());
      var queue := destroyQueue;
      assert queue[0..] == queue;
      for i := 0 to |queue|
        invariant forall j :: i <= j < |queue| ==> queue[j] in conns
        invariant DestroyAll(View(), queue[i..]) == DestroyAll(old(View()), queue)
      {
        var c := queue[i];
        assert queue[i..][0] == c && queue[i..][1..] == queue[i + 1..];
        DestroyConn(c);
      }
    }
  }
}
