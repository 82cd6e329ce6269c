/**
  What each step does to the connection it is about and to all others, and what becomes of a connection that
  is given up: whatever happens in between, its socket is closed at once and it is freed by the first sweep
  of the destroy queue after its get call has returned.
 */
module DownstreamEffects {
  import opened Options
  import opened Lists
  import opened Downstream

  /** Nothing changed for any connection but `c`. */
  ghost predicate OthersSame(s: State, t: State, c: nat)
  {
    && (forall d :: d != c ==> (d in t.conns <==> d in s.conns))
    && (forall d :: d != c && d in s.conns && d in t.conns ==> t.conns[d] == s.conns[d])
    && (forall d :: d != c ==> (d in t.busyQueue <==> d in s.busyQueue))
    && (forall d :: d != c ==> (d in t.destroyQueue <==> d in s.destroyQueue))
    && (forall d :: d != c ==> (d in t.calls <==> d in s.calls))
    && (forall d :: d != c && d in s.calls && d in t.calls ==> t.calls[d] == s.calls[d])
    && (forall f :: f != c ==> (f in t.accepts <==> f in s.accepts) && (f in t.closed <==> f in s.closed))
    && (forall d :: d != c ==> (d in t.freed <==> d in s.freed))
  }

  /** Given up: in the destroy queue only, and its socket, if it ever had one, is closed. */
  ghost predicate GivenUp(t: State, c: nat)
  {
    && c in t.conns && c in t.destroyQueue && c !in t.busyQueue && t.conns[c].fd.None?
    && (c in t.accepts ==> c in t.closed)
  }

  lemma Prepared(s: State, c: nat)
    requires Inv(s) && c in s.conns
    ensures var t := PrepareDestroy(s, c);
      && OthersSame(s, t, c) && GivenUp(t, c) && t.accepts == s.accepts
      && t.conns[c] == s.conns[c].(fd := None) && t.calls == s.calls && t.freed == s.freed
  {
    hide Without, Inv;
    PreparedQueue(s, c);
    PreparedSocket(s, c);
  }

  lemma PreparedQueue(s: State, c: nat)
    requires Inv(s) && c in s.conns
    ensures var t := PrepareDestroy(s, c);
      && c in t.destroyQueue && c !in t.busyQueue
      && (forall d :: d != c ==> (d in t.busyQueue <==> d in s.busyQueue))
      && (forall d :: d != c ==> (d in t.destroyQueue <==> d in s.destroyQueue))
  {
    hide Without, Sockets, Flags;
    WithoutAppend(s.busyQueue, c);
    WithoutAppend(s.destroyQueue, c);
  }

  lemma PreparedSocket(s: State, c: nat)
    requires Inv(s) && c in s.conns
    ensures var t := PrepareDestroy(s, c);
      && (c in t.accepts ==> c in t.closed) && (forall f :: f != c ==> (f in t.closed <==> f in s.closed))
  {
    hide Without, Queued, Flags;
  }

  /** A released connection is given up; its get call, if it has not returned, goes on. */
  lemma ReleaseGivesUp(s: State, c: nat, net: Net)
    requires Inv(s) && c in s.conns
    ensures var t := Step(s, Release(c), net);
      && GivenUp(t, c) && OthersSame(s, t, c) && t.accepts == s.accepts
      && t.conns[c] == s.conns[c].(fd := None) && t.calls == s.calls && t.freed == s.freed
  {
    Prepared(s, c);
  }

  /** So is one whose acceptance failed; its get call has one more step to do. */
  lemma FailureGivesUp(s: State, c: nat, now: int, net: Net)
    requires Inv(s) && Enabled(s, GetFailure(c, now))
    ensures c in s.conns
    ensures var t := Step(s, GetFailure(c, now), net);
      && GivenUp(t, c) && OthersSame(s, t, c) && t.accepts == s.accepts
      && t.conns[c].busy && c in t.calls && t.calls[c] == Failing && t.freed == s.freed
      && t.conns[c].connectDeadline
         == (if net.acceptTimeout > 0 then now + net.acceptTimeout else s.conns[c].connectDeadline)
  {
    hide PrepareDestroy, Inv;
    CallsAllocated(s);
    var x := s.conns[c].(connectDeadline := Deadline(net.acceptTimeout, now, s.conns[c].connectDeadline));
    var u := s.(conns := s.conns[c := x], calls := s.calls[c := Failing]);
    TouchKeeps(s, c, x, u.calls);
    Prepared(u, c);
  }

  /** A get call begins with a new connection, in the busy queue, that holds the socket if there is one. */
  lemma StartAdds(s: State, now: int, accepted: bool, net: Net)
    requires Inv(s)
    ensures var t, c := Step(s, GetStart(now, accepted), net), s.next;
      && OthersSame(s, t, c) && c !in s.conns && t.next == c + 1
      && c in t.conns && t.conns[c].busy && t.conns[c].fd == (if accepted then Some(c) else None)
      && c in t.busyQueue && c !in t.destroyQueue && c in t.calls && t.calls[c] == Accepting
      && (c in t.accepts <==> accepted) && c !in t.closed && t.conns[c].ioDeadline == -1
      && t.conns[c].connectDeadline == (if net.acceptTimeout > 0 then now + net.acceptTimeout else -1)
  {
  }

  /** With success the call has returned, and the connection stays where it is with its socket. */
  lemma SuccessReturns(s: State, c: nat, now: int, net: Net)
    requires Inv(s) && Enabled(s, GetSuccess(c, now))
    ensures c in s.conns
    ensures var t := Step(s, GetSuccess(c, now), net);
      && OthersSame(s, t, c) && c !in t.calls && !t.conns[c].busy && t.conns[c].fd == s.conns[c].fd
      && t.conns[c].connectDeadline == -1
      && t.conns[c].ioDeadline == (if net.ioTimeout > 0 then now + net.ioTimeout else s.conns[c].ioDeadline)
      && t.busyQueue == s.busyQueue && t.destroyQueue == s.destroyQueue && t.closed == s.closed && t.freed == s.freed
  {
    CallsAllocated(s);
  }

  /** So has it with the last step of a failure. */
  lemma FailureReturns(s: State, c: nat, net: Net)
    requires Inv(s) && Enabled(s, GetFailed(c))
    ensures c in s.conns
    ensures var t := Step(s, GetFailed(c), net);
      && OthersSame(s, t, c) && c !in t.calls && t.conns[c] == s.conns[c].(busy := false)
      && t.busyQueue == s.busyQueue && t.destroyQueue == s.destroyQueue && t.closed == s.closed && t.freed == s.freed
  {
    CallsAllocated(s);
  }

  // ----- the sweeps

  /** The timeout sweep gives up the expired connections, and does nothing to the others. */
  lemma {:induction false} SweepGivesUp(s: State, queue: seq<nat>, net: Net, now: int, d: nat)
    requires Inv(s) && d in s.conns && forall c <- queue :: c in s.conns
    ensures var t := Sweep(s, queue, net, now);
      && d in t.conns && t.calls == s.calls && t.freed == s.freed
      && (if d in queue && Expired(net, s.conns[d], now) then
            GivenUp(t, d) && t.conns[d] == s.conns[d].(fd := None)
          else t.conns[d] == s.conns[d] && (GivenUp(t, d) <==> GivenUp(s, d)))
    decreases |queue|
  {
    if queue != [] {
      var c := queue[0];
      var u := if Expired(net, s.conns[c], now) then PrepareDestroy(s, c) else s;
      PrepareKeeps(s, c);
      Prepared(s, c);
      SameConns(s, c);
      PreparedAgain(s, c, d);
      hide Inv, PrepareDestroy, GivenUp;
      SweepGivesUp(u, queue[1..], net, now, d);
    }
  }

  lemma PreparedAgain(s: State, c: nat, d: nat)
    requires Inv(s) && c in s.conns && d in s.conns
    ensures d in PrepareDestroy(s, c).conns
    ensures d != c ==> (GivenUp(PrepareDestroy(s, c), d) <==> GivenUp(s, d))
    ensures forall net, now :: Expired(net, PrepareDestroy(s, c).conns[c], now) <==> Expired(net, s.conns[c], now)
    ensures GivenUp(s, d) ==> s.conns[d].(fd := None) == s.conns[d]
  {
    hide PrepareDestroy;
    Prepared(s, c);
  }

  /** In particular the sweep over the whole busy queue. */
  lemma TimeoutsGiveUp(s: State, now: int, net: Net, d: nat)
    requires Inv(s) && d in s.conns
    ensures var t := Step(s, Timeouts(now), net);
      && d in t.conns && t.calls == s.calls && t.freed == s.freed
      && (if d in s.busyQueue && Expired(net, s.conns[d], now) then
            GivenUp(t, d) && t.conns[d] == s.conns[d].(fd := None)
          else t.conns[d] == s.conns[d] && (GivenUp(t, d) <==> GivenUp(s, d)))
  {
    QueuesAllocated(s);
    hide Inv, Sweep, GivenUp, Expired;
    SweepGivesUp(s, s.busyQueue, net, now, d);
  }

  lemma {:induction false} DestroyAllFrees(s: State, queue: seq<nat>, d: nat)
    requires Inv(s) && NoDup(queue) && forall c <- queue :: c in s.destroyQueue && c in s.conns
    ensures var t := DestroyAll(s, queue);
      && (d in t.freed <==> d in s.freed || (d in queue && !s.conns[d].busy))
      && (d in t.destroyQueue <==> d in s.destroyQueue && (d in queue ==> s.conns[d].busy))
      && (d in t.busyQueue ==> d in s.busyQueue) && t.accepts == s.accepts && t.closed == s.closed && t.calls == s.calls
    decreases |queue|
  {
    if queue != [] {
      var c := queue[0];
      assert forall d <- queue[1..] :: d != c;
      DestroyKeeps(s, c);
      OthersStay(s, c, queue[1..]);
      DestroyEffect(s, c);
      hide Inv, Destroy;
      DestroyAllFrees(Destroy(s, c), queue[1..], d);
    }
  }

  lemma DestroyEffect(s: State, c: nat)
    requires Inv(s) && c in s.conns
    ensures var t := Destroy(s, c);
      && (forall d :: d in t.freed <==> d in s.freed || (d == c && !s.conns[c].busy))
      && (forall d :: d in t.destroyQueue <==> d in s.destroyQueue && (d == c ==> s.conns[c].busy))
      && (forall d :: d in t.busyQueue ==> d in s.busyQueue)
      && (forall d :: d != c && d in s.conns ==> d in t.conns && t.conns[d] == s.conns[d])
      && t.accepts == s.accepts && t.closed == s.closed && t.calls == s.calls
  {
    hide Without;
    WithoutAppend(s.busyQueue, c);
    WithoutAppend(s.destroyQueue, c);
  }

  // ----- what becomes of a connection that is given up

  /** The sweep of the destroy queue frees it if its get call has returned, and leaves it there otherwise. */
  lemma SweptWhenReturned(s: State, c: nat, net: Net)
    requires Inv(s) && GivenUp(s, c)
    ensures var t := Step(s, PendingDestroy, net);
      if c in s.calls then GivenUp(t, c) && c in t.calls && c !in t.freed else c !in t.conns && c in t.freed
  {
    hide DestroyAll;
    QueuesAllocated(s);
    DestroyAllSpares(s, s.destroyQueue);
    DestroyAllFrees(s, s.destroyQueue, c);
  }

  /** No other step frees it or takes it back. */
  lemma StaysGivenUp(s: State, e: Event, net: Net, c: nat)
    requires Inv(s) && Enabled(s, e) && GivenUp(s, c) && !e.PendingDestroy?
    ensures Safe(s, e) && GivenUp(Step(s, e, net), c)
  {
    hide PrepareDestroy, Sweep, Queued, Sockets, Flags;
    StepKeeps(s, e, net);
    match e
    case GetStart(now, accepted) => StartAdds(s, now, accepted, net); Numbered(s);
    case GetSuccess(d, now) => SuccessReturns(s, d, now, net);
    case GetFailure(d, now) => FailureGivesUp(s, d, now, net);
    case GetFailed(d) => FailureReturns(s, d, net);
    case Release(d) => Prepared(s, d);
    case Timeouts(now) => TimeoutsGiveUp(s, now, net, c);
  }

  lemma Numbered(s: State)
    requires Inv(s)
    ensures s.next !in s.conns
  {
  }

  /** Whatever happens after a connection was given up: it stays given up until a sweep of the destroy queue
      that comes after the return of its get call, and the first such sweep frees it. */
  lemma {:induction false} GivenUpIsFreed(s: State, c: nat, events: seq<Event>, net: Net, t: State)
    requires Inv(s) && GivenUp(s, c) && Reaches(s, events, net, Alive(t))
    ensures Inv(t)
    ensures if c in t.conns then GivenUp(t, c) else c in t.freed
    ensures c in t.conns && c !in t.calls ==>
      var u := Step(t, PendingDestroy, net); c !in u.conns && c in u.freed
    decreases |events|
  {
    hide Inv, GivenUp, Step;
    if events == [] {
      StillThere(s, c);
      SweptWhenReturned(s, c, net);
      StepKeeps(s, PendingDestroy, net);
    } else {
      var e := events[0];
      StepKeeps(s, e, net);
      var u := Step(s, e, net);
      if e.PendingDestroy? { SweptWhenReturned(s, c, net); } else { StaysGivenUp(s, e, net, c); }
      if GivenUp(u, c) {
        GivenUpIsFreed(u, c, events[1..], net, t);
      } else {
        FreedStays(u, c, events[1..], net, t);
      }
    }
  }

  lemma StillThere(s: State, c: nat)
    requires GivenUp(s, c)
    ensures c in s.conns
  {
  }

  /** What is freed stays freed. */
  lemma {:induction false} FreedStays(s: State, c: nat, events: seq<Event>, net: Net, t: State)
    requires Inv(s) && c in s.freed && Reaches(s, events, net, Alive(t))
    ensures Inv(t) && c in t.freed && c !in t.conns
    decreases |events|
  {
    if events != [] {
      StepKeeps(s, events[0], net);
      FreedStep(s, c, events[0], net);
      hide Inv, Step;
      FreedStays(Step(s, events[0], net), c, events[1..], net, t);
    }
  }

  lemma FreedStep(s: State, c: nat, e: Event, net: Net)
    requires Inv(s) && Enabled(s, e) && c in s.freed
    ensures Safe(s, e) && c in Step(s, e, net).freed
  {
    hide Sweep, DestroyAll, Without;
    QueuesAllocated(s);
    CallsAllocated(s);
    match e
    case Timeouts(now) => SweepFreed(s, s.busyQueue, net, now);
    case PendingDestroy => DestroyAllFrees(s, s.destroyQueue, c);
    case _ =>
  }

  lemma {:induction false} SweepFreed(s: State, queue: seq<nat>, net: Net, now: int)
    requires forall c <- queue :: c in s.conns
    ensures Sweep(s, queue, net, now).freed == s.freed
    decreases |queue|
  {
    if queue != [] {
      SameConns(s, queue[0]);
      SweepFreed(if Expired(net, s.conns[queue[0]], now) then PrepareDestroy(s, queue[0]) else s, queue[1..], net, now);
    }
  }

  /** So every connection that is released is freed by the first sweep of the destroy queue after the return of
      its get call, and its socket, if it had one, has been closed by then. */
  lemma ReleasedIsFreed(s: State, c: nat, events: seq<Event>, net: Net, t: State)
    requires Inv(s) && c in s.conns && Reaches(Step(s, Release(c), net), events, net, Alive(t))
    ensures c in t.accepts ==> c in t.closed
    ensures Inv(t) && (c !in t.calls ==> var u := Step(t, PendingDestroy, net); c !in u.conns && c in u.freed)
  {
    hide Inv, Step, GivenUp;
    StepKeeps(s, Release(c), net);
    ReleaseGivesUp(s, c, net);
    GivenUpIsFreed(Step(s, Release(c), net), c, events, net, t);
    SocketClosed(t, c);
    if c !in t.conns {
      StepKeeps(t, PendingDestroy, net);
      FreedStep(t, c, PendingDestroy, net);
      FreedGone(Step(t, PendingDestroy, net), c);
    }
  }

  lemma SocketClosed(t: State, c: nat)
    requires Inv(t)
    ensures GivenUp(t, c) || c !in t.conns ==> c in t.accepts ==> c in t.closed
  {
  }

  lemma FreedGone(s: State, c: nat)
    requires Inv(s) && c in s.freed
    ensures c !in s.conns
  {
  }
}
