/**
  What the steps on chunk traces do, told by traces and by the input's context alone: a context is allocated
  if and only if it is the input's or some live trace holds it. So each step says which traces and which
  contexts come and go, and over a run they can be counted.
 */
module ChunkTraceEffects {
  import opened Options
  import opened ChunkTrace

  ghost predicate Held(s: State, c: nat) { s.current == Some(c) || exists t :: t in s.traces && s.traces[t] == c }

  /** Allocated means in use. */
  lemma AllocatedIfHeld(s: State, c: nat)
    requires Inv(s)
    ensures c in s.contexts <==> Held(s, c)
  {
    if c in s.contexts && s.current != Some(c) {
      assert |LiveTraces(s, c)| > 0;
      var t :| t in LiveTraces(s, c);
    }
  }

  /** The end of a trace: it is gone, all others stay, and its context goes if and only if nothing holds it any
      more. */
  lemma TraceEnds(s: State, t: nat)
    requires Inv(s) && t in s.traces
    ensures var u, c := Step(s, TraceDestroy(t)), s.traces[t];
      && u.traces == s.traces - {t} && u.current == s.current && u.pending == s.pending
      && (c in u.contexts <==> s.current == Some(c) || LiveTraces(s, c) != {t})
      && (c in u.contexts ==> u.contexts[c] == s.contexts[c].(chunks := s.contexts[c].chunks - 1))
      && u.freed == (if c in u.contexts then s.freed else s.freed + [c])
      && (forall d :: d != c ==> (d in u.contexts <==> d in s.contexts))
      && (forall d :: d != c && d in s.contexts ==> u.contexts[d] == s.contexts[d])
  {
    var c := s.traces[t];
    assert t in LiveTraces(s, c);
    OneLeft(LiveTraces(s, c), t);
  }

  lemma OneLeft(live: set<nat>, t: nat)
    requires t in live
    ensures |live| == 1 <==> live == {t}
  {
    if |live| == 1 { assert |live - {t}| == 0; }
  }

  /** The start of a trace: a new one that holds the input's context, and nothing else changes. */
  lemma TraceBegins(s: State)
    requires Inv(s) && s.pending > 0 && s.current.Some?
    ensures var u, c := Step(s, TraceNew), s.current.value;
      && s.next !in s.traces && u.traces == s.traces[s.next := c] && u.current == s.current && u.freed == s.freed
      && u.pending == s.pending - 1 && u.contexts.Keys == s.contexts.Keys
      && u.contexts[c].chunks == s.contexts[c].chunks + 1
      && u.contexts[c].traceCount == s.contexts[c].traceCount + 1
      && forall d :: d != c && d in s.contexts ==> u.contexts[d] == s.contexts[d]
  {
  }

  /** A new context for the input: the one before it goes if and only if no trace holds it. */
  lemma ContextBegins(s: State)
    requires Inv(s)
    ensures var u := Step(s, ContextNew);
      && u.current == Some(s.next) && s.next !in s.contexts && s.next !in s.freed
      && u.traces == s.traces && u.pending == s.pending && u.contexts[s.next] == Context(0, false, 0)
      && (forall c :: c in s.contexts ==> (c in u.contexts <==> s.current != Some(c) || LiveTraces(s, c) != {}))
      && u.freed == (if s.current.Some? && s.current.value !in u.contexts then s.freed + [s.current.value] else s.freed)
  {
  }

  lemma ContextEnds(s: State)
    requires Inv(s)
    ensures var u := Step(s, ContextDestroy);
      && u.current == None && u.traces == s.traces && u.pending == s.pending
      && (forall c :: c in s.contexts ==> (c in u.contexts <==> s.current != Some(c) || LiveTraces(s, c) != {}))
      && (forall c :: c in u.contexts ==> c in s.contexts)
      && u.freed == (if s.current.Some? && s.current.value !in u.contexts then s.freed + [s.current.value] else s.freed)
  {
  }

  // ----- counting

  function Count(e: Event, events: seq<Event>): nat
  {
    if events == [] then 0 else (if events[0] == e then 1 else 0) + Count(e, events[1..])
  }

  function Ended(events: seq<Event>): nat
  {
    if events == [] then 0 else (if events[0].TraceDestroy? then 1 else 0) + Ended(events[1..])
  }

  /** In every run: the traces that were made and have not ended are alive, and the contexts that were made are
      allocated or freed. */
  lemma {:induction false} RunCounts(s: State, events: seq<Event>, t: State)
    requires Inv(s) && Reaches(s, events, Alive(t))
    ensures |t.traces| + Ended(events) == |s.traces| + Count(TraceNew, events)
    ensures |t.contexts| + |t.freed| == |s.contexts| + |s.freed| + Count(ContextNew, events)
    decreases |events|
  {
    if events != [] {
      StepKeeps(s, events[0]);
      StepCounts(s, events[0]);
      hide Inv, Step;
      RunCounts(Step(s, events[0]), events[1..], t);
    }
  }

  lemma StepCounts(s: State, e: Event)
    requires Inv(s) && Enabled(s, e) && Safe(s, e)
    ensures var u := Step(s, e);
      && |u.traces| + (if e.TraceDestroy? then 1 else 0) == |s.traces| + (if e == TraceNew then 1 else 0)
      && |u.contexts| + |u.freed| == |s.contexts| + |s.freed| + if e == ContextNew then 1 else 0
  {
    hide Inv, LiveTraces;
    match e
    case ContextNew =>
      if s.current.Some? { HandedOver(s); }
      CurrentLess(s);
      ContextAdded(if s.current.Some? then FreeOrMark(s, s.current.value) else s);
    case ContextDestroy => if s.current.Some? { HandedOver(s); }
    case TraceTest =>
    case TraceNew => TraceAdded(s);
    case TraceDestroy(t) => TraceRemoved(s, t);
  }

  lemma Resized<T>(m: map<nat, T>, n: map<nat, T>, k: nat)
    ensures m.Keys == n.Keys ==> |m| == |n|
    ensures k in m && n.Keys == m.Keys - {k} ==> |n| == |m| - 1
    ensures k !in m && n.Keys == m.Keys + {k} ==> |n| == |m| + 1
  {
    assert |m| == |m.Keys| && |n| == |n.Keys|;
  }

  /** Freed or marked, the contexts and the freed ones together are as many as before. */
  lemma HandedOver(s: State)
    requires s.current.Some? && s.current.value in s.contexts
    ensures var u := FreeOrMark(s, s.current.value);
      |u.contexts| + |u.freed| == |s.contexts| + |s.freed| && u.traces == s.traces && u.next == s.next
  {
    var c := s.current.value;
    Resized(s.contexts, FreeOrMark(s, c).contexts, c);
  }

  lemma CurrentLess(s: State)
    requires Inv(s)
    ensures s.next !in s.contexts
    ensures s.current.Some? ==> s.current.value in s.contexts && s.next !in FreeOrMark(s, s.current.value).contexts
  {
  }

  lemma ContextAdded(s: State)
    requires s.next !in s.contexts
    ensures |s.contexts[s.next := Context(0, false, 0)]| == |s.contexts| + 1
  {
    Resized(s.contexts, s.contexts[s.next := Context(0, false, 0)], s.next);
  }

  lemma TraceAdded(s: State)
    requires Inv(s) && s.pending > 0 && s.current.Some?
    ensures var u := Step(s, TraceNew);
      |u.traces| == |s.traces| + 1 && |u.contexts| == |s.contexts| && u.freed == s.freed
  {
    TraceBegins(s);
    var u := Step(s, TraceNew);
    Resized(s.traces, u.traces, s.next);
    Resized(s.contexts, u.contexts, s.next);
  }

  lemma TraceRemoved(s: State, t: nat)
    requires Inv(s) && t in s.traces
    ensures var u := Step(s, TraceDestroy(t));
      |u.traces| == |s.traces| - 1 && |u.contexts| + |u.freed| == |s.contexts| + |s.freed|
  {
    TraceEnds(s, t);
    var u, c := Step(s, TraceDestroy(t)), s.traces[t];
    hide Step, Inv;
    Resized(s.traces, u.traces, t);
    assert u.contexts.Keys == if c in u.contexts then s.contexts.Keys else s.contexts.Keys - {c};
    Resized(s.contexts, u.contexts, c);
  }

  /** From the start: what is alive is what was made and has not ended. */
  lemma Counts(events: seq<Event>, t: State)
    requires Reaches(INIT, events, Alive(t))
    ensures |t.traces| == Count(TraceNew, events) - Ended(events)
    ensures |t.contexts| == Count(ContextNew, events) - |t.freed|
  {
    RunCounts(INIT, events, t);
  }
}
