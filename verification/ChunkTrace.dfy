/**
  Deferred destruction of chunk trace contexts. The input holds one current context; every trace
  holds the context it was created under; a context that is destroyed while it has traces is only
  marked, and goes with its last trace. All steps run under the input's lock, so a run is a
  sequence of steps. Addresses are numbers; a context is allocated while it is in `contexts`.
 */
module ChunkTrace {
  import opened Options

  datatype Context = Context(chunks: int, toDestroy: bool, traceCount: nat)

  datatype State = State(
    contexts: map<nat, Context>,   // allocated contexts
    freed: seq<nat>,               // freed contexts, in order
    current: Option<nat>,          // the context of the input
    traces: map<nat, nat>,         // live traces and their contexts
    pending: nat,                  // inputs that found tracing on and have not made their trace yet
    next: nat)                     // addresses from here on are unused

  const INIT := State(map[], [], None, map[], 0, 0)

  /** An input tests whether tracing is on, gives up the lock, and makes its trace with the lock again. */
  datatype Event = ContextNew | ContextDestroy | TraceTest | TraceNew | TraceDestroy(trace: nat)

  function LiveTraces(s: State, c: nat): set<nat> { set t | t in s.traces && s.traces[t] == c }

  /** What holds between any two steps. */
  ghost predicate Inv(s: State)
  {
    && (forall t :: t in s.traces ==> s.traces[t] in s.contexts && t < s.next)
    && (s.current.Some? ==> s.current.value in s.contexts)
    && (forall c :: c in s.contexts ==>
          && c < s.next
          && s.contexts[c].chunks == |LiveTraces(s, c)|
          && (s.contexts[c].toDestroy <==> s.current != Some(c))
          && (s.contexts[c].toDestroy ==> s.contexts[c].chunks > 0))
    && (forall i :: 0 <= i < |s.freed| ==> s.freed[i] < s.next && s.freed[i] !in s.contexts)
    && (forall i, j :: 0 <= i < j < |s.freed| ==> s.freed[i] != s.freed[j])
  }

  /** Marks a context that still has chunks, frees one that has none. */
  function FreeOrMark(s: State, c: nat): (t: State)
    requires c in s.contexts
  {
    if s.contexts[c].chunks > 0 then s.(contexts := s.contexts[c := s.contexts[c].(toDestroy := true)])
    else s.(contexts := s.contexts - {c}, freed := s.freed + [c])
  }

  /** What a step needs of its callers: the test has been made, the trace is alive. */
  predicate Enabled(s: State, e: Event)
  {
    match e
    case TraceNew => s.pending > 0
    case TraceDestroy(t) => t in s.traces
    case _ => true
  }

  /** No context that the step uses has been freed. */
  predicate NoneFreed(s: State, e: Event)
  {
    match e
    case TraceDestroy(t) => t in s.traces ==> s.traces[t] in s.contexts
    case _ => s.current.Some? ==> s.current.value in s.contexts
  }

  /** Nor is the input's context used when there is none, which making a trace does without a test. */
  predicate Safe(s: State, e: Event) { NoneFreed(s, e) && (e == TraceNew ==> s.current.Some?) }

  function Step(s: State, e: Event): (t: State)
    requires Enabled(s, e) && Safe(s, e)
  {
    match e
    case ContextNew =>
      var u := if s.current.Some? then FreeOrMark(s, s.current.value) else s;
      u.(contexts := u.contexts[u.next := Context(0, false, 0)], current := Some(u.next), next := u.next + 1)
    case ContextDestroy =>
      if s.current.Some? then FreeOrMark(s, s.current.value).(current := None) else s
    case TraceTest => if s.current.Some? then s.(pending := s.pending + 1) else s
    case TraceNew =>
      var c := s.current.value;
      var x := s.contexts[c];
      if x.toDestroy then s.(pending := s.pending - 1)
      else s.(pending := s.pending - 1,
              contexts := s.contexts[c := x.(chunks := x.chunks + 1, traceCount := x.traceCount + 1)],
              traces := s.traces[s.next := c], next := s.next + 1)
    case TraceDestroy(t) =>
      var c := s.traces[t];
      var x := s.contexts[c].(chunks := s.contexts[c].chunks - 1);
      var u := s.(contexts := s.contexts[c := x]);
      (if x.chunks <= 0 && x.toDestroy then FreeOrMark(u, c) else u).(traces := s.traces - {t})
  }

  // ----- each step keeps the invariant

  lemma FreeOrMarkCurrent(s: State)
    requires Inv(s) && s.current.Some?
    ensures Inv(FreeOrMark(s, s.current.value).(current := None))
  {
    var c := s.current.value;
    var t := FreeOrMark(s, c).(current := None);
    assert forall d :: LiveTraces(t, d) == LiveTraces(s, d);
    if s.contexts[c].chunks == 0 {
      forall x | x in s.traces ensures s.traces[x] != c {
        assert s.traces[x] == c ==> x in LiveTraces(s, c);
      }
    }
  }

  lemma NewContextKeeps(s: State)
    requires Inv(s) && s.current.None?
    ensures Inv(s.(contexts := s.contexts[s.next := Context(0, false, 0)], current := Some(s.next), next := s.next + 1))
  {
    var t := s.(contexts := s.contexts[s.next := Context(0, false, 0)], current := Some(s.next), next := s.next + 1);
    assert forall d :: LiveTraces(t, d) == LiveTraces(s, d);
    assert LiveTraces(s, s.next) == {};
  }

  lemma NewTraceKeeps(s: State)
    requires Inv(s) && s.current.Some? && s.pending > 0
    ensures Inv(Step(s, TraceNew))
  {
    var t, c := Step(s, TraceNew), s.current.value;
    OneMoreTrace(s, t, c);
    hide LiveTraces;
    forall d | d in t.contexts ensures t.contexts[d].chunks == |LiveTraces(t, d)| {
    }
  }

  lemma OneMoreTrace(s: State, t: State, c: nat)
    requires s.next !in s.traces && t.traces == s.traces[s.next := c]
    ensures |LiveTraces(t, c)| == |LiveTraces(s, c)| + 1
    ensures forall d :: d != c ==> LiveTraces(t, d) == LiveTraces(s, d)
  {
    assert LiveTraces(t, c) == LiveTraces(s, c) + {s.next} && s.next !in LiveTraces(s, c);
  }

  /** The trace is removed and its context has one chunk less. */
  function Released(s: State, t: nat): State
    requires t in s.traces && s.traces[t] in s.contexts
  {
    var c := s.traces[t];
    s.(contexts := s.contexts[c := s.contexts[c].(chunks := s.contexts[c].chunks - 1)], traces := s.traces - {t})
  }

  lemma ReleasedLive(s: State, t: nat, d: nat)
    requires Inv(s) && t in s.traces
    ensures LiveTraces(Released(s, t), d) == LiveTraces(s, d) - {t}
    ensures d == s.traces[t] ==> |LiveTraces(Released(s, t), d)| == |LiveTraces(s, d)| - 1
    ensures d != s.traces[t] ==> LiveTraces(Released(s, t), d) == LiveTraces(s, d)
  {
    assert LiveTraces(Released(s, t), d) == LiveTraces(s, d) - {t};
    if d == s.traces[t] { assert t in LiveTraces(s, d); }
  }

  lemma EndTraceKeeps(s: State, t: nat)
    requires Inv(s) && t in s.traces
    ensures Inv(Step(s, TraceDestroy(t)))
  {
    hide LiveTraces;
    var u, c, r := Step(s, TraceDestroy(t)), s.traces[t], Released(s, t);
    forall d ensures LiveTraces(u, d) == LiveTraces(r, d) {
      SameTraces(u, r, d);
    }
    forall d | d in s.contexts
      ensures |LiveTraces(r, d)| == s.contexts[d].chunks - (if d == c then 1 else 0) {
      ReleasedLive(s, t, d);
    }
    if c !in u.contexts {
      forall x | x in u.traces ensures u.traces[x] != c {
        if u.traces[x] == c { Counted(r, c, x); }
      }
    }
  }

  lemma SameTraces(s: State, r: State, d: nat)
    requires s.traces == r.traces
    ensures LiveTraces(s, d) == LiveTraces(r, d)
  {
  }

  lemma Counted(s: State, c: nat, t: nat)
    requires t in s.traces && s.traces[t] == c
    ensures |LiveTraces(s, c)| > 0
  {
    assert t in LiveTraces(s, c);
  }

  lemma UsesLive(s: State, e: Event)
    requires Inv(s)
    ensures NoneFreed(s, e)
  {
  }

  lemma TestKeeps(s: State)
    requires Inv(s)
    ensures Inv(s.(pending := s.pending + 1))
  {
    assert forall d :: LiveTraces(s.(pending := s.pending + 1), d) == LiveTraces(s, d);
  }

  /** Every step that the callers may take uses only contexts that are not freed and, unless it makes a
      trace while the input has no context, keeps the invariant. */
  lemma StepKeeps(s: State, e: Event)
    requires Inv(s) && Enabled(s, e)
    ensures NoneFreed(s, e)
    ensures Safe(s, e) ==> Inv(Step(s, e))
  {
    hide Inv, LiveTraces;
    UsesLive(s, e);
    match e
    case ContextNew =>
      if s.current.Some? {
        CurrentAllocated(s);
        FreeOrMarkCurrent(s);
        NewContextKeeps(FreeOrMark(s, s.current.value).(current := None));
      } else {
        NewContextKeeps(s);
      }
    case ContextDestroy => if s.current.Some? { FreeOrMarkCurrent(s); }
    case TraceTest => TestKeeps(s);
    case TraceNew => if s.current.Some? { NewTraceKeeps(s); }
    case TraceDestroy(t) => EndTraceKeeps(s, t);
  }

  lemma CurrentAllocated(s: State)
    requires Inv(s) && s.current.Some?
    ensures s.current.value in s.contexts
  {
  }

  // ----- runs

  /** A run goes on, or ends with the use of a context that was freed or of a missing one. */
  datatype Outcome = Alive(state: State) | Dangling | NullContext

  /** What a run of steps that the callers may take leads to. */
  ghost predicate Reaches(s: State, events: seq<Event>, r: Outcome)
    decreases |events|
  {
    if events == [] then r == Alive(s)
    else
      && Enabled(s, events[0])
      && if Safe(s, events[0]) then Reaches(Step(s, events[0]), events[1..], r)
         else r == if NoneFreed(s, events[0]) then NullContext else Dangling
  }

  /** Whether tracing is on after an event. */
  predicate OnAfter(on: bool, e: Event) { e == ContextNew || (on && e != ContextDestroy) }

  /** A trace is made while tracing is off: the context was destroyed after the test and not replaced. */
  predicate MadeWhileOff(on: bool, events: seq<Event>)
    decreases |events|
  {
    events != [] && ((events[0] == TraceNew && !on) || MadeWhileOff(OnAfter(on, events[0]), events[1..]))
  }

  lemma {:induction false} RunKeeps(s: State, events: seq<Event>, r: Outcome)
    requires Inv(s) && Reaches(s, events, r)
    ensures r != Dangling && (r == NullContext <==> MadeWhileOff(s.current.Some?, events))
    ensures r.Alive? ==> Inv(r.state)
    decreases |events|
  {
    if events != [] {
      StepKeeps(s, events[0]);
      if Safe(s, events[0]) {
        assert Step(s, events[0]).current.Some? == OnAfter(s.current.Some?, events[0]);
        hide Inv, Step;
        RunKeeps(Step(s, events[0]), events[1..], r);
      }
    }
  }

  /** In every run from the start: no step uses a context that was freed; one uses a missing context if and
      only if a trace is made while tracing is off. Otherwise `chunks` is the number of live traces of a
      context; the context of a live trace or of the input is not freed; no context is freed twice; an
      allocated context that is not the input's waits for its traces; and once the input has none and all
      traces are gone, everything has been freed. */
  lemma EveryRun(events: seq<Event>, r: Outcome)
    requires Reaches(INIT, events, r)
    ensures r != Dangling && (r == NullContext <==> MadeWhileOff(false, events))
    ensures r.Alive? ==>
      var s := r.state;
      && (forall c :: c in s.contexts ==> s.contexts[c].chunks == |LiveTraces(s, c)|)
      && (forall t :: t in s.traces ==> s.traces[t] in s.contexts && s.traces[t] !in s.freed)
      && (s.current.Some? ==> s.current.value in s.contexts && s.current.value !in s.freed)
      && (forall i, j :: 0 <= i < j < |s.freed| ==> s.freed[i] != s.freed[j])
      && (forall c :: c in s.contexts && s.current != Some(c) ==> s.contexts[c].toDestroy && LiveTraces(s, c) != {})
      && (s.current.None? && s.traces == map[] ==> s.contexts == map[])
  {
    RunKeeps(INIT, events, r);
    if r.Alive? {
      var s := r.state;
      if s.current.None? && s.traces == map[] {
        assert forall c :: LiveTraces(s, c) == {};
      }
    }
  }

  /** The shortest such run: the context is destroyed between the test and the trace. */
  lemma DestroyedBetween()
    ensures Reaches(INIT, [ContextNew, TraceTest, ContextDestroy, TraceNew], NullContext)
  {
    var events := [ContextNew, TraceTest, ContextDestroy, TraceNew];
    var a := Step(INIT, ContextNew);
    var b := Step(a, TraceTest);
    var c := Step(b, ContextDestroy);
    assert c.pending == 1 && c.current.None?;
    assert events[1..] == [TraceTest, ContextDestroy, TraceNew];
    assert events[1..][1..] == [ContextDestroy, TraceNew] && events[1..][1..][1..] == [TraceNew];
    assert Reaches(c, [TraceNew], NullContext);
    assert Reaches(b, [ContextDestroy, TraceNew], NullContext);
    assert Reaches(a, [TraceTest, ContextDestroy, TraceNew], NullContext);
  }

  /** A marked context is freed exactly when its last trace goes. */
  lemma LastTraceFrees(s: State, t: nat)
    requires Inv(s) && t in s.traces && s.contexts[s.traces[t]].toDestroy
    ensures var c, u := s.traces[t], Step(s, TraceDestroy(t));
      (c in u.freed <==> LiveTraces(s, c) == {t}) && (c in u.freed <==> c !in u.contexts)
  {
    var c := s.traces[t];
    assert t in LiveTraces(s, c);
    if |LiveTraces(s, c)| == 1 {
      assert |LiveTraces(s, c) - {t}| == 0;
    }
  }

  // ----- the steps as the code runs them

  /** What making a trace gives; with `NoContext` the code has followed a null pointer. */
  datatype Created = New(trace: nat) | Refused | NoContext

  /** The input with its lock held: contexts are changed in place, freed, and replaced. */
  class Input {
    var contexts: map<nat, Context>
    var freed: seq<nat>
    var current: Option<nat>
    var traces: map<nat, nat>
    var pending: nat
    var next: nat

    ghost function View(): State
      reads this
    {
      State(contexts, freed, current, traces, pending, next)
    }

    constructor ()
      ensures View() == INIT
    {
      contexts, freed, current, traces, pending, next := map[], [], None, map[], 0, 0;
    }

    method DestroyOrMark(c: nat)
      requires c in contexts
      modifies this`contexts, this`freed
      ensures View() == FreeOrMark(old(View()), c)
    {
      if contexts[c].chunks > 0 {
        contexts := contexts[c := contexts[c].(toDestroy := true)];
        return;
      }
      contexts := contexts - {c};
      freed := freed + [c];
    }

    method NewContext() returns (c: nat)
      requires Inv(View())
      modifies this
      ensures Inv(View()) && View() == Step(old(View()), ContextNew) && current == Some(c)
    {
      hide LiveTraces;
      StepKeeps(View(), ContextNew);
      if current.Some? {
        DestroyOrMark(current.value);
      }
      c := next;
      next := next + 1;
      contexts := contexts[c := Context(0, false, 0)];
      current := Some(c);
    }

    method DestroyContext()
      requires Inv(View())
      modifies this
      ensures Inv(View()) && View() == Step(old(View()), ContextDestroy)
    {
      hide LiveTraces;
      StepKeeps(View(), ContextDestroy);
      if current.Some? {
        DestroyOrMark(current.value);
        current := None;
      }
    }

    /** Whether tracing is on; the lock is given up before the trace is made. */
    method TestTracing() returns (on: bool)
      requires Inv(View())
      modifies this
      ensures Inv(View()) && View() == Step(old(View()), TraceTest) && on == current.Some?
    {
      hide LiveTraces;
      StepKeeps(View(), TraceTest);
      on := current.Some?;
      if on {
        pending := pending + 1;
      }
    }

    /** Never refused: the input's own context is never one that waits to be destroyed. But there is no
        test whether it has one, and without one the code follows the null pointer. */
    method NewTrace() returns (t: Created)
      requires Inv(View()) && pending > 0
      modifies this
      ensures t == NoContext <==> old(current).None?
      ensures t == NoContext ==> View() == old(View())
      ensures t != NoContext ==> Inv(View()) && View() == Step(old(View()), TraceNew)
      ensures t != NoContext ==> t.New? && t.trace in traces && Some(traces[t.trace]) == current
    {
      hide LiveTraces;
      if current.None? {
        return NoContext;
      }
      StepKeeps(View(), TraceNew);
      var c := current.value;
      pending := pending - 1;
      if contexts[c].toDestroy {
        return Refused;
      }
      t := New(next);
      traces := traces[next := c];
      next := next + 1;
      contexts := contexts[c := contexts[c].(chunks := contexts[c].chunks + 1)];
      contexts := contexts[c := contexts[c].(traceCount := contexts[c].traceCount + 1)];
      assert contexts == Step(old(View()), TraceNew).contexts;
    }

    method DestroyTrace(t: nat)
      requires Inv(View()) && t in traces
      modifies this
      ensures Inv(View()) && View() == Step(old(View()), TraceDestroy(t))
    {
      hide LiveTraces;
      StepKeeps(View(), TraceDestroy(t));
      var c := traces[t];
      contexts := contexts[c := contexts[c].(chunks := contexts[c].chunks - 1)];
      if contexts[c].chunks <= 0 && contexts[c].toDestroy {
        DestroyOrMark(c);
      }
      traces := traces - {t};
    }
  }
}
