/**
 * The two state hooks of src/helpers/WidgetInstance.ts. Both wrap an object
 * in an observable membrane whose `valueMutated` callback the library calls
 * once per reported mutation; the library itself is not part of this model,
 * only that callback's behaviour is. `useState` calls `onChange` on every
 * mutation; `useDebouncedState` keeps one timer handle in a closure variable,
 * clears it and sets a new one on every mutation, so `onChange` runs once per
 * burst of mutations that is followed by `delay` quiet time.
 */
module Membrane {
  import opened Wrappers

  /** What the membrane reports about the wrapped object. */
  datatype Access = Observed(key: string) | Mutated(key: string)

  /** The positions of a report sequence that are mutations. */
  ghost function MutationIndices(accesses: seq<Access>): set<int> {
    set i | 0 <= i < |accesses| && accesses[i].Mutated?
  }

  /** `useState`: how often `onChange` has run after the membrane reported `accesses`. */
  function StateCalls(accesses: seq<Access>): (n: nat)
    ensures n == |MutationIndices(accesses)|
  {
    if accesses == [] then 0
    else
      var init := accesses[..|accesses| - 1];
      var n := StateCalls(init);
      var last := accesses[|accesses| - 1];
      if last.Mutated? then
        assert MutationIndices(accesses) == MutationIndices(init) + {|init|};
        n + 1
      else
        assert MutationIndices(accesses) == MutationIndices(init);
        n
  }

  /** A timer the page has scheduled: its handle and the time it is due. */
  datatype Timer = Timer(handle: nat, due: int)

  /**
   * The state behind one `useDebouncedState`: the closure's `timer` variable,
   * the timers of this closure still scheduled, the next handle `setTimeout`
   * hands out, and how often `onChange` has run.
   */
  datatype Debounce = Debounce(timer: Option<nat>, queue: seq<Timer>, nextHandle: nat, calls: nat)

  /** Browsers hand out timer handles from 1 up, so a set handle is always truthy. */
  const Start: Debounce := Debounce(None, [], 1, 0)

  /** `setTimeout` treats a negative delay as zero. */
  function Clamp(delay: int): nat {
    if delay < 0 then 0 else delay
  }

  /** At most one timer of this closure is scheduled, and the closure holds its handle. */
  ghost predicate Inv(m: Debounce) {
    && 1 <= m.nextHandle
    && |m.queue| <= 1
    && (m.queue != [] ==> m.timer == Some(m.queue[0].handle) && m.queue[0].handle < m.nextHandle)
    && (m.timer.Some? ==> m.timer.value < m.nextHandle)
  }

  /** `clearTimeout(handle)`: the scheduled timers without that handle. */
  function Cancel(queue: seq<Timer>, handle: nat): (r: seq<Timer>)
    ensures forall t :: t in r <==> t in queue && t.handle != handle
    ensures |r| <= |queue|
  {
    if queue == [] then []
    else if queue[0].handle == handle then Cancel(queue[1..], handle)
    else [queue[0]] + Cancel(queue[1..], handle)
  }

  /** The timers that are due at time `now`. */
  function Expired(queue: seq<Timer>, now: int): (r: seq<Timer>)
    ensures forall t :: t in r <==> t in queue && t.due <= now
    ensures |r| <= |queue|
  {
    if queue == [] then []
    else (if queue[0].due <= now then [queue[0]] else []) + Expired(queue[1..], now)
  }

  /** The timers still waiting at time `now`. */
  function Waiting(queue: seq<Timer>, now: int): (r: seq<Timer>)
    ensures forall t :: t in r <==> t in queue && now < t.due
    ensures |r| + |Expired(queue, now)| == |queue|
  {
    if queue == [] then []
    else (if now < queue[0].due then [queue[0]] else []) + Waiting(queue[1..], now)
  }

  /** `valueMutated` at time `now`: clear the held timer, then set a fresh one. */
  function Write(m: Debounce, delay: int, now: int): (r: Debounce)
    requires Inv(m)
    ensures Inv(r)
    ensures r.calls == m.calls
    ensures r.queue == [Timer(m.nextHandle, now + Clamp(delay))]
  {
    var queue := if m.timer.Some? then Cancel(m.queue, m.timer.value) else m.queue;
    assert queue == [];
    Debounce(Some(m.nextHandle), queue + [Timer(m.nextHandle, now + Clamp(delay))], m.nextHandle + 1, m.calls)
  }

  /**
   * The event loop reaches time `now`: every due timer runs `onChange` once
   * and leaves the queue. The closure's `timer` keeps its stale handle.
   */
  function Tick(m: Debounce, now: int): (r: Debounce)
    requires Inv(m)
    ensures Inv(r)
    ensures r.calls == m.calls + (if m.queue != [] && m.queue[0].due <= now then 1 else 0)
    ensures r.queue == (if m.queue != [] && m.queue[0].due <= now then [] else m.queue)
  {
    var fired := Expired(m.queue, now);
    var rest := Waiting(m.queue, now);
    assert m.queue != [] ==> m.queue == [m.queue[0]];
    assert m.queue != [] && m.queue[0].due <= now ==> fired == m.queue && rest == [];
    assert !(m.queue != [] && m.queue[0].due <= now) ==> fired == [] && rest == m.queue;
    Debounce(m.timer, rest, m.nextHandle, m.calls + |fired|)
  }

  /** What drives a debounced state: a mutation, or the clock reaching a time. */
  datatype Event = Mutate(time: int) | Clock(time: int)

  function Run(delay: int, trace: seq<Event>): (m: Debounce)
    ensures Inv(m)
  {
    if trace == [] then Start
    else
      var m := Run(delay, trace[..|trace| - 1]);
      match trace[|trace| - 1]
      case Mutate(t) => Write(m, delay, t)
      case Clock(t) => Tick(m, t)
  }

  /** The position of the last mutation of a trace. */
  function LastMutation(trace: seq<Event>): (r: Option<nat>)
    ensures r.Some? ==> r.value < |trace| && trace[r.value].Mutate?
    ensures r.Some? ==> forall k :: r.value < k < |trace| ==> !trace[k].Mutate?
    ensures r.None? ==> forall k :: 0 <= k < |trace| ==> !trace[k].Mutate?
  {
    if trace == [] then None
    else if trace[|trace| - 1].Mutate? then Some(|trace| - 1)
    else LastMutation(trace[..|trace| - 1])
  }

  /** No mutation strictly between positions `i` and `j`. */
  ghost predicate QuietBetween(trace: seq<Event>, i: int, j: int) {
    forall k :: i < k < j && 0 <= k < |trace| ==> !trace[k].Mutate?
  }

  /**
   * Reference reading of debouncing: the mutation at `i` produces a call
   * when, before any later mutation, the clock reaches its time plus the delay.
   */
  ghost predicate Settles(trace: seq<Event>, delay: int, i: int) {
    && 0 <= i < |trace|
    && trace[i].Mutate?
    && exists j :: i < j < |trace| && trace[j].Clock? && trace[i].time + Clamp(delay) <= trace[j].time && QuietBetween(trace, i, j)
  }

  ghost function Settled(trace: seq<Event>, delay: int): set<int> {
    set i | 0 <= i < |trace| && Settles(trace, delay, i)
  }

  /** The machine agrees with the reference reading after every trace. */
  ghost predicate Tracks(trace: seq<Event>, delay: int, m: Debounce) {
    && m.calls == |Settled(trace, delay)|
    && (m.queue == [] <==> LastMutation(trace).None? || LastMutation(trace).value in Settled(trace, delay))
    && (m.queue != [] ==> m.queue[0].due == trace[LastMutation(trace).value].time + Clamp(delay))
  }

  /** A mutation settles nothing new and no older mutation stops settling. */
  lemma SettledAfterMutate(trace: seq<Event>, delay: int, t: int)
    ensures Settled(trace + [Mutate(t)], delay) == Settled(trace, delay)
  {
    var u := trace + [Mutate(t)];
    assert forall k :: 0 <= k < |trace| ==> u[k] == trace[k];
    forall i | 0 <= i < |u|
      ensures Settles(u, delay, i) <==> Settles(trace, delay, i)
    {
      if Settles(u, delay, i) {
        var j :| i < j < |u| && u[j].Clock? && u[i].time + Clamp(delay) <= u[j].time && QuietBetween(u, i, j);
        assert j < |trace|;
        assert QuietBetween(trace, i, j);
      }
      if Settles(trace, delay, i) {
        var j :| i < j < |trace| && trace[j].Clock? && trace[i].time + Clamp(delay) <= trace[j].time && QuietBetween(trace, i, j);
        assert u[j] == trace[j];
        assert QuietBetween(u, i, j);
      }
    }
  }

  /** Older mutations keep their reading when the clock advances. */
  lemma SettledBeforeLastAfterClock(trace: seq<Event>, delay: int, t: int, i: int)
    requires LastMutation(trace).Some? && 0 <= i < |trace| && i != LastMutation(trace).value
    ensures Settles(trace + [Clock(t)], delay, i) <==> Settles(trace, delay, i)
  {
    var u := trace + [Clock(t)];
    var w := LastMutation(trace).value;
    if Settles(u, delay, i) {
      var j :| i < j < |u| && u[j].Clock? && u[i].time + Clamp(delay) <= u[j].time && QuietBetween(u, i, j);
      assert u[i] == trace[i] && u[w] == trace[w];
      assert i < w;
      assert j < |trace|;
      assert forall k :: 0 <= k < |trace| ==> u[k] == trace[k];
      assert QuietBetween(trace, i, j);
    }
    if Settles(trace, delay, i) {
      var j :| i < j < |trace| && trace[j].Clock? && trace[i].time + Clamp(delay) <= trace[j].time && QuietBetween(trace, i, j);
      assert u[j] == trace[j];
      assert QuietBetween(u, i, j);
    }
  }

  /** The last mutation settles after the clock advances iff it had, or the new time is late enough. */
  lemma LastSettlesAfterClock(trace: seq<Event>, delay: int, t: int)
    requires LastMutation(trace).Some?
    ensures var w := LastMutation(trace).value;
      Settles(trace + [Clock(t)], delay, w) <==> Settles(trace, delay, w) || trace[w].time + Clamp(delay) <= t
  {
    var u := trace + [Clock(t)];
    var w := LastMutation(trace).value;
    if Settles(u, delay, w) && !(trace[w].time + Clamp(delay) <= t) {
      var j :| w < j < |u| && u[j].Clock? && u[w].time + Clamp(delay) <= u[j].time && QuietBetween(u, w, j);
      assert j < |trace|;
      assert u[j] == trace[j];
      assert QuietBetween(trace, w, j);
    }
    if Settles(trace, delay, w) {
      var j :| w < j < |trace| && trace[j].Clock? && trace[w].time + Clamp(delay) <= trace[j].time && QuietBetween(trace, w, j);
      assert u[j] == trace[j];
      assert QuietBetween(u, w, j);
    }
    if trace[w].time + Clamp(delay) <= t {
      assert u[|trace|].Clock? && QuietBetween(u, w, |trace|);
    }
  }

  lemma NothingSettlesWithoutMutations(trace: seq<Event>, delay: int, t: int)
    requires LastMutation(trace).None?
    ensures Settled(trace + [Clock(t)], delay) == {} == Settled(trace, delay)
  {
    var u := trace + [Clock(t)];
    assert forall i | 0 <= i < |u| :: !u[i].Mutate?;
  }

  lemma TracksAfterMutate(trace: seq<Event>, delay: int, m: Debounce, t: int)
    requires Inv(m) && Tracks(trace, delay, m)
    ensures Tracks(trace + [Mutate(t)], delay, Write(m, delay, t))
  {
    var u := trace + [Mutate(t)];
    SettledAfterMutate(trace, delay, t);
    assert LastMutation(u) == Some(|trace|);
    assert |trace| !in Settled(u, delay);
  }

  lemma TracksAfterClock(trace: seq<Event>, delay: int, m: Debounce, t: int)
    requires Inv(m) && Tracks(trace, delay, m)
    ensures Tracks(trace + [Clock(t)], delay, Tick(m, t))
  {
    if LastMutation(trace).None? {
      NothingSettlesWithoutMutations(trace, delay, t);
      assert LastMutation(trace + [Clock(t)]) == LastMutation(trace);
    } else if m.queue == [] {
      ClockAfterCall(trace, delay, m, t);
    } else if m.queue[0].due <= t {
      ClockFires(trace, delay, m, t);
    } else {
      ClockWaits(trace, delay, m, t);
    }
  }

  /** The last mutation has already produced its call: the clock changes nothing. */
  lemma ClockAfterCall(trace: seq<Event>, delay: int, m: Debounce, t: int)
    requires Inv(m) && Tracks(trace, delay, m)
    requires LastMutation(trace).Some? && m.queue == []
    ensures Tracks(trace + [Clock(t)], delay, Tick(m, t))
  {
    var u := trace + [Clock(t)];
    var w := LastMutation(trace).value;
    assert LastMutation(u) == Some(w);
    SettledAfterClock(trace, delay, t);
    assert w in Settled(trace, delay);
    assert Settled(u, delay) == Settled(trace, delay);
  }

  /** The pending timer is due: the last mutation settles and the call count goes up by one. */
  lemma ClockFires(trace: seq<Event>, delay: int, m: Debounce, t: int)
    requires Inv(m) && Tracks(trace, delay, m)
    requires LastMutation(trace).Some? && m.queue != [] && m.queue[0].due <= t
    ensures Tracks(trace + [Clock(t)], delay, Tick(m, t))
  {
    var u := trace + [Clock(t)];
    var w := LastMutation(trace).value;
    assert LastMutation(u) == Some(w);
    SettledAfterClock(trace, delay, t);
    assert w !in Settled(trace, delay);
    assert Settled(u, delay) == Settled(trace, delay) + {w};
  }

  /** The pending timer is not yet due: nothing settles. */
  lemma ClockWaits(trace: seq<Event>, delay: int, m: Debounce, t: int)
    requires Inv(m) && Tracks(trace, delay, m)
    requires LastMutation(trace).Some? && m.queue != [] && t < m.queue[0].due
    ensures Tracks(trace + [Clock(t)], delay, Tick(m, t))
  {
    var u := trace + [Clock(t)];
    var w := LastMutation(trace).value;
    assert LastMutation(u) == Some(w);
    assert u[w] == trace[w];
    SettledAfterClock(trace, delay, t);
    assert Settled(u, delay) == Settled(trace, delay);
  }

  /** With a mutation in the trace, the clock can only settle the last one. */
  lemma SettledAfterClock(trace: seq<Event>, delay: int, t: int)
    requires LastMutation(trace).Some?
    ensures var w := LastMutation(trace).value;
      Settled(trace + [Clock(t)], delay) ==
        Settled(trace, delay) + (if trace[w].time + Clamp(delay) <= t then {w} else {})
  {
    var u := trace + [Clock(t)];
    var w := LastMutation(trace).value;
    forall i | 0 <= i < |trace| && i != w
      ensures Settles(u, delay, i) <==> Settles(trace, delay, i)
    {
      SettledBeforeLastAfterClock(trace, delay, t, i);
    }
    assert !Settles(u, delay, |trace|);
    LastSettlesAfterClock(trace, delay, t);
  }

  lemma {:induction false} RunTracks(trace: seq<Event>, delay: int)
    ensures Tracks(trace, delay, Run(delay, trace))
  {
    if trace != [] {
      var init := trace[..|trace| - 1];
      assert trace == init + [trace[|trace| - 1]];
      RunTracks(init, delay);
      match trace[|trace| - 1]
      case Mutate(t) => TracksAfterMutate(init, delay, Run(delay, init), t);
      case Clock(t) => TracksAfterClock(init, delay, Run(delay, init), t);
    }
  }

  /** `onChange` has run exactly as often as the reference reading says. */
  lemma DebounceCalls(trace: seq<Event>, delay: int)
    ensures Run(delay, trace).calls == |Settled(trace, delay)|
    ensures |Run(delay, trace).queue| <= 1
  {
    RunTracks(trace, delay);
  }

  /** The positions of a trace that are mutations. */
  ghost function Mutations(trace: seq<Event>): set<int> {
    set i | 0 <= i < |trace| && trace[i].Mutate?
  }

  lemma {:induction false} SubsetCard<T>(a: set<T>, b: set<T>)
    requires a <= b
    ensures |a| <= |b|
    decreases a
  {
    if a != {} {
      var x :| x in a;
      SubsetCard(a - {x}, b - {x});
    }
  }

  /**
   * Debouncing never calls `onChange` more often than `useState` would for
   * the same mutations, which calls it once per mutation.
   */
  lemma DebounceNeverOutrunsState(trace: seq<Event>, delay: int)
    ensures Run(delay, trace).calls <= |Mutations(trace)|
  {
    RunTracks(trace, delay);
    SubsetCard(Settled(trace, delay), Mutations(trace));
  }

  /** A clock event runs `onChange` only once the last mutation's delay has passed. */
  lemma NoEarlyCall(trace: seq<Event>, delay: int, t: int)
    requires Run(delay, trace).calls < Run(delay, trace + [Clock(t)]).calls
    ensures LastMutation(trace).Some?
    ensures trace[LastMutation(trace).value].time + Clamp(delay) <= t
  {
    var u := trace + [Clock(t)];
    assert u[..|u| - 1] == trace;
    RunTracks(trace, delay);
  }

  /**
   * A burst of mutations with no clock event in between, followed by the
   * clock reaching time `now`: `onChange` runs once if `now` is at least the
   * last mutation's time plus the delay, and not at all otherwise.
   */
  lemma BurstCallsOnce(burst: seq<Event>, delay: int, now: int)
    requires burst != [] && forall k :: 0 <= k < |burst| ==> burst[k].Mutate?
    ensures var calls := Run(delay, burst + [Clock(now)]).calls;
      calls == if burst[|burst| - 1].time + Clamp(delay) <= now then 1 else 0
  {
    var u := burst + [Clock(now)];
    var last := |burst| - 1;
    RunTracks(u, delay);
    forall i | 0 <= i < last
      ensures !Settles(u, delay, i)
    {
      assert u[last] == burst[last];
    }
    if burst[last].time + Clamp(delay) <= now {
      assert QuietBetween(u, last, |burst|) && u[|burst|] == Clock(now);
      assert Settled(u, delay) == {last};
    } else {
      assert Settled(u, delay) == {};
    }
  }

  /** `setTimeout` with a negative delay behaves as with zero, on every trace. */
  lemma {:induction false} NegativeDelayIsZero(delay: int, trace: seq<Event>)
    requires delay < 0
    ensures Run(delay, trace) == Run(0, trace)
    decreases |trace|
  {
    if trace != [] {
      NegativeDelayIsZero(delay, trace[..|trace| - 1]);
    }
  }

  /** With a negative delay the timer is due at once: the next clock event calls `onChange`. */
  lemma NegativeDelayFiresAtOnce(delay: int, t: int)
    requires delay < 0
    ensures Run(delay, [Mutate(t), Clock(t)]).calls == 1
  {
    assert [Mutate(t), Clock(t)][..1] == [Mutate(t)];
    assert [Mutate(t)][..0] == [];
    assert Run(delay, [Mutate(t)]) == Write(Start, delay, t);
    assert Write(Start, delay, t).queue == [Timer(1, t)];
  }
}
