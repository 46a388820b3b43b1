/**
 The shape shared by the two accept loops of the server: the connection's
 request loop and the WebTransport session's fan-in loop. Each inbound event
 either lets the loop continue (after emitting some actions) or stops it
 with a reason. Running a loop over a finite sequence of events yields what
 was emitted, how many events were consumed, and why it stopped (None when
 the events ran out while the loop was still waiting).
 */
module EventLoop {
  import opened Wrappers

  datatype Step<A, Z> = Continue(emitted: seq<A>) | Stop(emitted: seq<A>, reason: Z)

  datatype Outcome<A, Z> = Outcome(emitted: seq<A>, consumed: nat, end: Option<Z>)

  function Run<E, A, Z>(step: E -> Step<A, Z>, events: seq<E>): (o: Outcome<A, Z>)
    ensures o.consumed <= |events|
    ensures o.end.None? <==> o.consumed == |events| && (forall i :: 0 <= i < |events| ==> step(events[i]).Continue?)
    decreases |events|
  {
    if |events| == 0 then Outcome([], 0, None)
    else
      match step(events[0])
      case Stop(a, z) => Outcome(a, 1, Some(z))
      case Continue(a) =>
        var rest := Run(step, events[1..]);
        assert forall i :: 1 <= i < |events| ==> events[i] == events[1..][i - 1];
        Outcome(a + rest.emitted, 1 + rest.consumed, rest.end)
  }

  /** Everything the steps of `events` emit, in order, ignoring stops. */
  function Emitted<E, A, Z>(step: E -> Step<A, Z>, events: seq<E>): seq<A>
    decreases |events|
  {
    if |events| == 0 then [] else step(events[0]).emitted + Emitted(step, events[1..])
  }

  predicate NoStop<E, A, Z>(step: E -> Step<A, Z>, events: seq<E>) {
    forall i :: 0 <= i < |events| ==> step(events[i]).Continue?
  }

  lemma {:induction false} EmittedAppend<E, A, Z>(step: E -> Step<A, Z>, xs: seq<E>, ys: seq<E>)
    ensures Emitted(step, xs + ys) == Emitted(step, xs) + Emitted(step, ys)
    decreases |xs|
  {
    if |xs| == 0 {
      assert xs + ys == ys;
    } else {
      assert (xs + ys)[1..] == xs[1..] + ys;
      EmittedAppend(step, xs[1..], ys);
    }
  }

  /** A loop that meets no stopping event consumes everything and emits every step's actions. */
  lemma {:induction false} RunWithoutStop<E, A, Z>(step: E -> Step<A, Z>, events: seq<E>)
    requires NoStop(step, events)
    ensures Run(step, events) == Outcome(Emitted(step, events), |events|, None)
    decreases |events|
  {
    if |events| > 0 {
      assert step(events[0]).Continue?;
      RunWithoutStop(step, events[1..]);
    }
  }

  /**
   The first stopping event ends the loop: what comes after it is never
   consumed and cannot change the outcome.
   */
  lemma {:induction false} RunStopsAtFirstStop<E, A, Z>(step: E -> Step<A, Z>, pre: seq<E>, stop: E, post: seq<E>)
    requires NoStop(step, pre)
    requires step(stop).Stop?
    ensures Run(step, pre + [stop] + post)
         == Outcome(Emitted(step, pre) + step(stop).emitted, |pre| + 1, Some(step(stop).reason))
    decreases |pre|
  {
    var events := pre + [stop] + post;
    if |pre| == 0 {
      assert events[0] == stop;
    } else {
      assert events[0] == pre[0];
      assert events[1..] == pre[1..] + [stop] + post;
      RunStopsAtFirstStop(step, pre[1..], stop, post);
    }
  }
}
