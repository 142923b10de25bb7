/** What a writer asks of the host XML writer, as a value: the events
    written and the error that stopped them, if one did (the events before
    it stay written); and runs of such steps that stop at the first error. */
module Emission {
  import opened Wrappers
  import opened HostXml

  /** Events asked of the host writer, and the error that stopped them. */
  datatype Emitted<E> = Emitted(events: seq<Event>, error: Option<E>)

  /** Steps run in order, stopping at the first that fails: the events of
      every step up to and including the failing one, and its error. */
  function Sequence<E>(steps: seq<Emitted<E>>): Emitted<E>
    decreases |steps|
  {
    if steps == [] then Emitted([], None)
    else
      var prev := Sequence(steps[..|steps| - 1]);
      if prev.error.Some? then prev
      else
        var last := steps[|steps| - 1];
        Emitted(prev.events + last.events, last.error)
  }

  lemma EventsAssoc(a: seq<Event>, b: seq<Event>, c: seq<Event>)
    ensures a + b + c == a + (b + c)
  {
  }

  /** One more step: it either extends the run or, failing, ends it. */
  lemma SequenceSnoc<E>(steps: seq<Emitted<E>>, i: int)
    requires 0 <= i < |steps|
    ensures var prev := Sequence(steps[..i]);
      Sequence(steps[..i + 1]) == if prev.error.Some? then prev else Emitted(prev.events + steps[i].events, steps[i].error)
  {
    assert steps[..i + 1][..i] == steps[..i];
  }

  /** Once a step has failed, later steps add nothing. */
  lemma {:induction false} SequenceStopped<E>(a: seq<Emitted<E>>, b: seq<Emitted<E>>)
    requires Sequence(a).error.Some?
    ensures Sequence(a + b) == Sequence(a)
    decreases |b|
  {
    if b == [] {
      assert a + b == a;
    } else {
      SequenceStopped(a, b[..|b| - 1]);
      assert (a + b)[..|a + b| - 1] == a + b[..|b| - 1];
    }
  }

  /** One turn of a loop that runs the steps: after the steps before `i`
      have succeeded, step `i` either extends the run or ends the whole of
      it. */
  lemma SequenceStep<E>(steps: seq<Emitted<E>>, i: int)
    requires 0 <= i < |steps| && Sequence(steps[..i]).error.None?
    ensures var prev := Sequence(steps[..i]);
      && (steps[i].error.None? ==> Sequence(steps[..i + 1]) == Emitted(prev.events + steps[i].events, None))
      && (steps[i].error.Some? ==> Sequence(steps) == Emitted(prev.events + steps[i].events, steps[i].error))
  {
    SequenceSnoc(steps, i);
    if steps[i].error.Some? {
      SequenceStopped(steps[..i + 1], steps[i + 1..]);
      assert steps[..i + 1] + steps[i + 1..] == steps;
    }
  }

  /** A run succeeds exactly when every step does; when it fails, it holds
      the events of the steps before the first failing one, then that
      step's events and error. */
  lemma {:induction false} SequenceError<E>(steps: seq<Emitted<E>>)
    ensures Sequence(steps).error.None? <==> forall i | 0 <= i < |steps| :: steps[i].error.None?
    ensures Sequence(steps).error.Some? ==>
      exists i | 0 <= i < |steps| ::
        && (forall j | 0 <= j < i :: steps[j].error.None?)
        && Sequence(steps) == Emitted(Sequence(steps[..i]).events + steps[i].events, steps[i].error)
    decreases |steps|
  {
    if steps != [] {
      var n := |steps| - 1;
      var init := steps[..n];
      SequenceError(init);
      assert forall j | 0 <= j < n :: steps[j] == init[j];
      if Sequence(init).error.Some? {
        var i :| 0 <= i < n
          && (forall j | 0 <= j < i :: init[j].error.None?)
          && Sequence(init) == Emitted(Sequence(init[..i]).events + init[i].events, init[i].error);
        assert steps[..i] == init[..i];
      }
    }
  }

  /** A successful run of four-event steps lays their events out in blocks
      of four, in order. */
  lemma {:induction false} SequenceBlocks<E>(steps: seq<Emitted<E>>)
    requires forall i | 0 <= i < |steps| :: steps[i].error.None? && |steps[i].events| == 4
    ensures Sequence(steps).error.None? && |Sequence(steps).events| == 4 * |steps|
    ensures forall i | 0 <= i < |steps| :: Sequence(steps).events[4 * i..4 * i + 4] == steps[i].events
    decreases |steps|
  {
    if steps != [] {
      var n := |steps| - 1;
      var init := steps[..n];
      SequenceBlocks(init);
      var prev := Sequence(init).events;
      var es := prev + steps[n].events;
      forall i | 0 <= i < |steps| ensures es[4 * i..4 * i + 4] == steps[i].events {
        if i < n {
          assert es[4 * i..4 * i + 4] == prev[4 * i..4 * i + 4];
        }
      }
    }
  }

  /** A successful run of balanced steps is balanced. */
  lemma {:induction false} SequenceBalanced<E>(steps: seq<Emitted<E>>)
    requires forall i | 0 <= i < |steps| :: steps[i].error.None? && Depth(steps[i].events) == 0
    ensures Sequence(steps).error.None? && Depth(Sequence(steps).events) == 0
    decreases |steps|
  {
    if steps != [] {
      var n := |steps| - 1;
      SequenceBalanced(steps[..n]);
      DepthAppend(Sequence(steps[..n]).events, steps[n].events);
    }
  }

  /** The events of each step. */
  function EventsOf<E>(steps: seq<Emitted<E>>): (r: seq<seq<Event>>)
    ensures |r| == |steps| && forall i | 0 <= i < |steps| :: r[i] == steps[i].events
  {
    seq(|steps|, i requires 0 <= i < |steps| => steps[i].events)
  }

  /** The event lists one after the other. */
  function Concat(ess: seq<seq<Event>>): seq<Event>
    decreases |ess|
  {
    if ess == [] then [] else Concat(ess[..|ess| - 1]) + ess[|ess| - 1]
  }

  /** A run in which no step fails writes the events of all its steps, in
      order. */
  lemma {:induction false} SequenceConcat<E>(steps: seq<Emitted<E>>)
    requires forall i | 0 <= i < |steps| :: steps[i].error.None?
    ensures Sequence(steps) == Emitted(Concat(EventsOf(steps)), None)
    decreases |steps|
  {
    if steps != [] {
      var n := |steps| - 1;
      SequenceConcat(steps[..n]);
      assert EventsOf(steps)[..n] == EventsOf(steps[..n]);
    }
  }
}
