/**
 * The dispatch engine of ErrorHandlingKit: an immutable, ordered list of
 * entries that `Handle` walks for one error value.
 *
 * Errors are values of a type parameter `T`, conditions are total functions
 * `T -> bool`, and the closures a caller registers are opaque identifiers of
 * a type parameter `A`. What `Handle` does to the outside world is recorded
 * as a log of events: one `Invoked(a)` per closure call, in call order, and a
 * `Completed(r)` when the optional completion closure is called.
 */
module ErrorHandlers {

  /** Whether at least one conditional entry matched during one `Handle` call. */
  datatype HandlingResult = Handled | Unhandled
  {
    /** The accumulator of the dispatch loop: once handled, always handled. */
    function Or(other: HandlingResult): HandlingResult {
      if this == Handled || other == Handled then Handled else Unhandled
    }
  }

  /** One configured entry. */
  datatype Action<!T, A> =
    | Unconditional(handler: A)
    | Conditional(condition: T -> bool, handlers: seq<A>)

  /** An externally visible step of `Handle`. */
  datatype Event<A> = Invoked(action: A) | Completed(result: HandlingResult)

  /** The invocations of a list of closures, in list order. */
  function Invocations<A>(handlers: seq<A>): seq<Event<A>> {
    seq(|handlers|, k requires 0 <= k < |handlers| => Invoked(handlers[k]))
  }

  /** An entry matches when it is conditional and its condition holds. */
  predicate Fires<T, A>(entry: Action<T, A>, error: T) {
    entry.Conditional? && entry.condition(error)
  }

  /** The closures one entry invokes for `error`. */
  function Contribution<T, A>(entry: Action<T, A>, error: T): seq<Event<A>> {
    match entry
    case Unconditional(handler) => [Invoked(handler)]
    case Conditional(condition, handlers) =>
      if condition(error) then Invocations(handlers) else []
  }

  /**
   * Reference semantics of the invocations: every entry is visited in
   * registration order and contributes its invocations; nothing short-circuits.
   */
  function Trace<T, A>(entries: seq<Action<T, A>>, error: T): seq<Event<A>>
    decreases |entries|
  {
    if entries == [] then [] else Contribution(entries[0], error) + Trace(entries[1..], error)
  }

  /** Reference semantics of the result: the accumulator folded over every entry. */
  function Result<T, A>(entries: seq<Action<T, A>>, error: T): HandlingResult
    decreases |entries|
  {
    if entries == [] then Unhandled
    else (if Fires(entries[0], error) then Handled else Unhandled).Or(Result(entries[1..], error))
  }

  /** Some conditional entry of `entries` matches `error`. */
  ghost predicate AnyMatch<T, A>(entries: seq<Action<T, A>>, error: T) {
    exists i :: 0 <= i < |entries| && Fires(entries[i], error)
  }

  /** The invocations of a concatenation are those of each part, one after the other. */
  lemma {:induction false} TraceAppend<T, A>(s: seq<Action<T, A>>, t: seq<Action<T, A>>, error: T)
    ensures Trace(s + t, error) == Trace(s, error) + Trace(t, error)
    decreases |s|
  {
    if s == [] {
      assert s + t == t;
    } else {
      assert (s + t)[1..] == s[1..] + t;
      TraceAppend(s[1..], t, error);
    }
  }

  /** The result of a concatenation is handled when either part handles the error. */
  lemma {:induction false} ResultAppend<T, A>(s: seq<Action<T, A>>, t: seq<Action<T, A>>, error: T)
    ensures Result(s + t, error) == Result(s, error).Or(Result(t, error))
    decreases |s|
  {
    if s == [] {
      assert s + t == t;
    } else {
      assert (s + t)[1..] == s[1..] + t;
      ResultAppend(s[1..], t, error);
    }
  }

  /** The result is handled if and only if some conditional entry matches. */
  lemma {:induction false} ResultIsAnyMatch<T, A>(entries: seq<Action<T, A>>, error: T)
    ensures Result(entries, error) == Handled <==> AnyMatch(entries, error)
    decreases |entries|
  {
    if entries != [] {
      ResultIsAnyMatch(entries[1..], error);
      if AnyMatch(entries[1..], error) {
        var i :| 0 <= i < |entries[1..]| && Fires(entries[1..][i], error);
        assert Fires(entries[i + 1], error);
      }
      if AnyMatch(entries, error) && !Fires(entries[0], error) {
        var i :| 0 <= i < |entries| && Fires(entries[i], error);
        assert Fires(entries[1..][i - 1], error);
      }
    }
  }

  /** A handler without conditional entries never reports an error as handled. */
  lemma {:induction false} NoConditionalIsUnhandled<T, A>(entries: seq<Action<T, A>>, error: T)
    requires forall i :: 0 <= i < |entries| ==> entries[i].Unconditional?
    ensures Result(entries, error) == Unhandled
  {
    ResultIsAnyMatch(entries, error);
  }

  /**
   * A matching conditional with no closures still makes the result handled,
   * and contributes nothing to the trace.
   */
  lemma EmptyMatchIsHandled<T, A>(entries: seq<Action<T, A>>, error: T, i: nat)
    requires i < |entries| && entries[i].Conditional? && entries[i].handlers == []
    requires entries[i].condition(error)
    ensures Result(entries, error) == Handled
    ensures Trace(entries, error)
         == Trace(entries[..i], error) + Trace(entries[i + 1..], error)
  {
    assert Result(entries, error) == Handled by {
      assert Fires(entries[i], error);
      ResultIsAnyMatch(entries, error);
    }
    assert Contribution(entries[i], error) == [];
    var before, after := Trace(entries[..i], error), Trace(entries[i + 1..], error);
    assert Trace(entries, error) == before + [] + after by {
      Split(entries, error, i);
    }
    assert before + [] == before;
  }

  /**
   * The trace is the trace of the entries before `i`, then the contribution of
   * entry `i`, then the trace of the entries after it.
   */
  lemma Split<T, A>(entries: seq<Action<T, A>>, error: T, i: nat)
    requires i < |entries|
    ensures Trace(entries, error)
         == Trace(entries[..i], error) + Contribution(entries[i], error)
            + Trace(entries[i + 1..], error)
  {
    var before, rest := entries[..i], entries[i..];
    assert entries == before + rest;
    TraceAppend(before, rest, error);
    assert rest[1..] == entries[i + 1..];
    assert rest[0] == entries[i];
    assert Trace(rest, error) == Contribution(entries[i], error) + Trace(entries[i + 1..], error);
  }

  /**
   * Every matching conditional fires: its closures all run, in their own
   * order, at the position given by the entries registered before it.
   */
  lemma MatchingConditionalRuns<T, A>(entries: seq<Action<T, A>>, error: T, i: nat)
    requires i < |entries| && Fires(entries[i], error)
    ensures var start := |Trace(entries[..i], error)|;
            var trace := Trace(entries, error);
            start + |entries[i].handlers| <= |trace| &&
            trace[start..start + |entries[i].handlers|] == Invocations(entries[i].handlers)
  {
    Split(entries, error, i);
  }

  /** A conditional whose condition fails contributes nothing. */
  lemma FailingConditionalIsSkipped<T, A>(entries: seq<Action<T, A>>, error: T, i: nat)
    requires i < |entries| && entries[i].Conditional? && !entries[i].condition(error)
    ensures Trace(entries, error)
         == Trace(entries[..i], error) + Trace(entries[i + 1..], error)
  {
    Split(entries, error, i);
  }

  /**
   * Run-all: when two conditionals both match, both run, the earlier one
   * first, with exactly the entries registered between them in between.
   */
  lemma BothMatchesRun<T, A>(before: seq<Action<T, A>>, p: Action<T, A>, middle: seq<Action<T, A>>,
                             q: Action<T, A>, after: seq<Action<T, A>>, error: T)
    requires Fires(p, error) && Fires(q, error)
    ensures Trace(before + [p] + middle + [q] + after, error)
         == Trace(before, error) + Invocations(p.handlers) + Trace(middle, error)
            + Invocations(q.handlers) + Trace(after, error)
  {
    TraceAppend(before + [p] + middle + [q], after, error);
    TraceAppend(before + [p] + middle, [q], error);
    TraceAppend(before + [p], middle, error);
    TraceAppend(before, [p], error);
    assert Trace([p], error) == Invocations(p.handlers);
    assert Trace([q], error) == Invocations(q.handlers);
  }

  /**
   * Once some prefix of the entries has made the result handled, every longer
   * prefix keeps it handled: no later entry resets it.
   */
  lemma HandledIsSticky<T, A>(entries: seq<Action<T, A>>, error: T, i: nat, j: nat)
    requires i <= j <= |entries|
    requires Result(entries[..i], error) == Handled
    ensures Result(entries[..j], error) == Handled
  {
    assert entries[..j] == entries[..i] + entries[i..j];
    ResultAppend(entries[..i], entries[i..j], error);
  }

  /** The trace holds only closure invocations; the completion is not part of it. */
  lemma {:induction false} TraceOnlyInvokes<T, A>(entries: seq<Action<T, A>>, error: T)
    ensures forall k :: 0 <= k < |Trace(entries, error)| ==> Trace(entries, error)[k].Invoked?
    decreases |entries|
  {
    if entries != [] {
      TraceOnlyInvokes(entries[1..], error);
    }
  }

  /** A handler over an entry list that is fixed at construction. */
  class ErrorHandler<T, A> {
    const actions: seq<Action<T, A>>

    constructor (actions: seq<Action<T, A>>)
      ensures this.actions == actions
    {
      this.actions := actions;
    }

    /**
     * Runs every entry in order against `error`, then calls the completion
     * when there is one, and returns the result the completion received.
     */
    method Handle(error: T, hasCompletion: bool) returns (result: HandlingResult, events: seq<Event<A>>)
      ensures result == Result(actions, error)
      ensures result == Handled <==> AnyMatch(actions, error)
      ensures events == Trace(actions, error) + (if hasCompletion then [Completed(result)] else [])
      ensures hasCompletion ==> events[|events| - 1] == Completed(result)
      ensures forall k :: 0 <= k < |events| && events[k].Completed? ==> hasCompletion && k == |events| - 1
    {
      result := Unhandled;
      events := [];
      for i := 0 to |actions|
        invariant result == Result(actions[..i], error)
        invariant events == Trace(actions[..i], error)
      {
        var entry := actions[i];
        match entry {
          case Unconditional(handler) =>
            events := events + [Invoked(handler)];
          case Conditional(condition, handlers) =>
            if condition(error) {
              ghost var before := events;
              for k := 0 to |handlers|
                invariant events == before + Invocations(handlers[..k])
              {
                assert Invocations(handlers[..k + 1]) == Invocations(handlers[..k]) + [Invoked(handlers[k])];
                events := events + [Invoked(handlers[k])];
              }
              assert handlers[..|handlers|] == handlers;
              result := Handled;
            }
        }
        assert actions[..i + 1] == actions[..i] + [entry];
        TraceAppend(actions[..i], [entry], error);
        ResultAppend(actions[..i], [entry], error);
      }
      assert actions[..|actions|] == actions;
      ResultIsAnyMatch(actions, error);
      TraceOnlyInvokes(actions, error);
      if hasCompletion {
        events := events + [Completed(result)];
      }
    }
  }

  /**
   * The entry list never changes after construction and conditions are pure,
   * so handling the same error twice gives the same result and the same
   * closure invocations, whether or not either call passes a completion.
   */
  method HandleTwice<T, A>(handler: ErrorHandler<T, A>, error: T, firstCompletion: bool, secondCompletion: bool)
    returns (first: HandlingResult, firstEvents: seq<Event<A>>,
             second: HandlingResult, secondEvents: seq<Event<A>>)
    ensures first == second
    ensures |firstEvents| == |Trace(handler.actions, error)| + (if firstCompletion then 1 else 0)
    ensures |secondEvents| == |Trace(handler.actions, error)| + (if secondCompletion then 1 else 0)
    ensures firstEvents[..|Trace(handler.actions, error)|] == secondEvents[..|Trace(handler.actions, error)|]
  {
    first, firstEvents := handler.Handle(error, firstCompletion);
    second, secondEvents := handler.Handle(error, secondCompletion);
  }
}
