/**
 * The demonstration program of ErrorHandlingKit: three unconditional
 * announcements bracketing a timeout rule with two closures and an
 * authorisation rule with three, handled for each kind of network error.
 */
module Demo {
  import opened ErrorHandlers
  import opened Builders

  datatype NetworkError = Timeout | Unauthorized | ServerError

  /** The closures the demonstration registers, one name per closure. */
  datatype Step =
    | FirstUnconditional | TimeoutFirst | TimeoutSecond | SecondUnconditional
    | AuthFirst | AuthSecond | AuthThird | ThirdUnconditional

  /** The entries the demonstration registers, in registration order. */
  function DemoEntries(): seq<Action<NetworkError, Step>> {
    [ Unconditional(FirstUnconditional),
      Conditional(e => e == Timeout, [TimeoutFirst, TimeoutSecond]),
      Unconditional(SecondUnconditional),
      Conditional(e => e == Unauthorized, [AuthFirst, AuthSecond, AuthThird]),
      Unconditional(ThirdUnconditional) ]
  }

  /**
   * What each error of the demonstration invokes: the announcements always
   * run in place, each rule's closures only for its own error.
   */
  lemma DemoTraces()
    ensures Trace(DemoEntries(), Timeout)
         == Invocations([FirstUnconditional, TimeoutFirst, TimeoutSecond, SecondUnconditional, ThirdUnconditional])
    ensures Trace(DemoEntries(), Unauthorized)
         == Invocations([FirstUnconditional, SecondUnconditional, AuthFirst, AuthSecond, AuthThird, ThirdUnconditional])
    ensures Trace(DemoEntries(), ServerError)
         == Invocations([FirstUnconditional, SecondUnconditional, ThirdUnconditional])
    ensures Result(DemoEntries(), Timeout) == Handled
    ensures Result(DemoEntries(), Unauthorized) == Handled
    ensures Result(DemoEntries(), ServerError) == Unhandled
  {
    var entries := DemoEntries();
    assert entries[1..][1..][1..][1..][1..] == [];
  }

  /**
   * The demonstration itself: build the handler with chained calls, then
   * handle each error with a completion.
   */
  method RunDemo() returns (timeout: HandlingResult, unauthorized: HandlingResult, serverError: HandlingResult,
                            timeoutEvents: seq<Event<Step>>, unauthorizedEvents: seq<Event<Step>>,
                            serverErrorEvents: seq<Event<Step>>)
    ensures timeout == Handled && unauthorized == Handled && serverError == Unhandled
    ensures timeoutEvents
         == Invocations([FirstUnconditional, TimeoutFirst, TimeoutSecond, SecondUnconditional, ThirdUnconditional])
            + [Completed(Handled)]
    ensures unauthorizedEvents
         == Invocations([FirstUnconditional, SecondUnconditional, AuthFirst, AuthSecond, AuthThird, ThirdUnconditional])
            + [Completed(Handled)]
    ensures serverErrorEvents
         == Invocations([FirstUnconditional, SecondUnconditional, ThirdUnconditional]) + [Completed(Unhandled)]
  {
    var builder := new ErrorHandlerBuilder<NetworkError, Step>();
    builder := builder.Always(FirstUnconditional);
    builder := builder.When(e => e == Timeout, [TimeoutFirst, TimeoutSecond]);
    builder := builder.Always(SecondUnconditional);
    builder := builder.When(e => e == Unauthorized, [AuthFirst, AuthSecond, AuthThird]);
    builder := builder.Always(ThirdUnconditional);
    var handler := builder.Build();
    assert handler.actions == DemoEntries();
    DemoTraces();
    timeout, timeoutEvents := handler.Handle(Timeout, true);
    unauthorized, unauthorizedEvents := handler.Handle(Unauthorized, true);
    serverError, serverErrorEvents := handler.Handle(ServerError, true);
  }
}
