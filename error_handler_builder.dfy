/**
 * The fluent builder that collects entries in call order and hands a copy of
 * them to a new `ErrorHandler`.
 */
module Builders {
  import opened ErrorHandlers

  class ErrorHandlerBuilder<T, A> {
    /** The entries configured so far, oldest first. */
    var actions: seq<Action<T, A>>

    /** A new builder has no entries. */
    constructor ()
      ensures actions == []
    {
      actions := [];
    }

    /**
     * Registers one conditional entry whose closures keep their given order,
     * and returns this same builder for chaining.
     */
    method When(condition: T -> bool, handlers: seq<A>) returns (self: ErrorHandlerBuilder<T, A>)
      modifies this
      ensures self == this
      ensures actions == old(actions) + [Conditional(condition, handlers)]
    {
      actions := actions + [Conditional(condition, handlers)];
      self := this;
    }

    /** Registers one unconditional entry and returns this same builder. */
    method Always(handler: A) returns (self: ErrorHandlerBuilder<T, A>)
      modifies this
      ensures self == this
      ensures actions == old(actions) + [Unconditional(handler)]
    {
      actions := actions + [Unconditional(handler)];
      self := this;
    }

    /**
     * A new handler over the entries configured so far. The handler keeps its
     * own copy: the builder is left as it was.
     */
    method Build() returns (handler: ErrorHandler<T, A>)
      ensures fresh(handler)
      ensures handler.actions == actions
    {
      handler := new ErrorHandler(actions);
    }
  }

  /**
   * Configuring a builder after `Build` leaves the handler already built
   * untouched, while the builder itself goes on growing in call order.
   */
  method BuildThenConfigure<T, A>(builder: ErrorHandlerBuilder<T, A>, condition: T -> bool,
                                  handlers: seq<A>, handler: A)
    returns (built: ErrorHandler<T, A>)
    modifies builder
    ensures built.actions == old(builder.actions)
    ensures builder.actions
         == old(builder.actions) + [Conditional(condition, handlers), Unconditional(handler)]
  {
    built := builder.Build();
    var chained := builder.When(condition, handlers);
    chained := chained.Always(handler);
  }
}
