# ErrorHandlingKit dispatch engine, in Dafny

This project models the core of ErrorHandlingKit, a small Swift library that
centralises "what to do when error X happens". It covers two parts:

- `ErrorHandler<T>` holds an ordered list of entries that is fixed when the
  handler is created. `handle(_:completion:)` walks the list in order:
  - an `.unconditional` entry always runs its closure;
  - a `.conditional` entry runs all of its closures, in order, when its
    condition holds for the error, and then marks the result `.handled`.

  Every conditional entry is evaluated; nothing stops at the first match.
  The optional completion closure receives the final result, and the same
  result is returned.
- `ErrorHandlerBuilder<T>` is a fluent builder. `when` and `always` each append
  one entry and return the builder itself. `build` gives a new handler its own
  copy of the entries.

Modelling choices:

- Errors are a type parameter `T`, and conditions are total functions `T -> bool`.
- Closures are opaque identifiers of a type parameter `A`.
- What `handle` does to the outside world is a log of `Event`s. Each closure
  call adds `Invoked(a)`. A call of the completion adds `Completed(r)`.
  Whether a completion was passed is the flag `hasCompletion`.
- `Trace` and `Result` give the reference meaning of one dispatch. `Trace`
  concatenates each entry's contribution in registration order. `Result` folds
  the "handled" accumulator over the entries.
- `ErrorHandler.Handle` is the source's loop, a `for` over the entries with an
  inner loop over a matching rule's closures. Its contract ties the result and
  the event log to `Trace` and `Result`. The lemmas state what those mean.
- `ErrorHandlerBuilder` is a class whose `actions` field is a `seq`. `When` and
  `Always` reassign that field. The handler's list is a `const`, so a built
  handler cannot observe later changes to the builder.

Files:

- `error_handler.dfy`: module `ErrorHandlers`, which models
  `Sources/ErrorHandlingKit/ErrorHandler.swift`.
- `error_handler_builder.dfy`: module `Builders`, which models
  `Sources/ErrorHandlingKit/ErrorHandlerBuilder.swift`.
- `demo.dfy`: module `Demo`, the scenario of the demonstration program.

## Model

| member | source | states |
|---|---|---|
| `ErrorHandlers.ErrorHandler.constructor` | Sources/ErrorHandlingKit/ErrorHandler.swift:24-31 | the handler holds exactly the given entries, in the given order, as a constant |
| `ErrorHandlers.ErrorHandler.Handle` | Sources/ErrorHandlingKit/ErrorHandler.swift:40-58 | the result is `Handled` iff some conditional entry matches the error. The event log is the in-order concatenation of the entries' contributions, followed by `Completed(result)` when a completion was passed. The completion event is the only non-invocation event, appears at most once, comes last and carries the returned value |
| `ErrorHandlers.HandleTwice` | Sources/ErrorHandlingKit/ErrorHandler.swift:24-58 | because the entry list is a constant and conditions are pure functions, two calls with the same error give the same result and the same closure invocations, whether or not either call passes a completion |
| `ErrorHandlers.TraceAppend` | Sources/ErrorHandlingKit/ErrorHandler.swift:43-54 | the invocations for a concatenation of entry lists are the first list's invocations followed by the second's |
| `ErrorHandlers.ResultAppend` | Sources/ErrorHandlingKit/ErrorHandler.swift:41-53 | a concatenation of entry lists handles an error iff either part does |
| `ErrorHandlers.ResultIsAnyMatch` | Sources/ErrorHandlingKit/ErrorHandler.swift:41-53 | the result is `Handled` if and only if at least one conditional entry's condition holds for the error (both directions) |
| `ErrorHandlers.NoConditionalIsUnhandled` | Sources/ErrorHandlingKit/ErrorHandler.swift:41-46 | a list with only unconditional entries gives `Unhandled` for every error |
| `ErrorHandlers.EmptyMatchIsHandled` | Sources/ErrorHandlingKit/ErrorHandler.swift:48-51 | a matching conditional with no closures still makes the result `Handled` and invokes nothing |
| `ErrorHandlers.Split` | Sources/ErrorHandlingKit/ErrorHandler.swift:43-54 | the invocations are those of the entries before position `i`, then entry `i`'s contribution, then those of the entries after it |
| `ErrorHandlers.MatchingConditionalRuns` | Sources/ErrorHandlingKit/ErrorHandler.swift:48-51 | a matching conditional runs all of its closures, in their given order, right after the invocations of the entries registered before it |
| `ErrorHandlers.FailingConditionalIsSkipped` | Sources/ErrorHandlingKit/ErrorHandler.swift:48-52 | a conditional whose condition is false contributes no invocation |
| `ErrorHandlers.BothMatchesRun` | Sources/ErrorHandlingKit/ErrorHandler.swift:43-53 | run-all: when two conditionals both match, both rules' closures run, the earlier rule first, with exactly the entries registered between them in between |
| `ErrorHandlers.HandledIsSticky` | Sources/ErrorHandlingKit/ErrorHandler.swift:41-53 | once a prefix of the entries has made the result `Handled`, every longer prefix keeps it `Handled` |
| `ErrorHandlers.TraceOnlyInvokes` | Sources/ErrorHandlingKit/ErrorHandler.swift:43-57 | the entries only invoke closures; the completion is not among them |
| `Builders.ErrorHandlerBuilder.constructor` | Sources/ErrorHandlingKit/ErrorHandlerBuilder.swift:17-20 | a new builder has no entries |
| `Builders.ErrorHandlerBuilder.When` | Sources/ErrorHandlingKit/ErrorHandlerBuilder.swift:28-31 | appends exactly one conditional entry with the given condition and closures, in their given order. Earlier entries are unchanged, and the builder itself is returned |
| `Builders.ErrorHandlerBuilder.Always` | Sources/ErrorHandlingKit/ErrorHandlerBuilder.swift:37-40 | appends exactly one unconditional entry. Earlier entries are unchanged, and the builder itself is returned |
| `Builders.ErrorHandlerBuilder.Build` | Sources/ErrorHandlingKit/ErrorHandlerBuilder.swift:45-47 | returns a new handler whose entries equal the builder's current entries, and leaves the builder unchanged |
| `Builders.BuildThenConfigure` | Sources/ErrorHandlingKit/ErrorHandlerBuilder.swift:28-46 | configuring after `build` leaves the built handler's entries as they were at `build`. The builder grows by one entry per call, in call order |
| `Demo.DemoTraces` | Examples/ErrorHandlingDemo/Sources/main.swift:21-44 | for the demonstration's entries, each error invokes the announcements in place and only its own rule's closures. Timeout and unauthorised are handled; a server error is not |
| `Demo.RunDemo` | Examples/ErrorHandlingDemo/Sources/main.swift:21-44 | the demonstration's chained configuration and three `handle` calls give the results `Handled`, `Handled` and `Unhandled`. Each event log is exactly the closures that error invokes, in registration order, followed by one completion carrying that result |

## Left out

- What the closures do (printing, retrying). A closure call is only an `Invoked` event.
- HandleTwice (and every condition in the model): a Swift condition is a closure that may capture and change state, so it can answer differently on a second call. Here conditions are pure functions `T -> bool`, and evaluating a condition is not an event in the log. Stateful or side-effecting conditions are not covered, and `HandleTwice` holds only for pure ones.
- The error value passed to each closure. Every closure of one `handle` call receives the same error, so the log records only which closure ran.
- The thread-safety claim of `ErrorHandler`. Concurrency is not modelled; the model only keeps the entry list constant after construction.
- `Sources/ErrorHandlingKit/ErrorHandling.swift` is not part of this model:
  - `handleUncaughtError` only prints;
  - `createErrorHandler` only calls the builder's constructor;
  - its top-level `HandlingResult` (with `recovered`) is never used by the handler.
- `Package.swift` (build metadata) and the demonstration's printing.
- Hooks run before or after the entries, an `always` taking a list of closures, a first-match policy, and error propagation out of closures. None of these exists in the Swift code: its closures cannot throw, and `handle` always evaluates every entry.
- Swift's reference identity of closures. Two conditions are the same here when they are the same function.
