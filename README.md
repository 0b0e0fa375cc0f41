# Deeplink manager, modelled in Dafny

This project models the `DeeplinkManager` of SwiftDeeplinking. The manager lets
several screens of an app take part in handling one incoming deeplink. It holds:

- an ordered registry of handlers, each an id plus a function from a link to a
  `DeeplinkHandlerResult` (`fullyHandled`, `partiallyHandled`, `notHandled`);
- at most one pending link;
- a flag saying whether some handler is still handling that link.

`handle` runs a link through every handler in registration order. It never stops
early, so the last handler that returns something other than `notHandled` decides
whether the link stays pending. `register` appends a handler and replays a pending
link to it once. `unregister` removes the first handler with a given id.

Files:

- `option.dfy`: `Optional.Option`, for Swift optionals and failed searches.
- `handler_result.dfy`: `HandlerResults.DeeplinkHandlerResult`, the three-valued verdict.
- `dispatch_policy.dfy`: `DispatchPolicy`, the pure specification. `FoldFlag` is the
  flag update of the `handle` loop. `AfterHandle` and `AfterReplay` give the
  pending state after a dispatch and after a replay. The lemmas pin down the
  "last definitive result wins" policy.
- `deeplink_manager.dfy`: `Manager`, the registry helpers and the class
  `DeeplinkManager`. Its fields `pendingDeeplink`, `isHandlingPendingDeeplink` and
  `handlers` are updated in place by `Handle`, `Register` and `Unregister`. A ghost
  field `invocations` logs every handler call, so the contracts can say which
  handlers ran, in which order, on which link.

The class invariant `Valid()` says two things: a link is pending exactly while the
flag is set, and no two handlers share an id. The constructor establishes it and
every method preserves it.

## Model

| member | source | states |
|---|---|---|
| `DispatchPolicy.LastDefinitive` | Sources/SwiftDeeplinking/DeeplinkManager.swift:18-31 | Finds the position of the last handler result that is not `notHandled`. That result is definitive and every later one is `notHandled`. The search finds nothing exactly when every result is `notHandled`. |
| `DispatchPolicy.FlagIsLastDefinitive` | Sources/SwiftDeeplinking/DeeplinkManager.swift:16-31 | The flag left by the loop depends only on the last definitive result: it is set iff that result is `partiallyHandled`. With no definitive result, the flag keeps its starting value. |
| `DispatchPolicy.FoldFlagAppend` | Sources/SwiftDeeplinking/DeeplinkManager.swift:18-31 | Running two groups of handlers one after the other equals running the second group from the flag the first group left. |
| `DispatchPolicy.AfterHandle` | Sources/SwiftDeeplinking/DeeplinkManager.swift:14-38 | After a dispatch, a link is pending iff the flag is set, and any pending link is the dispatched one. |
| `DispatchPolicy.AfterReplay` | Sources/SwiftDeeplinking/DeeplinkManager.swift:48-62 | A replay keeps pending and flag consistent. It clears the pending link exactly when the new handler returns `fullyHandled`; otherwise the same link stays pending. |
| `DispatchPolicy.HandleOutcome` | Sources/SwiftDeeplinking/DeeplinkManager.swift:15-37 | After a dispatch, the flag is set iff some handler returned `partiallyHandled` and every later handler returned `notHandled`. An all-`notHandled` run, including an empty registry, leaves nothing pending. |
| `DispatchPolicy.LastDefinitiveWins` | Sources/SwiftDeeplinking/DeeplinkManager.swift:18-31 | If later handlers include a definitive result, nothing earlier handlers returned affects the outcome, not even `fullyHandled`. The iteration does not short-circuit. |
| `DispatchPolicy.ReplayMatchesDispatch` | Sources/SwiftDeeplinking/DeeplinkManager.swift:48-62 | Replaying a still-pending link to one more result gives the same state as a dispatch with that result appended at the end. |
| `Manager.FirstIndexOf` | Sources/SwiftDeeplinking/DeeplinkManager.swift:71 | Finds the first registry position whose id matches, with no match before it. The search finds nothing exactly when the id is not registered. |
| `Manager.RemoveAt` | Sources/SwiftDeeplinking/DeeplinkManager.swift:77 | Removing position `i` shortens the registry by one. Entries before `i` stay where they are and later entries move down by one, so their relative order is kept. |
| `Manager.RemoveFirstMatch` | Sources/SwiftDeeplinking/DeeplinkManager.swift:70-78 | Removing the first entry with an id from a registry with unique ids keeps the ids unique. Afterwards that id is gone and every other id is still present. |
| `Manager.KeptId` | Sources/SwiftDeeplinking/DeeplinkManager.swift:77 | In a registry with unique ids, after removing position `i` (whose id is `id`), an id `x` is still present iff it was present before and `x` is not `id`. |
| `Manager.LateRegistrationMatchesEarly` | Sources/SwiftDeeplinking/DeeplinkManager.swift:40-62 | A handler registered while a link is still pending ends in the same pending state as if it had been registered before the dispatch. |
| `Manager.DeeplinkManager.constructor` | Sources/SwiftDeeplinking/DeeplinkManager.swift:8-12 | A new manager has no pending link, a cleared flag, an empty registry and no handler calls; the invariant holds. |
| `Manager.DeeplinkManager.Handle` | Sources/SwiftDeeplinking/DeeplinkManager.swift:14-38 | Calls every registered handler exactly once, in registration order, on the link. The log grows by exactly the registry's ids, and the registry does not change. The new pending state is `AfterHandle` of the handlers' results, and the invariant is preserved. |
| `Manager.DeeplinkManager.Register` | Sources/SwiftDeeplinking/DeeplinkManager.swift:40-68 | Appends exactly one entry, the fresh id with the handler, at the end and returns that id. With no pending link, nothing is called and the state is unchanged. With a pending link, the new handler is called once on it and the state becomes `AfterReplay` of its result. The invariant is preserved. |
| `Manager.DeeplinkManager.Unregister` | Sources/SwiftDeeplinking/DeeplinkManager.swift:70-78 | If the id is registered, removes exactly its first entry (`RemoveAt` at `FirstIndexOf`) and the id is gone afterwards. If it is not registered, the registry is unchanged and the result is false. The pending state and the call log never change, and the invariant is preserved. |

## Left out

- UUID generation (DeeplinkManager.swift:41) is a foreign call. `Register` takes the id as a parameter and requires that no registered handler uses it, which is the uniqueness the code gets from UUIDs.
- Handlers are modelled as total, pure functions. Their side effects, and handlers that re-enter `handle`, `register` or `unregister` while the loop runs, are not modelled.
- The debug-build trap of `assertionFailure` (DeeplinkManager.swift:72) is not modelled. `assertionFailure` marks an unknown id as a programmer error; release builds return without any change, and the model follows that path. `Unregister` also returns `found` so that the unknown-id case can be seen.
- Handler ids are compared as sequences of code points. Swift `String` equality uses Unicode canonical equivalence; the two agree on UUID strings, which are ASCII hex digits and hyphens.
- `ObservableObject` conformance, the empty `Deeplinkable` marker protocol (a type parameter `Link` here) and the commented-out logging are not modelled.
- Sources/SwiftDeeplinking/View+Extensions.swift, the SwiftUI glue that registers on appear and unregisters on disappear, is not part of this model.
