# Logout use case, modelled in Dafny

`LogoutUseCase` runs one logout as a chain of four collaborator calls:
1. The confirmation presenter asks the user whether to log out.
2. The sync status checker reports whether the local data is in sync.
3. If the data is not in sync, the data syncer syncs it.
4. The logout handler logs out.

The chain ends with one call of the caller's completion, which receives `(success, error)`. The presenter's error dialog is shown first when the workflow fails for a reason other than the user's cancellation.

Each collaborator hands its answer to a callback. The model takes those four yes/no answers as an input value, `Answers`. `Logout`, `DoLogout` and `Finish` are pure functions named after `logout`, `doLogout` and `finish`, and they branch exactly as the callbacks do. Each returns a `Run`:
- the `success` flag and the optional `LogoutError` handed to the completion;
- the trace of calls made, in order: `ShowConfirmationDialog`, `CheckIfDataIsSynced`, `SyncData`, `HandlerLogout` (the logout handler's `logout`), `ShowLogoutError` and `Completion`.

The orchestrator keeps no mutable state: its four collaborators are constants fixed at construction. So the whole behaviour is a function of the answers.

Files:
- `wrappers.dfy`: the `Option` type used for the completion's `LogoutError?` argument.
- `logout_use_case.dfy`: module `LogoutUseCase`. It holds the error and event types, the three functions of the orchestrator, and a reference specification:
  - `ExpectedError`: `UserCancelled` when the user declined, otherwise the error of the first collaborator that reported a failure. The sync status check never reports one.
  - `Invokes`: which calls a run makes, depending on the answers.
  - `StrictlyOrdered`: the calls follow the fixed order of the workflow.
  
  The module's lemmas prove that `Logout` meets this specification. They also prove that the specification leaves exactly one trace possible, together with the individual properties of the workflow.
- `logout_use_case_tests.dfy`: module `LogoutUseCaseTests`, one lemma per unit test. The lemmas start from the test doubles' default stubs, which are all `true`.

## Model

| member | source | states |
|---|---|---|
| `LogoutUseCase.Finish` | TestSupportedDevelopmentDemo/LogoutUseCase.swift:59-67 | success is reported exactly when there is no error; the error is passed through; the error dialog is shown exactly on failure, once, and only before the completion; the completion is the last call |
| `LogoutUseCase.DoLogout` | TestSupportedDevelopmentDemo/LogoutUseCase.swift:49-57 | the logout handler is called first; its failure becomes `LogoutFailed` and its success no error; success and the error dialog follow the handler's answer; the rest of the run is `Finish` of that error |
| `LogoutUseCase.Logout` | TestSupportedDevelopmentDemo/LogoutUseCase.swift:25-47 | on every path success holds exactly when the error is nil; the confirmation dialog is the first call and the completion the last |
| `LogoutUseCase.OrderedPairwise` | TestSupportedDevelopmentDemo/LogoutUseCase.swift:25-67 | when each call comes later in the workflow order than the one before it, every call comes later than all earlier calls |
| `LogoutUseCase.StrictlyOrderedTail` | TestSupportedDevelopmentDemo/LogoutUseCase.swift:25-67 | dropping the first call of an ordered trace leaves an ordered trace that no longer contains that call |
| `LogoutUseCase.OrderedAtMostOnce` | TestSupportedDevelopmentDemo/LogoutUseCase.swift:25-67 | in an ordered trace every call occurs at most once |
| `LogoutUseCase.OrderedDeterminedByElements` | TestSupportedDevelopmentDemo/LogoutUseCase.swift:25-67 | two ordered traces that contain the same calls are equal |
| `LogoutUseCase.LogoutReportsExpectedError` | TestSupportedDevelopmentDemo/LogoutUseCase.swift:25-67 | the error given to the completion is `UserCancelled` when the user declined, otherwise that of the first collaborator that reported a failure (sync failed, logout failed), or none; the sync status check never reports a failure |
| `LogoutUseCase.SyncCheckIffConfirmed` | TestSupportedDevelopmentDemo/LogoutUseCase.swift:26-32 | the sync status is checked if and only if the user confirmed |
| `LogoutUseCase.SyncIffNotInSync` | TestSupportedDevelopmentDemo/LogoutUseCase.swift:32-36 | the data is synced if and only if the user confirmed and the data was reported as not in sync |
| `LogoutUseCase.LogoutCalledIff` | TestSupportedDevelopmentDemo/LogoutUseCase.swift:32-50 | the logout handler is called if and only if the user confirmed and the data was in sync or the sync succeeded |
| `LogoutUseCase.LogoutTraceOrdered` | TestSupportedDevelopmentDemo/LogoutUseCase.swift:25-67 | calls are made in the order confirm, check, sync, logout, error dialog, completion |
| `LogoutUseCase.ShowErrorIffFailure` | TestSupportedDevelopmentDemo/LogoutUseCase.swift:59-66 | the error dialog is shown if and only if the error is `SyncFailed` or `LogoutFailed`, so never on success or cancellation |
| `LogoutUseCase.ShowErrorOnceBeforeCompletion` | TestSupportedDevelopmentDemo/LogoutUseCase.swift:59-66 | the error dialog is shown at most once, and only as the call right before the completion |
| `LogoutUseCase.LogoutMakesSpecifiedCalls` | TestSupportedDevelopmentDemo/LogoutUseCase.swift:25-67 | a run contains a call exactly when the reference specification `Invokes` says that call is made |
| `LogoutUseCase.LogoutMeetsSpec` | TestSupportedDevelopmentDemo/LogoutUseCase.swift:25-67 | a run reports the expected error, makes exactly the specified calls, and makes them in the workflow's order |
| `LogoutUseCase.SpecDeterminesTrace` | TestSupportedDevelopmentDemo/LogoutUseCase.swift:25-67 | every ordered trace that makes exactly the specified calls is the trace of `Logout`, so the specification is complete |
| `LogoutUseCase.DeclineCancels` | TestSupportedDevelopmentDemo/LogoutUseCase.swift:26-30 | a declined confirmation gives `(false, UserCancelled)`; only the dialog and the completion are called, with no sync check, sync, logout or error dialog |
| `LogoutUseCase.CancelledIffDeclined` | TestSupportedDevelopmentDemo/LogoutUseCase.swift:26-55 | the error is `UserCancelled` if and only if the user declined |
| `LogoutUseCase.OneOfFourOutcomes` | TestSupportedDevelopmentDemo/LogoutUseCase.swift:25-67 | every run ends in exactly one of `(true, nil)`, `(false, UserCancelled)`, `(false, SyncFailed)` and `(false, LogoutFailed)` |
| `LogoutUseCase.SyncFailureSkipsLogout` | TestSupportedDevelopmentDemo/LogoutUseCase.swift:36-41 | a failed sync gives `(false, SyncFailed)`, and the logout handler is never called |
| `LogoutUseCase.LogoutAnswerDecidesOutcome` | TestSupportedDevelopmentDemo/LogoutUseCase.swift:49-56 | once the logout handler is called, its success gives `(true, nil)` and its failure gives `(false, LogoutFailed)` |
| `LogoutUseCase.CallsOrderedOnceCompletionLast` | TestSupportedDevelopmentDemo/LogoutUseCase.swift:25-67 | calls are in workflow order, each occurs at most once, and the completion occurs exactly once and last |
| `LogoutUseCase.OnlyAskedAnswersMatter` | TestSupportedDevelopmentDemo/LogoutUseCase.swift:25-56 | two sets of answers that agree on every collaborator actually asked give the same run |
| `LogoutUseCaseTests.LogoutShowsConfirmationDialog` | TestSupportedDevelopmentDemoTests/LogoutUseCaseTests.swift:24-27 | the confirmation dialog is shown on every run, whatever the answers |
| `LogoutUseCaseTests.UserCancelledReturnsUserCancelledError` | TestSupportedDevelopmentDemoTests/LogoutUseCaseTests.swift:29-34 | a declined confirmation reports `UserCancelled` |
| `LogoutUseCaseTests.LogoutChecksSyncStatus` | TestSupportedDevelopmentDemoTests/LogoutUseCaseTests.swift:36-39 | with the default stubs the sync status is checked |
| `LogoutUseCaseTests.DataNotInSyncSyncsData` | TestSupportedDevelopmentDemoTests/LogoutUseCaseTests.swift:41-45 | data not in sync is synced |
| `LogoutUseCaseTests.SyncFailedReturnsSyncFailedError` | TestSupportedDevelopmentDemoTests/LogoutUseCaseTests.swift:47-53 | a failed sync reports `SyncFailed` |
| `LogoutUseCaseTests.SyncFailedShowsErrorMessage` | TestSupportedDevelopmentDemoTests/LogoutUseCaseTests.swift:55-60 | a failed sync shows the error dialog |
| `LogoutUseCaseTests.DataInSyncLogsOut` | TestSupportedDevelopmentDemoTests/LogoutUseCaseTests.swift:62-65 | with data in sync the logout handler is called |
| `LogoutUseCaseTests.SyncSuccessfulLogsOut` | TestSupportedDevelopmentDemoTests/LogoutUseCaseTests.swift:67-71 | after a successful sync the logout handler is called |
| `LogoutUseCaseTests.LogoutFailsReturnsLogoutFailedError` | TestSupportedDevelopmentDemoTests/LogoutUseCaseTests.swift:73-78 | a failed logout reports `LogoutFailed` |
| `LogoutUseCaseTests.LogoutFailedShowsErrorMessage` | TestSupportedDevelopmentDemoTests/LogoutUseCaseTests.swift:80-84 | a failed logout shows the error dialog |
| `LogoutUseCaseTests.SuccessfulLogoutDoesntShowErrorMessage` | TestSupportedDevelopmentDemoTests/LogoutUseCaseTests.swift:86-89 | a successful logout does not show the error dialog |
| `LogoutUseCaseTests.SuccessfulLogoutDoesntReturnError` | TestSupportedDevelopmentDemoTests/LogoutUseCaseTests.swift:91-95 | a successful logout reports no error |
| `LogoutUseCaseTests.ScenarioTraces` | TestSupportedDevelopmentDemoTests/LogoutUseCaseTests.swift:24-95 | the full outcome and call sequence of each tested scenario: cancelled, in sync, synced, sync failed, logout failed |

## Left out

- Asynchrony: each callback is modelled as an answer that has already been delivered. When the callbacks run, and on which thread, is not modelled.
- A collaborator that never calls back, or calls back more than once: the source sets no timeout, so the first kind of run never reaches the completion, and each repeated callback would run the rest of the workflow again, completion included. The model assumes that every collaborator it asks answers exactly once.
- The collaborators' own behaviour: dialog UI, network sync and session clearing. They appear only through their yes/no answers and the calls recorded in the trace.
- The initialiser (`LogoutUseCase.swift:15-23`) only stores the four collaborators, so the model does not represent it. Its effect is that `Logout` receives the collaborators' answers as its parameter.
- The `UserDataDeleting` protocol (`LogoutUseCase.swift:87-89`) is declared but never used by the use case.
- The XCTest harness and the mock classes (`LogoutUseCaseTests.swift:98-137`) are not modelled as code. Only their default stubs (all `true`) appear, as `LogoutUseCaseTests.DefaultStubs`.
- Repeated calls of `logout` on one instance need no lemma. `Logout` is a function of the answers, so identical stubs always give the same outcome and the same calls.
