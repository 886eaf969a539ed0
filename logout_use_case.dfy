/**
 * The logout workflow of `LogoutUseCase`: confirm with the user, check the
 * sync status, sync if needed, log out, and report one outcome to the
 * completion.
 *
 * The source chains asynchronous callbacks. Here every collaborator's
 * callback answer is an input (`Answers`), and each call the orchestrator
 * makes on a collaborator, or on its own completion, is recorded in order
 * as an `Event` of the returned trace.
 */
module LogoutUseCase {
  import opened Wrappers

  /** The three failure reasons passed to the completion. */
  datatype LogoutError = UserCancelled | SyncFailed | LogoutFailed

  /** One call made during a logout, named after the operation invoked. */
  datatype Event =
    | ShowConfirmationDialog  // logoutConfirmationPresenter.showConfirmationDialog
    | CheckIfDataIsSynced     // syncStatusChecker.checkIfDataIsSynced
    | SyncData                // dataSyncer.syncData
    | HandlerLogout           // logoutHandler.logout
    | ShowLogoutError         // logoutConfirmationPresenter.showLogoutError
    | Completion              // the caller's completion(success, error)

  /** What each collaborator answers to its callback, if it is asked. */
  datatype Answers = Answers(
    shouldLogOut: bool,     // answer of the confirmation dialog
    inSync: bool,           // answer of the sync status check
    syncSucceeded: bool,    // answer of the data syncer
    logoutSucceeded: bool   // answer of the logout handler
  )

  /**
   * The effect of one call of `logout`: the two arguments handed to the
   * completion, and every call made, in order.
   */
  datatype Run = Run(success: bool, error: Option<LogoutError>, trace: seq<Event>)

  /** `r` with the calls in `calls` made before its own. */
  function After(calls: seq<Event>, r: Run): Run
  {
    r.(trace := calls + r.trace)
  }

  // ---------------------------------------------------------------------
  // The orchestrator
  // ---------------------------------------------------------------------

  /**
   * `finish`: the outcome is a success exactly when there is no error; the
   * error dialog is shown on failure only, and the completion is called
   * once, last.
   */
  function Finish(error: Option<LogoutError>): (r: Run)
    ensures r.success <==> error.None?
    ensures r.error == error
    ensures ShowLogoutError in r.trace <==> !r.success
    ensures |r.trace| >= 1 && r.trace[|r.trace| - 1] == Completion
    ensures forall i :: 0 <= i < |r.trace| - 1 ==> r.trace[i] == ShowLogoutError
    ensures |r.trace| == if r.success then 1 else 2
  {
    var success := error.None?;
    Run(success, error, (if !success then [ShowLogoutError] else []) + [Completion])
  }

  /**
   * `doLogout`: calls the logout handler first; its failure becomes
   * `LogoutFailed`, its success the error-free outcome, and the rest is
   * `finish`.
   */
  function DoLogout(logoutSucceeded: bool): (r: Run)
    ensures |r.trace| >= 1 && r.trace[0] == HandlerLogout
    ensures r.error == if logoutSucceeded then None else Some(LogoutFailed)
    ensures r.success <==> logoutSucceeded
    ensures ShowLogoutError in r.trace <==> !logoutSucceeded
    ensures Run(r.success, r.error, r.trace[1..]) == Finish(r.error)
  {
    After([HandlerLogout], Finish(if logoutSucceeded then None else Some(LogoutFailed)))
  }

  /**
   * `logout`: a decline ends the workflow at once with `UserCancelled`,
   * without `finish`; otherwise the sync status is checked, the data is
   * synced when it is not in sync, and a failed sync ends with `SyncFailed`.
   */
  function Logout(a: Answers): (r: Run)
    ensures r.success <==> r.error.None?
    ensures |r.trace| >= 2
    ensures r.trace[0] == ShowConfirmationDialog
    ensures r.trace[|r.trace| - 1] == Completion
  {
    if !a.shouldLogOut then
      Run(false, Some(UserCancelled), [ShowConfirmationDialog, Completion])
    else
      After([ShowConfirmationDialog, CheckIfDataIsSynced],
        if a.inSync then
          DoLogout(a.logoutSucceeded)
        else if a.syncSucceeded then
          After([SyncData], DoLogout(a.logoutSucceeded))
        else
          After([SyncData], Finish(Some(SyncFailed))))
  }

  // ---------------------------------------------------------------------
  // A reference specification of the workflow
  // ---------------------------------------------------------------------

  /**
   * The error reported: a cancellation, or else that of the first collaborator
   * that reported a failure. The sync status check never reports one: "not in
   * sync" leads to a sync.
   */
  function ExpectedError(a: Answers): Option<LogoutError>
  {
    if !a.shouldLogOut then Some(UserCancelled)
    else if !a.inSync && !a.syncSucceeded then Some(SyncFailed)
    else if !a.logoutSucceeded then Some(LogoutFailed)
    else None
  }

  /** Whether a logout with answers `a` makes the call `e`. */
  predicate Invokes(a: Answers, e: Event)
  {
    match e
    case ShowConfirmationDialog => true
    case CheckIfDataIsSynced => a.shouldLogOut
    case SyncData => a.shouldLogOut && !a.inSync
    case HandlerLogout => a.shouldLogOut && (a.inSync || a.syncSucceeded)
    case ShowLogoutError => ExpectedError(a) == Some(SyncFailed) || ExpectedError(a) == Some(LogoutFailed)
    case Completion => true
  }

  /** The position of each call in the workflow's fixed order. */
  function Rank(e: Event): nat
  {
    match e
    case ShowConfirmationDialog => 0
    case CheckIfDataIsSynced => 1
    case SyncData => 2
    case HandlerLogout => 3
    case ShowLogoutError => 4
    case Completion => 5
  }

  /** Each call of `t` comes strictly later in the workflow's order than the one before it. */
  predicate StrictlyOrdered(t: seq<Event>)
  {
    forall i :: 0 < i < |t| ==> Rank(t[i - 1]) < Rank(t[i])
  }

  /** Whether `a` and `b` give the same answer to every call made in `t`. */
  predicate AgreeOnCalls(a: Answers, b: Answers, t: seq<Event>)
  {
    && (ShowConfirmationDialog in t ==> a.shouldLogOut == b.shouldLogOut)
    && (CheckIfDataIsSynced in t ==> a.inSync == b.inSync)
    && (SyncData in t ==> a.syncSucceeded == b.syncSucceeded)
    && (HandlerLogout in t ==> a.logoutSucceeded == b.logoutSucceeded)
  }

  // ---------------------------------------------------------------------
  // Facts about ordered traces
  // ---------------------------------------------------------------------

  /** Order between neighbours extends to order between any two calls. */
  lemma {:induction false} OrderedPairwise(t: seq<Event>)
    requires StrictlyOrdered(t)
    ensures forall i, j :: 0 <= i < j < |t| ==> Rank(t[i]) < Rank(t[j])
    decreases |t|
  {
    if |t| >= 2 {
      var init := t[..|t| - 1];
      assert StrictlyOrdered(init) by {
        forall i | 0 < i < |init|
          ensures Rank(init[i - 1]) < Rank(init[i])
        {
          assert init[i - 1] == t[i - 1] && init[i] == t[i];
        }
      }
      OrderedPairwise(init);
      forall i, j | 0 <= i < j < |t|
        ensures Rank(t[i]) < Rank(t[j])
      {
        if j < |t| - 1 {
          assert init[i] == t[i] && init[j] == t[j];
        } else if i < j - 1 {
          assert init[i] == t[i] && init[j - 1] == t[j - 1];
          assert Rank(t[j - 1]) < Rank(t[j]);
        }
      }
    }
  }

  /** Dropping the first call keeps the order, and removes that call entirely. */
  lemma StrictlyOrderedTail(t: seq<Event>)
    requires |t| >= 1 && StrictlyOrdered(t)
    ensures StrictlyOrdered(t[1..])
    ensures t[0] !in t[1..]
    ensures forall e :: e in t[1..] <==> e in t && e != t[0]
  {
    OrderedPairwise(t);
    forall k | 0 <= k < |t| - 1
      ensures t[1..][k] != t[0]
    {
      assert Rank(t[0]) < Rank(t[k + 1]);
    }
    forall i | 0 < i < |t| - 1
      ensures Rank(t[1..][i - 1]) < Rank(t[1..][i])
    {
      assert t[1..][i - 1] == t[i] && t[1..][i] == t[i + 1];
    }
  }

  /** In an ordered trace no call occurs twice. */
  lemma {:induction false} OrderedAtMostOnce(t: seq<Event>, e: Event)
    requires StrictlyOrdered(t)
    ensures multiset(t)[e] <= 1
  {
    if t != [] {
      assert t == [t[0]] + t[1..];
      StrictlyOrderedTail(t);
      OrderedAtMostOnce(t[1..], e);
    }
  }

  /** An ordered trace is determined by which calls it contains. */
  lemma {:induction false} OrderedDeterminedByElements(s: seq<Event>, t: seq<Event>)
    requires StrictlyOrdered(s) && StrictlyOrdered(t)
    requires forall e :: e in s <==> e in t
    ensures s == t
    decreases |s|
  {
    if s != [] {
      assert s[0] in t;
    }
    if t != [] {
      assert t[0] in s;
    }
    if s != [] {
      OrderedPairwise(s);
      OrderedPairwise(t);
      var k :| 0 <= k < |t| && t[k] == s[0];
      var m :| 0 <= m < |s| && s[m] == t[0];
      assert s[0] == t[0];
      StrictlyOrderedTail(s);
      StrictlyOrderedTail(t);
      OrderedDeterminedByElements(s[1..], t[1..]);
      assert s == [s[0]] + s[1..] && t == [t[0]] + t[1..];
    }
  }

  // ---------------------------------------------------------------------
  // Properties of `Logout`
  // ---------------------------------------------------------------------

  /** The error reported is a cancellation, or that of the first collaborator that reported a failure. */
  lemma LogoutReportsExpectedError(a: Answers)
    ensures Logout(a).error == ExpectedError(a)
  {
  }

  /** The sync status is checked exactly when the user confirmed. */
  lemma SyncCheckIffConfirmed(a: Answers)
    ensures CheckIfDataIsSynced in Logout(a).trace <==> a.shouldLogOut
  {
  }

  /** The data is synced exactly when the user confirmed and it was not in sync. */
  lemma SyncIffNotInSync(a: Answers)
    ensures SyncData in Logout(a).trace <==> a.shouldLogOut && !a.inSync
  {
  }

  /** The logout handler is called exactly when confirmed and in sync or synced. */
  lemma LogoutCalledIff(a: Answers)
    ensures HandlerLogout in Logout(a).trace <==> a.shouldLogOut && (a.inSync || a.syncSucceeded)
  {
  }

  /** A logout makes its calls in the workflow's order. */
  lemma LogoutTraceOrdered(a: Answers)
    ensures StrictlyOrdered(Logout(a).trace)
  {
  }

  /** The error dialog is shown exactly on the sync and logout failures. */
  lemma ShowErrorIffFailure(a: Answers)
    ensures var r := Logout(a);
            ShowLogoutError in r.trace <==> r.error == Some(SyncFailed) || r.error == Some(LogoutFailed)
  {
  }

  /** The error dialog is shown at most once, and right before the completion. */
  lemma ShowErrorOnceBeforeCompletion(a: Answers)
    ensures multiset(Logout(a).trace)[ShowLogoutError] <= 1
    ensures var t := Logout(a).trace;
            ShowLogoutError in t ==> t[|t| - 2] == ShowLogoutError
  {
    var t := Logout(a).trace;
    LogoutTraceOrdered(a);
    OrderedAtMostOnce(t, ShowLogoutError);
  }

  /** A logout makes exactly the calls the specification names. */
  lemma LogoutMakesSpecifiedCalls(a: Answers)
    ensures forall e :: e in Logout(a).trace <==> Invokes(a, e)
  {
    forall e
      ensures e in Logout(a).trace <==> Invokes(a, e)
    {
      match e
      case ShowConfirmationDialog =>
      case CheckIfDataIsSynced => SyncCheckIffConfirmed(a);
      case SyncData => SyncIffNotInSync(a);
      case HandlerLogout => LogoutCalledIff(a);
      case ShowLogoutError => ShowErrorIffFailure(a); LogoutReportsExpectedError(a);
      case Completion =>
    }
  }

  /** A logout meets the reference specification. */
  lemma LogoutMeetsSpec(a: Answers)
    ensures Logout(a).error == ExpectedError(a)
    ensures forall e :: e in Logout(a).trace <==> Invokes(a, e)
    ensures StrictlyOrdered(Logout(a).trace)
  {
    LogoutReportsExpectedError(a);
    LogoutMakesSpecifiedCalls(a);
    LogoutTraceOrdered(a);
  }

  /** The specification leaves exactly one trace possible: that of `Logout`. */
  lemma SpecDeterminesTrace(a: Answers, t: seq<Event>)
    requires StrictlyOrdered(t)
    requires forall e :: e in t <==> Invokes(a, e)
    ensures t == Logout(a).trace
  {
    LogoutMeetsSpec(a);
    OrderedDeterminedByElements(t, Logout(a).trace);
  }

  /** Declining the confirmation cancels without any further call. */
  lemma DeclineCancels(a: Answers)
    requires !a.shouldLogOut
    ensures Logout(a) == Run(false, Some(UserCancelled), [ShowConfirmationDialog, Completion])
  {
  }

  /** The outcome is `UserCancelled` exactly when the user declined. */
  lemma CancelledIffDeclined(a: Answers)
    ensures Logout(a).error == Some(UserCancelled) <==> !a.shouldLogOut
  {
  }

  /** Every logout ends in exactly one of the four outcomes. */
  lemma OneOfFourOutcomes(a: Answers)
    ensures var r := Logout(a);
            || (r.success && r.error == None)
            || (!r.success && r.error == Some(UserCancelled))
            || (!r.success && r.error == Some(SyncFailed))
            || (!r.success && r.error == Some(LogoutFailed))
  {
  }

  /** A failed sync ends with `SyncFailed`, and the logout handler is not called. */
  lemma SyncFailureSkipsLogout(a: Answers)
    requires a.shouldLogOut && !a.inSync && !a.syncSucceeded
    ensures !Logout(a).success && Logout(a).error == Some(SyncFailed)
    ensures HandlerLogout !in Logout(a).trace
  {
  }

  /** Once the logout handler is called, its answer alone decides the outcome. */
  lemma LogoutAnswerDecidesOutcome(a: Answers)
    requires HandlerLogout in Logout(a).trace
    ensures a.logoutSucceeded ==> Logout(a).success && Logout(a).error == None
    ensures !a.logoutSucceeded ==> !Logout(a).success && Logout(a).error == Some(LogoutFailed)
  {
  }

  /**
   * Calls follow the order confirm, check, sync, logout, error dialog,
   * completion; each happens at most once, and the completion exactly once,
   * last.
   */
  lemma CallsOrderedOnceCompletionLast(a: Answers)
    ensures StrictlyOrdered(Logout(a).trace)
    ensures forall e :: multiset(Logout(a).trace)[e] <= 1
    ensures multiset(Logout(a).trace)[Completion] == 1
    ensures Logout(a).trace[|Logout(a).trace| - 1] == Completion
  {
    LogoutMeetsSpec(a);
    forall e {
      OrderedAtMostOnce(Logout(a).trace, e);
    }
  }

  /** Answers of collaborators that were never asked do not change the run. */
  lemma OnlyAskedAnswersMatter(a: Answers, b: Answers)
    requires AgreeOnCalls(a, b, Logout(a).trace)
    ensures Logout(a) == Logout(b)
  {
  }
}
