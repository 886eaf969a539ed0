/**
 * The scenarios of `LogoutUseCaseTests`, stated as lemmas about `Logout`.
 *
 * Each test double records whether it was called and answers a stubbed
 * value that defaults to `true`; a test overrides some of the stubs and then
 * inspects the error passed to the completion or the doubles' "was called"
 * flags. A flag corresponds to the event's membership in the trace.
 */
module LogoutUseCaseTests {
  import opened Wrappers
  import opened LogoutUseCase

  /** The stubbed answers of the test doubles before a test changes them. */
  const DefaultStubs := Answers(shouldLogOut := true, inSync := true, syncSucceeded := true, logoutSucceeded := true)

  lemma LogoutShowsConfirmationDialog(a: Answers)
    ensures ShowConfirmationDialog in Logout(a).trace
  {
  }

  lemma UserCancelledReturnsUserCancelledError()
    ensures Logout(DefaultStubs.(shouldLogOut := false)).error == Some(UserCancelled)
  {
  }

  lemma LogoutChecksSyncStatus()
    ensures CheckIfDataIsSynced in Logout(DefaultStubs).trace
  {
  }

  lemma DataNotInSyncSyncsData()
    ensures SyncData in Logout(DefaultStubs.(inSync := false)).trace
  {
  }

  lemma SyncFailedReturnsSyncFailedError()
    ensures Logout(DefaultStubs.(inSync := false, syncSucceeded := false)).error == Some(SyncFailed)
  {
  }

  lemma SyncFailedShowsErrorMessage()
    ensures ShowLogoutError in Logout(DefaultStubs.(inSync := false, syncSucceeded := false)).trace
  {
  }

  lemma DataInSyncLogsOut()
    ensures HandlerLogout in Logout(DefaultStubs).trace
  {
  }

  lemma SyncSuccessfulLogsOut()
    ensures HandlerLogout in Logout(DefaultStubs.(inSync := false)).trace
  {
  }

  lemma LogoutFailsReturnsLogoutFailedError()
    ensures Logout(DefaultStubs.(logoutSucceeded := false)).error == Some(LogoutFailed)
  {
  }

  lemma LogoutFailedShowsErrorMessage()
    ensures ShowLogoutError in Logout(DefaultStubs.(logoutSucceeded := false)).trace
  {
  }

  lemma SuccessfulLogoutDoesntShowErrorMessage()
    ensures ShowLogoutError !in Logout(DefaultStubs).trace
  {
  }

  lemma SuccessfulLogoutDoesntReturnError()
    ensures Logout(DefaultStubs).error == None
  {
  }

  /** The complete runs behind the scenarios above, call by call. */
  lemma ScenarioTraces()
    ensures Logout(DefaultStubs.(shouldLogOut := false))
            == Run(false, Some(UserCancelled), [ShowConfirmationDialog, Completion])
    ensures Logout(DefaultStubs)
            == Run(true, None, [ShowConfirmationDialog, CheckIfDataIsSynced, HandlerLogout, Completion])
    ensures Logout(DefaultStubs.(inSync := false))
            == Run(true, None, [ShowConfirmationDialog, CheckIfDataIsSynced, SyncData, HandlerLogout, Completion])
    ensures Logout(DefaultStubs.(inSync := false, syncSucceeded := false))
            == Run(false, Some(SyncFailed), [ShowConfirmationDialog, CheckIfDataIsSynced, SyncData, ShowLogoutError, Completion])
    ensures Logout(DefaultStubs.(logoutSucceeded := false))
            == Run(false, Some(LogoutFailed), [ShowConfirmationDialog, CheckIfDataIsSynced, HandlerLogout, ShowLogoutError, Completion])
  {
  }
}
