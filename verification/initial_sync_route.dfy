/** The initial-sync endpoint that the OAuth callback triggers: request checks, the full
    sync, and the writes, with the cursor saved BEFORE the messages are stored. */
module InitialSyncRoute {
  import opened Wrappers
  import opened Text
  import opened SyncToDb
  import opened Provider
  import opened Accounts
  import opened UpdateEmails

  /** The HTTP answer; none while the sync is still waiting on the provider; or the
      handler throwing `error`, which it leaves to the framework to answer. */
  datatype Response = Status(code: int) | NoResponse | Crashed(error: string)

  datatype RouteRun = RouteRun(response: Response, db: Db, effects: seq<Effect>)

  /** `POST /api/initial-sync` with body `{accountId, userId}`. */
  function InitialSyncPost(db: Db, accountId: Option<string>, userId: Option<string>,
                           starts: seq<Result<SyncStart, string>>, replies: seq<Result<Page, string>>, env: Env): (r: RouteRun)
    ensures !Given(accountId) || !Given(userId) ==> r == RouteRun(Status(400), db, [])
    ensures Given(accountId) && Given(userId) && !OwnedBy(db, accountId.value, userId.value) ==>
      r == RouteRun(Status(404), db, [])
    ensures r.response == Status(200) <==>
      Given(accountId) && Given(userId) && OwnedBy(db, accountId.value, userId.value)
      && PerformInitialSync(starts, replies).0.Synced? && env.indexError.None?
    ensures r.response == Status(500) <==>
      Given(accountId) && Given(userId) && OwnedBy(db, accountId.value, userId.value)
      && PerformInitialSync(starts, replies).0.Undefined?
    ensures r.response.Crashed? <==>
      Given(accountId) && Given(userId) && OwnedBy(db, accountId.value, userId.value)
      && PerformInitialSync(starts, replies).0.Synced? && env.indexError.Some?
    ensures r.response != Status(200) && !r.response.Crashed? ==> r.db == db && r.effects == []
    ensures r.response == Status(200) || r.response.Crashed? ==>
      var (emails, token) := (PerformInitialSync(starts, replies).0.emails, PerformInitialSync(starts, replies).0.deltaToken);
      && accountId.Some? && accountId.value in r.db.accounts
      && r.db.accounts[accountId.value].nextDeltaToken == Some(token)
      && (r.response == Status(200) ==>
            && r.effects == [SaveCursor(token), StoreEmails(|emails|)]
            && r.db.store == ReconcileBatch(db.store, accountId.value, emails, env))
      && (r.response.Crashed? ==>
            && r.response.error == env.indexError.value
            && r.effects == [SaveCursor(token)]
            && r.db.store == db.store)
  {
    if !Given(accountId) || !Given(userId) then RouteRun(Status(400), db, [])
    else if !OwnedBy(db, accountId.value, userId.value) then RouteRun(Status(404), db, [])
    else
      match PerformInitialSync(starts, replies).0
      case Undefined => RouteRun(Status(500), db, [])
      case Running => RouteRun(NoResponse, db, [])
      case Synced(emails, token) =>
        var saved := UpdateDeltaToken(db, token, accountId.value);
        match SyncEmailsToDatabase(saved.store, accountId.value, emails, env)
        case Err(e) => RouteRun(Crashed(e), saved, [SaveCursor(token)])
        case Ok(st) => RouteRun(Status(200), saved.(store := st), [SaveCursor(token), StoreEmails(|emails|)])
  }

  /** The two entry points write in opposite orders: for an account without a cursor, a
      completed first sync with a non-empty batch and a non-empty delta token leaves the
      same database through either, but the route saves the cursor first and `updateEmail`
      stores the messages first. The order shows when storing fails: `updateEmail` keeps
      the old cursor, while the route has already saved the new one, so that batch is never
      stored. The route also saves an empty delta token, which `updateEmail` rejects. */
  lemma OppositeWriteOrders(db: Db, userId: string, accountId: string,
                            starts: seq<Result<SyncStart, string>>, replies: seq<Result<Page, string>>, env: Env)
    requires Truthy(userId) && Truthy(accountId) && OwnedBy(db, accountId, userId)
    requires HasUsableAccount(db, accountId) && !HasCursor(db.accounts[accountId])
    requires PerformInitialSync(starts, replies).0.Synced?
    ensures var s := PerformInitialSync(starts, replies).0;
      var route := InitialSyncPost(db, Some(accountId), Some(userId), starts, replies, env);
      var update := UpdateEmail(db, Some(userId), accountId, starts, replies, env);
      && (env.indexError.None? ==> route.effects == [SaveCursor(s.deltaToken), StoreEmails(|s.emails|)])
      && (Truthy(s.deltaToken) && |s.emails| > 0 && env.indexError.None? ==>
            && update.effects == [StoreEmails(|s.emails|), SaveCursor(s.deltaToken)]
            && update.db == route.db)
      && (!Truthy(s.deltaToken) && env.indexError.None? ==> update.outcome.Threw? && route.response == Status(200))
      && (Truthy(s.deltaToken) && |s.emails| > 0 && env.indexError.Some? ==>
            && update.outcome == Threw("Failed to store emails: " + env.indexError.value)
            && update.db == db
            && route.response == Crashed(env.indexError.value)
            && route.effects == [SaveCursor(s.deltaToken)]
            && route.db.store == db.store
            && route.db.accounts[accountId].nextDeltaToken == Some(s.deltaToken))
  {
    if env.indexError.Some? {
      StoreFailureKeepsCursor(db, Some(userId), accountId, starts, replies, env);
    }
  }
}
