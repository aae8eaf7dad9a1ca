/** The on-demand sync of one account: authentication and input checks, the choice
    between a first full sync and a delta fetch from the stored cursor, storing the
    fetched messages, and only then advancing the cursor. */
module UpdateEmails {
  import opened Wrappers
  import opened Text
  import opened SyncToDb
  import opened Provider
  import opened Accounts

  /** A write the sync makes, in the order it makes them. */
  datatype Effect = StoreEmails(count: nat) | SaveCursor(token: string)

  /** How a sync ends: done, thrown with a message, or still waiting on the provider. */
  datatype Outcome = Completed | Threw(message: string) | StillRunning

  /** The result of a run: its outcome, the database afterwards, the writes made and the
      page requests sent to the provider. */
  datatype Run = Run(outcome: Outcome, db: Db, effects: seq<Effect>, requests: seq<Request>)

  /** The database must hold an account under `accountId` with a non-empty access token. */
  predicate HasUsableAccount(db: Db, accountId: string) {
    accountId in db.accounts && Truthy(db.accounts[accountId].accessToken)
  }

  /** The stored cursor is usable for a delta fetch: present and not empty. */
  predicate HasCursor(a: AccountRow) {
    a.nextDeltaToken.Some? && Truthy(a.nextDeltaToken.value)
  }

  /** What the sync call yields: a result (possibly `undefined`), a thrown error, or no
      answer yet. */
  datatype SyncCall = Result(value: Option<(seq<EmailMessage>, string)>, requests: seq<Request>)
                    | SyncThrew(error: string, requests: seq<Request>)
                    | SyncRunning(requests: seq<Request>)

  /** Step 4: the initial sync when there is no usable cursor (its errors come back as
      `undefined`), else the delta fetch from the cursor (its errors are thrown). */
  function RunSync(a: AccountRow, starts: seq<Result<SyncStart, string>>, replies: seq<Result<Page, string>>): SyncCall {
    if !HasCursor(a) then
      var (r, rs) := PerformInitialSync(starts, replies);
      match r
      case Synced(es, d) => Result(Some((es, d)), rs)
      case Undefined => Result(None, rs)
      case Running => SyncRunning(rs)
    else
      match GetEmailDeltaToken(a.nextDeltaToken.value, replies)
      case Fetched(es, d, rs) => Result(Some((es, d)), rs)
      case Failed(e, rs) => SyncThrew(e, rs)
      case Pending(rs) => SyncRunning(rs)
  }

  /** `updateEmail(accountId)` for the signed-in user `userId`. */
  function UpdateEmail(db: Db, userId: Option<string>, accountId: string,
                       starts: seq<Result<SyncStart, string>>, replies: seq<Result<Page, string>>, env: Env): (r: Run)
    ensures userId.None? || !Truthy(userId.value) ==> r == Run(Threw("Unauthorized: No user ID found"), db, [], [])
    ensures r.outcome != Completed ==> r.db == db && r.effects == []
    ensures r.requests != [] ==> userId.Some? && Truthy(userId.value) && HasUsableAccount(db, accountId) && Truthy(accountId)
    ensures r.outcome.Completed? ==>
      && HasUsableAccount(db, accountId)
      && accountId in r.db.accounts
      && var a := db.accounts[accountId];
      && r.db.accounts == db.accounts[accountId := a.(nextDeltaToken := r.db.accounts[accountId].nextDeltaToken)]
      && r.db.accounts[accountId].nextDeltaToken.Some?
      && Truthy(r.db.accounts[accountId].nextDeltaToken.value)
      && |r.effects| >= 1
      && r.effects[|r.effects| - 1] == SaveCursor(r.db.accounts[accountId].nextDeltaToken.value)
      && forall i :: 0 <= i < |r.effects| - 1 ==> r.effects[i].StoreEmails? && r.effects[i].count > 0
  {
    if userId.None? || !Truthy(userId.value) then Run(Threw("Unauthorized: No user ID found"), db, [], [])
    else if !Truthy(accountId) then Run(Threw("Invalid account ID: " + accountId), db, [], [])
    else if !HasUsableAccount(db, accountId) then
      Run(Threw("Email account not found or missing access token"), db, [], [])
    else
      match RunSync(db.accounts[accountId], starts, replies)
      case SyncRunning(rs) => Run(StillRunning, db, [], rs)
      case SyncThrew(e, rs) => Run(Threw("Sync operation failed: " + e), db, [], rs)
      case Result(res, rs) =>
        if res.None? || !Truthy(res.value.1) then
          Run(Threw("Invalid sync result: Missing delta token"), db, [], rs)
        else
          var (emails, token) := res.value;
          if |emails| > 0 then
            match SyncEmailsToDatabase(db.store, accountId, emails, env)
            case Err(e) => Run(Threw("Failed to store emails: " + e), db, [], rs)
            case Ok(st) => Run(Completed, UpdateDeltaToken(db.(store := st), token, accountId), [StoreEmails(|emails|), SaveCursor(token)], rs)
          else
            Run(Completed, UpdateDeltaToken(db, token, accountId), [SaveCursor(token)], rs)
  }

  /** The branch a run takes: with no usable cursor the first page request carries the
      ready start's `syncUpdatedToken`; with one, it carries the stored cursor. Either way
      the first request has no page token. */
  lemma SyncSeed(db: Db, userId: Option<string>, accountId: string,
                 starts: seq<Result<SyncStart, string>>, replies: seq<Result<Page, string>>, env: Env)
    requires userId.Some? && Truthy(userId.value) && Truthy(accountId) && HasUsableAccount(db, accountId)
    ensures var r := UpdateEmail(db, userId, accountId, starts, replies, env);
      var a := db.accounts[accountId];
      && (HasCursor(a) ==> |r.requests| >= 1 && r.requests[0] == Request(a.nextDeltaToken, None))
      && (!HasCursor(a) && PollReady(starts).Ready? ==>
            |r.requests| >= 1 && r.requests[0] == Request(Some(PollReady(starts).syncUpdatedToken), None))
      && (!HasCursor(a) && !PollReady(starts).Ready? ==> r.requests == [])
  {
    assert UpdateEmail(db, userId, accountId, starts, replies, env).requests
      == RunSync(db.accounts[accountId], starts, replies).requests;
  }

  /** A run completes exactly when the sync produced a result with a non-empty delta token;
      it then stores the fetched messages (if any) and saves that token as the cursor. */
  lemma CompletedRun(db: Db, userId: Option<string>, accountId: string,
                     starts: seq<Result<SyncStart, string>>, replies: seq<Result<Page, string>>, env: Env)
    requires userId.Some? && Truthy(userId.value) && Truthy(accountId) && HasUsableAccount(db, accountId)
    ensures var r := UpdateEmail(db, userId, accountId, starts, replies, env);
      var call := RunSync(db.accounts[accountId], starts, replies);
      && (r.outcome.Completed? <==>
            call.Result? && call.value.Some? && Truthy(call.value.value.1)
            && (|call.value.value.0| > 0 ==> env.indexError.None?))
      && (r.outcome.Completed? ==>
            var (emails, token) := call.value.value;
            && r.db.accounts[accountId].nextDeltaToken == Some(token)
            && r.db.store == (if |emails| > 0 then ReconcileBatch(db.store, accountId, emails, env) else db.store)
            && r.effects == (if |emails| > 0 then [StoreEmails(|emails|), SaveCursor(token)] else [SaveCursor(token)]))
  {
  }

  /** A delta fetch that throws aborts the run with "Sync operation failed" and the
      provider's message, before any write; an initial sync that fails does not throw but
      leaves no delta token, which aborts the run as an invalid result. */
  lemma FailedFetchAborts(db: Db, userId: Option<string>, accountId: string,
                          starts: seq<Result<SyncStart, string>>, replies: seq<Result<Page, string>>, env: Env)
    requires userId.Some? && Truthy(userId.value) && Truthy(accountId) && HasUsableAccount(db, accountId)
    ensures var r := UpdateEmail(db, userId, accountId, starts, replies, env);
      var a := db.accounts[accountId];
      && (HasCursor(a) && GetEmailDeltaToken(a.nextDeltaToken.value, replies).Failed? ==>
            r.outcome == Threw("Sync operation failed: " + GetEmailDeltaToken(a.nextDeltaToken.value, replies).error))
      && (!HasCursor(a) && PerformInitialSync(starts, replies).0.Undefined? ==>
            r.outcome == Threw("Invalid sync result: Missing delta token"))
  {
  }

  /** A batch that cannot be stored (opening the search index throws) aborts the run with
      "Failed to store emails" and that error, and leaves the database as it was: the
      cursor is not advanced, so the next run fetches the same batch again. */
  lemma StoreFailureKeepsCursor(db: Db, userId: Option<string>, accountId: string,
                                starts: seq<Result<SyncStart, string>>, replies: seq<Result<Page, string>>, env: Env)
    requires userId.Some? && Truthy(userId.value) && Truthy(accountId) && HasUsableAccount(db, accountId)
    requires env.indexError.Some?
    ensures var r := UpdateEmail(db, userId, accountId, starts, replies, env);
      var call := RunSync(db.accounts[accountId], starts, replies);
      call.Result? && call.value.Some? && Truthy(call.value.value.1) && |call.value.value.0| > 0 ==>
        && r.outcome == Threw("Failed to store emails: " + env.indexError.value)
        && r.db == db && r.effects == []
  {
  }

  /** From a stored cursor, a fetch that stops at page `n` with a non-empty delta token,
      and a batch that can be stored: the run stores the records of pages 0..n in page
      order and advances the cursor to page `n`'s delta token. */
  lemma DeltaRunStoresPages(db: Db, userId: Option<string>, accountId: string,
                            starts: seq<Result<SyncStart, string>>, replies: seq<Result<Page, string>>, env: Env, n: nat)
    requires userId.Some? && Truthy(userId.value) && Truthy(accountId) && HasUsableAccount(db, accountId)
    requires HasCursor(db.accounts[accountId]) && env.indexError.None?
    requires StopsAt(replies, n) && Truthy(replies[n].value.nextDeltaToken)
    ensures var r := UpdateEmail(db, userId, accountId, starts, replies, env);
      var emails := RecordsUpTo(replies, n);
      && r.outcome.Completed?
      && r.db.accounts[accountId].nextDeltaToken == Some(replies[n].value.nextDeltaToken)
      && r.db.store == (if |emails| > 0 then ReconcileBatch(db.store, accountId, emails, env) else db.store)
  {
    CompletedRun(db, userId, accountId, starts, replies, env);
  }
}
