/** The OAuth callback: its chain of guards, the account upsert keyed by the provider's
    account number, and the redirect that follows regardless of the initial sync. */
module CallbackRoute {
  import opened Wrappers
  import opened Text
  import opened SyncToDb
  import opened Accounts
  import opened Provider
  import opened InitialSyncRoute

  /** The token exchange's answer: the provider's numeric account id and an access token. */
  datatype Token = Token(accountId: nat, accessToken: string)

  /** The linked mailbox's details. */
  datatype AccountDetails = AccountDetails(email: string, name: string)

  /** A JSON answer with a status and message, a redirect, or an error thrown out of the
      handler. */
  datatype Answer = Json(status: int, message: string) | Redirect(path: string) | Thrown(error: string)

  /** The answer, the database afterwards, and the initial-sync request fired in the
      background (account id and user id), if any. */
  datatype CallbackRun = CallbackRun(answer: Answer, db: Db, syncRequest: Option<(string, string)>)

  /** `token.accountId.toString()`: the Account row's id. */
  function AccountKey(t: Token): string {
    NatToString(t.accountId)
  }

  /** The account upsert: an existing row only gets the new access token; a missing one is
      created for the user with the details and no cursor. */
  function LinkAccount(db: Db, userId: string, t: Token, d: AccountDetails): (r: Db)
    ensures r.store == db.store
    ensures r.accounts.Keys == db.accounts.Keys + {AccountKey(t)}
    ensures forall k :: k in db.accounts && k != AccountKey(t) ==> r.accounts[k] == db.accounts[k]
    ensures AccountKey(t) in db.accounts ==>
      r.accounts[AccountKey(t)] == db.accounts[AccountKey(t)].(accessToken := t.accessToken)
    ensures AccountKey(t) !in db.accounts ==>
      r.accounts[AccountKey(t)] == AccountRow(userId, t.accessToken, d.email, d.name, None)
  {
    var key := AccountKey(t);
    var row := if key in db.accounts then db.accounts[key].(accessToken := t.accessToken)
               else AccountRow(userId, t.accessToken, d.email, d.name, None);
    db.(accounts := db.accounts[key := row])
  }

  /** `GET /api/aurinko/callback`. `exchange` is the provider's answer to exchanging a code
      (None when the exchange fails); `details` is the account lookup with the new token,
      which may throw. */
  function Callback(db: Db, userId: Option<string>, status: Option<string>, code: Option<string>,
                    exchange: string -> Option<Token>, details: Result<AccountDetails, string>): (r: CallbackRun)
    ensures !Given(userId) ==> r == CallbackRun(Json(401, "Unauthorized"), db, None)
    ensures Given(userId) && status != Some("success") ==>
      r == CallbackRun(Json(400, "Failed to link account"), db, None)
    ensures Given(userId) && status == Some("success") && (code.None? || IsBlank(code.value)) ==>
      r == CallbackRun(Json(400, "No code Provided"), db, None)
    ensures Given(userId) && status == Some("success") && code.Some? && !IsBlank(code.value)
            && exchange(Trim(code.value)).None? ==>
      r == CallbackRun(Json(400, "Failed to exchange code for access token"), db, None)
    ensures r.answer.Thrown? ==> details.Err? && r.answer.error == details.error && r.db == db
    ensures r.answer.Redirect? <==>
      && Given(userId) && status == Some("success") && code.Some? && !IsBlank(code.value)
      && exchange(Trim(code.value)).Some? && details.Ok?
    ensures r.answer.Redirect? ==>
      var t := exchange(Trim(code.value)).value;
      && r.answer.path == "/mail"
      && r.db == LinkAccount(db, userId.value, t, details.value)
      && r.syncRequest == Some((AccountKey(t), userId.value))
    ensures !r.answer.Redirect? ==> r.db == db && r.syncRequest.None?
  {
    if !Given(userId) then CallbackRun(Json(401, "Unauthorized"), db, None)
    else if status != Some("success") then CallbackRun(Json(400, "Failed to link account"), db, None)
    else
      var trimmed := if code.Some? then Some(Trim(code.value)) else None;
      if !Given(trimmed) then CallbackRun(Json(400, "No code Provided"), db, None)
      else match exchange(trimmed.value)
        case None => CallbackRun(Json(400, "Failed to exchange code for access token"), db, None)
        case Some(t) =>
          match details
          case Err(e) => CallbackRun(Thrown(e), db, None)
          case Ok(d) =>
            CallbackRun(Redirect("/mail"), LinkAccount(db, userId.value, t, d), Some((AccountKey(t), userId.value)))
  }

  /** Linking one provider account never touches the row of another: distinct account
      numbers have distinct row ids. */
  lemma LinkKeepsOtherAccounts(db: Db, userId: string, t: Token, d: AccountDetails, other: nat)
    requires other != t.accountId && NatToString(other) in db.accounts
    ensures LinkAccount(db, userId, t, d).accounts[NatToString(other)] == db.accounts[NatToString(other)]
  {
    if NatToString(other) == AccountKey(t) {
      NatToStringInjective(other, t.accountId);
    }
  }

  /** The upsert never changes an existing account's owner: when a second user links a
      mailbox another user linked first, the row keeps its first owner and only the access
      token changes, so the initial sync the callback then requests for the second user
      answers 404. */
  lemma RelinkKeepsOwner(db: Db, u1: string, u2: string, t: Token, d: AccountDetails,
                         starts: seq<Result<SyncStart, string>>, replies: seq<Result<Page, string>>, env: Env)
    requires u1 != u2 && Truthy(u2)
    requires AccountKey(t) in db.accounts && db.accounts[AccountKey(t)].userId == u1
    ensures var linked := LinkAccount(db, u2, t, d);
      && linked.accounts[AccountKey(t)].userId == u1
      && linked.accounts[AccountKey(t)].accessToken == t.accessToken
      && InitialSyncPost(linked, Some(AccountKey(t)), Some(u2), starts, replies, env).response == Status(404)
  {
    assert Truthy(AccountKey(t));
  }
}
