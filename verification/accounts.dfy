/** The Account table next to the mail store, and the cursor write that follows a sync. */
module Accounts {
  import opened Wrappers
  import opened SyncToDb

  /** A linked mailbox: its owner, provider token, address, display name and the delta
      cursor of the last completed sync (null before the first one). */
  datatype AccountRow = AccountRow(
    userId: string, accessToken: string, emailAddress: string, name: string,
    nextDeltaToken: Option<string>)

  /** The database: accounts by id, and the mail tables. */
  datatype Db = Db(accounts: map<string, AccountRow>, store: Store)

  /** A lookup by `{ id: accountId, userId }`: the account exists and belongs to the user. */
  predicate OwnedBy(db: Db, accountId: string, userId: string) {
    accountId in db.accounts && db.accounts[accountId].userId == userId
  }

  /** Only the cursor of account `accountId` changes, to `token`; a missing account makes
      the update fail, and that failure is swallowed, leaving the database as it was. */
  function UpdateDeltaToken(db: Db, token: string, accountId: string): (r: Db)
    ensures r.store == db.store
    ensures r.accounts.Keys == db.accounts.Keys
    ensures forall id :: id in db.accounts && id != accountId ==> r.accounts[id] == db.accounts[id]
    ensures accountId in db.accounts ==>
      && r.accounts[accountId].nextDeltaToken == Some(token)
      && r.accounts[accountId].(nextDeltaToken := db.accounts[accountId].nextDeltaToken) == db.accounts[accountId]
    ensures accountId !in db.accounts ==> r == db
  {
    if accountId in db.accounts then
      db.(accounts := db.accounts[accountId := db.accounts[accountId].(nextDeltaToken := Some(token))])
    else db
  }
}
