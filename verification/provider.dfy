/** The provider client: the ready-poll of a new sync, and the paginated delta fetch that
    follows `nextPageToken`, concatenates the pages' records and keeps the last page's
    `nextDeltaToken`. The provider is a script: the replies it gives, in the order the
    requests are made. A script that runs out stands for a provider that never stops
    asking to be polled or paged. */
module Provider {
  import opened Wrappers
  import opened SyncToDb

  /** One reply of the change feed. */
  datatype Page = Page(records: seq<EmailMessage>, nextDeltaToken: string, nextPageToken: Option<string>)

  /** The query of one page request: `deltaToken` and `pageToken`, each possibly null. */
  datatype Request = Request(deltaToken: Option<string>, pageToken: Option<string>)

  /** One reply to the request that starts a sync. */
  datatype SyncStart = SyncStart(ready: bool, syncUpdatedToken: string)

  /** How following the pages ended, with every request made on the way. */
  datatype Fetch =
    | Fetched(emails: seq<EmailMessage>, deltaToken: string, requests: seq<Request>)
    | Failed(error: string, requests: seq<Request>)
    | Pending(requests: seq<Request>)

  /** `while (syncData.nextPageToken)`: another page follows exactly when the token is
      present and not empty. */
  predicate Continues(p: Page) {
    p.nextPageToken.Some? && p.nextPageToken.value != ""
  }

  /** Makes request `req`, then keeps requesting the next page (with no delta token) for as
      long as the last page continues. A failed request ends the loop with its error. */
  function Follow(req: Request, replies: seq<Result<Page, string>>): (f: Fetch)
    ensures |f.requests| >= 1 && f.requests[0] == req
    ensures |f.requests| <= |replies| + 1
    ensures forall i :: 1 <= i < |f.requests| ==>
      f.requests[i].deltaToken.None? && f.requests[i].pageToken.Some? && f.requests[i].pageToken.value != ""
    decreases |replies|
  {
    if |replies| == 0 then Pending([req])
    else match replies[0]
      case Err(e) => Failed(e, [req])
      case Ok(p) =>
        if Continues(p) then
          match Follow(Request(None, p.nextPageToken), replies[1..])
          case Fetched(es, d, rs) => Fetched(p.records + es, d, [req] + rs)
          case Failed(e, rs) => Failed(e, [req] + rs)
          case Pending(rs) => Pending([req] + rs)
        else Fetched(p.records, p.nextDeltaToken, [req])
  }

  /** The pagination of a delta token: first request with the token and no page token. */
  function Paginate(deltaToken: string, replies: seq<Result<Page, string>>): Fetch {
    Follow(Request(Some(deltaToken), None), replies)
  }

  // A reference description of the loop, stated over the script directly.

  /** The loop stops after exactly `n + 1` pages: pages 0..n arrive, every one before `n`
      continues and page `n` does not. */
  predicate StopsAt(replies: seq<Result<Page, string>>, n: nat) {
    && n < |replies|
    && (forall i :: 0 <= i <= n ==> replies[i].Ok?)
    && (forall i :: 0 <= i < n ==> Continues(replies[i].value))
    && !Continues(replies[n].value)
  }

  /** The records of pages 0..n, in page order. */
  function RecordsUpTo(replies: seq<Result<Page, string>>, n: nat): seq<EmailMessage>
    requires n < |replies| && forall i :: 0 <= i <= n ==> replies[i].Ok?
  {
    replies[0].value.records + if n == 0 then [] else RecordsUpTo(replies[1..], n - 1)
  }

  /** The requests of a loop that fetched pages 0..n: `first`, then one per continuing page
      carrying that page's `nextPageToken`. */
  function RequestsUpTo(first: Request, replies: seq<Result<Page, string>>, n: nat): seq<Request>
    requires n < |replies| && forall i :: 0 <= i < n ==> replies[i].Ok?
  {
    [first] + seq(n, i requires 0 <= i < n => Request(None, replies[i].value.nextPageToken))
  }

  /** A loop that stops at page `n` returns the concatenated records of pages 0..n, the
      delta token of page `n`, and made exactly the requests of `RequestsUpTo`. */
  lemma {:induction false} FollowStopsAt(req: Request, replies: seq<Result<Page, string>>, n: nat)
    requires StopsAt(replies, n)
    ensures Follow(req, replies)
      == Fetched(RecordsUpTo(replies, n), replies[n].value.nextDeltaToken, RequestsUpTo(req, replies, n))
    decreases n
  {
    if n > 0 {
      var p := replies[0].value;
      var tail := replies[1..];
      assert StopsAt(tail, n - 1) by {
        forall i | 0 <= i <= n - 1 ensures tail[i] == replies[i + 1] { }
      }
      FollowStopsAt(Request(None, p.nextPageToken), tail, n - 1);
      var rs := RequestsUpTo(Request(None, p.nextPageToken), tail, n - 1);
      assert [req] + rs == RequestsUpTo(req, replies, n);
    }
  }

  /** The loop returns a result only by stopping at some page. */
  lemma {:induction false} FollowFetchedStops(req: Request, replies: seq<Result<Page, string>>)
    requires Follow(req, replies).Fetched?
    ensures exists n: nat :: StopsAt(replies, n)
    decreases |replies|
  {
    var p := replies[0].value;
    if Continues(p) {
      var tail := replies[1..];
      FollowFetchedStops(Request(None, p.nextPageToken), tail);
      var k: nat :| StopsAt(tail, k);
      assert StopsAt(replies, k + 1) by {
        forall i | 0 <= i <= k ensures tail[i] == replies[i + 1] { }
      }
    } else {
      assert StopsAt(replies, 0);
    }
  }

  /** The loop fails exactly at the first request whose reply is an error, provided every
      earlier page continued; the error is that reply's. */
  lemma {:induction false} FollowFailsAt(req: Request, replies: seq<Result<Page, string>>, k: nat)
    requires FailsAt(replies, k)
    ensures Follow(req, replies).Failed?
    ensures Follow(req, replies).error == replies[k].error
    ensures |Follow(req, replies).requests| == k + 1
    decreases k
  {
    if k > 0 {
      var tail := replies[1..];
      forall i | 0 <= i < k - 1 ensures tail[i] == replies[i + 1] { }
      FollowFailsAt(Request(None, replies[0].value.nextPageToken), tail, k - 1);
    }
  }

  /** Whichever page the loop stops at, the result is that page's. */
  lemma FollowStopsAtAny(req: Request, replies: seq<Result<Page, string>>)
    ensures forall n: nat :: StopsAt(replies, n) ==>
      Follow(req, replies) == Fetched(RecordsUpTo(replies, n), replies[n].value.nextDeltaToken, RequestsUpTo(req, replies, n))
  {
    forall n: nat | StopsAt(replies, n)
      ensures Follow(req, replies) == Fetched(RecordsUpTo(replies, n), replies[n].value.nextDeltaToken, RequestsUpTo(req, replies, n))
    {
      FollowStopsAt(req, replies, n);
    }
  }

  /** A fetched result holds the records of the pages up to the stopping one, and that
      page's delta token. */
  lemma FollowFetchedRecords(req: Request, replies: seq<Result<Page, string>>)
    requires Follow(req, replies).Fetched?
    ensures exists n: nat ::
      && StopsAt(replies, n)
      && Follow(req, replies).emails == RecordsUpTo(replies, n)
      && Follow(req, replies).deltaToken == replies[n].value.nextDeltaToken
  {
    FollowFetchedStops(req, replies);
    var n: nat :| StopsAt(replies, n);
    FollowStopsAt(req, replies, n);
  }

  /** The outcome of polling the sync start until it is ready. */
  datatype Poll = Ready(syncUpdatedToken: string, attempts: nat) | PollFailed(error: string) | StillPolling

  /** `startSync` until a reply says ready; a failed start ends the poll with its error.
      There is no bound on the number of attempts. */
  function PollReady(starts: seq<Result<SyncStart, string>>): (r: Poll)
    ensures r.Ready? ==>
      && 1 <= r.attempts <= |starts|
      && starts[r.attempts - 1].Ok? && starts[r.attempts - 1].value.ready
      && r.syncUpdatedToken == starts[r.attempts - 1].value.syncUpdatedToken
      && forall i :: 0 <= i < r.attempts - 1 ==> starts[i].Ok? && !starts[i].value.ready
    ensures r.StillPolling? ==> forall i :: 0 <= i < |starts| ==> starts[i].Ok? && !starts[i].value.ready
    ensures r.PollFailed? ==>
      exists k :: 0 <= k < |starts| && starts[k].Err? && starts[k].error == r.error
                  && forall i :: 0 <= i < k ==> starts[i].Ok? && !starts[i].value.ready
    decreases |starts|
  {
    if |starts| == 0 then StillPolling
    else match starts[0]
      case Err(e) => PollFailed(e)
      case Ok(st) =>
        if st.ready then Ready(st.syncUpdatedToken, 1)
        else
          match PollReady(starts[1..])
          case Ready(t, n) => Ready(t, n + 1)
          case other => other
  }

  /** The outcome of the initial sync: a result, `undefined` after any error, or still
      running when a script runs out. */
  datatype InitialSync = Synced(emails: seq<EmailMessage>, deltaToken: string) | Undefined | Running

  /** `performInitialSync`: the ready-poll, then the pagination seeded with the start's
      `syncUpdatedToken`. Any error is caught and yields `undefined`. Also returns the page
      requests made. */
  function PerformInitialSync(starts: seq<Result<SyncStart, string>>, replies: seq<Result<Page, string>>)
    : (r: (InitialSync, seq<Request>))
    ensures !PollReady(starts).Ready? ==> r.1 == []
    ensures PollReady(starts).Ready? ==>
      |r.1| >= 1 && r.1[0] == Request(Some(PollReady(starts).syncUpdatedToken), None)
    ensures r.0.Synced? <==> PollReady(starts).Ready? && Paginate(PollReady(starts).syncUpdatedToken, replies).Fetched?
    ensures r.0.Undefined? <==>
      PollReady(starts).PollFailed? || (PollReady(starts).Ready? && Paginate(PollReady(starts).syncUpdatedToken, replies).Failed?)
    ensures r.0.Synced? ==>
      exists n: nat :: StopsAt(replies, n)
        && r.0.emails == RecordsUpTo(replies, n) && r.0.deltaToken == replies[n].value.nextDeltaToken
    ensures forall n: nat :: PollReady(starts).Ready? && StopsAt(replies, n) ==>
      r.0 == Synced(RecordsUpTo(replies, n), replies[n].value.nextDeltaToken)
  {
    match PollReady(starts)
    case PollFailed(_) => (Undefined, [])
    case StillPolling => (Running, [])
    case Ready(token, _) =>
      var f := Paginate(token, replies);
      FollowStopsAtAny(Request(Some(token), None), replies);
      match f
      case Fetched(es, d, rs) =>
        FollowFetchedRecords(Request(Some(token), None), replies);
        (Synced(es, d), rs)
      case Failed(_, rs) => (Undefined, rs)
      case Pending(rs) => (Running, rs)
  }

  /** `getEmailDeltaToken`: the pagination seeded with the stored token; errors propagate
      to the caller. */
  function GetEmailDeltaToken(token: string, replies: seq<Result<Page, string>>): (f: Fetch)
    ensures |f.requests| >= 1 && f.requests[0] == Request(Some(token), None)
    ensures forall i :: 1 <= i < |f.requests| ==> f.requests[i].deltaToken.None?
    ensures f.Fetched? ==>
      exists n: nat :: StopsAt(replies, n)
        && f.emails == RecordsUpTo(replies, n) && f.deltaToken == replies[n].value.nextDeltaToken
    ensures forall n: nat :: StopsAt(replies, n) ==>
      f.Fetched? && f.emails == RecordsUpTo(replies, n) && f.deltaToken == replies[n].value.nextDeltaToken
  {
    var req := Request(Some(token), None);
    FollowStopsAtAny(req, replies);
    if Follow(req, replies).Fetched? then
      FollowFetchedRecords(req, replies);
      Follow(req, replies)
    else
      Follow(req, replies)
  }

  /** Reply `k` is an error and every earlier page arrived and continued. */
  predicate FailsAt(replies: seq<Result<Page, string>>, k: nat) {
    && k < |replies| && replies[k].Err?
    && forall i :: 0 <= i < k ==> replies[i].Ok? && Continues(replies[i].value)
  }

  /** The delta fetch throws exactly when the loop reaches an errored reply, and then with
      that reply's error. */
  lemma GetEmailDeltaTokenThrows(token: string, replies: seq<Result<Page, string>>)
    ensures GetEmailDeltaToken(token, replies).Failed? <==> exists k: nat :: FailsAt(replies, k)
    ensures forall k: nat :: FailsAt(replies, k) ==> GetEmailDeltaToken(token, replies).error == replies[k].error
  {
    var req := Request(Some(token), None);
    if GetEmailDeltaToken(token, replies).Failed? {
      FollowFailedHasCause(req, replies);
    }
    forall k: nat | FailsAt(replies, k) ensures GetEmailDeltaToken(token, replies).Failed? && GetEmailDeltaToken(token, replies).error == replies[k].error {
      FollowFailsAt(req, replies, k);
    }
  }

  /** A failed loop failed at some errored reply that every earlier page led up to. */
  lemma {:induction false} FollowFailedHasCause(req: Request, replies: seq<Result<Page, string>>)
    requires Follow(req, replies).Failed?
    ensures exists k: nat :: FailsAt(replies, k)
    decreases |replies|
  {
    if replies[0].Ok? {
      var tail := replies[1..];
      FollowFailedHasCause(Request(None, replies[0].value.nextPageToken), tail);
      var k: nat :| FailsAt(tail, k);
      assert replies[k + 1] == tail[k];
      forall i | 0 <= i < k + 1 ensures replies[i].Ok? && Continues(replies[i].value) {
        if i > 0 {
          assert replies[i] == tail[i - 1];
        }
      }
      assert FailsAt(replies, k + 1);
    } else {
      assert FailsAt(replies, 0);
    }
  }
}
