/** The account query procedures: access control, the tab listing with pagination, and the
    per-flag thread counts (both as the raw query computes them and as intended). */
module AccountRouter {
  import opened Wrappers
  import opened Seqs
  import opened Labels
  import opened SyncToDb
  import opened Accounts
  import opened Sorting

  /** The columns of an account that its authorisation hands on. */
  datatype AccountView = AccountView(id: string, emailAddress: string, accessToken: string, name: string)

  /** `authoriseAccountAccess`: the account, if it exists and belongs to the user; otherwise
      the error every procedure throws. */
  function AuthoriseAccountAccess(db: Db, accountId: string, userId: string): (r: Result<AccountView, string>)
    ensures r.Ok? <==> OwnedBy(db, accountId, userId)
    ensures r.Err? ==> r.error == "Account not found"
    ensures r.Ok? ==>
      && r.value.id == accountId
      && r.value.emailAddress == db.accounts[accountId].emailAddress
      && r.value.name == db.accounts[accountId].name
      && r.value.accessToken == db.accounts[accountId].accessToken
  {
    if OwnedBy(db, accountId, userId) then
      var a := db.accounts[accountId];
      Ok(AccountView(accountId, a.emailAddress, a.accessToken, a.name))
    else Err("Account not found")
  }

  /** At most one user is ever authorised for an account. */
  lemma AuthorisesOnlyOwner(db: Db, accountId: string, u1: string, u2: string)
    requires AuthoriseAccountAccess(db, accountId, u1).Ok? && AuthoriseAccountAccess(db, accountId, u2).Ok?
    ensures u1 == u2
  {
  }

  // ---------------------------------------------------------------------------------
  // The tab listing

  /** The tab name of each label. */
  function TabName(l: Label): string {
    match l
    case Inbox => "inbox"
    case Draft => "draft"
    case Sent => "sent"
    case Junk => "junk"
    case Trash => "trash"
  }

  /** The filter of `getThreads`: the account, the done state, and each of the five flags
      equal to whether the tab is that flag's name. */
  predicate MatchesTab(t: ThreadRow, accountId: string, done: bool, tab: string) {
    && t.accountId == accountId && t.done == done
    && t.flags.inbox == (tab == "inbox")
    && t.flags.draft == (tab == "draft")
    && t.flags.sent == (tab == "sent")
    && t.flags.junk == (tab == "junk")
    && t.flags.trash == (tab == "trash")
  }

  /** What the filter means: a thread shows under a tab exactly when the flags it holds are
      exactly the tab's own flag; under a tab that names no flag, exactly when it holds none. */
  lemma TabFilterMeaning(t: ThreadRow, accountId: string, done: bool, tab: string)
    ensures MatchesTab(t, accountId, done, tab) <==>
      && t.accountId == accountId && t.done == done
      && forall l :: Holds(t.flags, l) <==> TabName(l) == tab
  {
    if t.accountId == accountId && t.done == done && forall l :: Holds(t.flags, l) <==> TabName(l) == tab {
      assert Holds(t.flags, Inbox) <==> TabName(Inbox) == tab;
      assert Holds(t.flags, Draft) <==> TabName(Draft) == tab;
      assert Holds(t.flags, Sent) <==> TabName(Sent) == tab;
      assert Holds(t.flags, Junk) <==> TabName(Junk) == tab;
      assert Holds(t.flags, Trash) <==> TabName(Trash) == tab;
    }
  }

  /** A thread holding two flags shows under no tab at all. The reconciler produces such
      threads: a thread started by a sent message whose latest message then arrives in the
      inbox holds both the inbox and the sent flag. */
  lemma {:induction false} TwoFlagsShowNowhere(t: ThreadRow, accountId: string, done: bool, l1: Label, l2: Label)
    requires l1 != l2 && Holds(t.flags, l1) && Holds(t.flags, l2)
    ensures forall tab :: !MatchesTab(t, accountId, done, tab)
    ensures Holds(RecomputeFlags(CreateFlags(Sent), Inbox), Inbox) && Holds(RecomputeFlags(CreateFlags(Sent), Inbox), Sent)
  {
    forall tab ensures !MatchesTab(t, accountId, done, tab) {
      TabFilterMeaning(t, accountId, done, tab);
    }
  }

  /** The ids of `order` whose thread passes the filter, in `order`. */
  function FilterIds(order: seq<string>, threads: map<string, ThreadRow>, accountId: string, done: bool, tab: string)
    : (r: seq<string>)
    requires forall i :: 0 <= i < |order| ==> order[i] in threads
    ensures forall id :: id in r <==> id in order && MatchesTab(threads[id], accountId, done, tab)
    ensures NoDup(order) ==> NoDup(r)
  {
    if |order| == 0 then []
    else
      var rest := FilterIds(order[1..], threads, accountId, done, tab);
      assert forall id :: id in order <==> id == order[0] || id in order[1..];
      if MatchesTab(threads[order[0]], accountId, done, tab) then [order[0]] + rest else rest
  }

  /** The number of threads that pass the filter: `thread.count({ where: filter })`. */
  function TotalThreads(threads: map<string, ThreadRow>, accountId: string, done: bool, tab: string): nat {
    |set id | id in threads && MatchesTab(threads[id], accountId, done, tab)|
  }

  /** `order` lists every thread id exactly once: the order the table is scanned in,
      which decides between threads with the same lastMessageDate. */
  predicate Enumerates(order: seq<string>, threads: map<string, ThreadRow>) {
    && NoDup(order)
    && (forall i :: 0 <= i < |order| ==> order[i] in threads)
    && (forall id :: id in threads ==> id in order)
  }

  /** The sort key of `orderBy: { lastMessageDate: "desc" }`. */
  function NewestFirst(threads: map<string, ThreadRow>): string -> int {
    (id: string) => if id in threads then -threads[id].lastMessageDate else 0
  }

  /** Every matching thread, newest first. */
  function Listing(order: seq<string>, threads: map<string, ThreadRow>, accountId: string, done: bool, tab: string)
    : (r: seq<string>)
    requires Enumerates(order, threads)
    ensures forall id :: id in r <==> id in threads && MatchesTab(threads[id], accountId, done, tab)
    ensures forall i :: 0 <= i < |r| ==> r[i] in threads
    ensures forall i, j :: 0 <= i < j < |r| ==>
      threads[r[i]].lastMessageDate >= threads[r[j]].lastMessageDate
  {
    var ids := FilterIds(order, threads, accountId, done, tab);
    var r := SortBy(ids, NewestFirst(threads));
    SortByKeepsElements(ids, NewestFirst(threads));
    assert forall i :: 0 <= i < |r| ==> r[i] in ids;
    r
  }

  /** The listing holds each matching thread once, so it is as long as the count says. */
  lemma ListingLength(order: seq<string>, threads: map<string, ThreadRow>, accountId: string, done: bool, tab: string)
    requires Enumerates(order, threads)
    ensures |Listing(order, threads, accountId, done, tab)| == TotalThreads(threads, accountId, done, tab)
    ensures NoDup(Listing(order, threads, accountId, done, tab))
  {
    var ids := FilterIds(order, threads, accountId, done, tab);
    var r := Listing(order, threads, accountId, done, tab);
    var key := NewestFirst(threads);
    assert r == SortBy(ids, key);
    PermutationKeepsNoDup(ids, r);
    NoDupCard(r);
    assert (set x | x in r) == (set id | id in threads && MatchesTab(threads[id], accountId, done, tab));
  }

  /** `skip`/`take` on an ordered result: the entries from position `skip`, at most `take`. */
  function Window<T>(xs: seq<T>, skip: nat, take: nat): (r: seq<T>)
    ensures |r| <= take
    ensures skip + take <= |xs| ==> |r| == take
    ensures skip >= |xs| ==> r == []
    ensures skip <= |xs| ==> |r| == if |xs| - skip < take then |xs| - skip else take
    ensures forall j :: 0 <= j < |r| ==> skip + j < |xs| && r[j] == xs[skip + j]
  {
    if skip >= |xs| then [] else if skip + take <= |xs| then xs[skip..skip + take] else xs[skip..]
  }

  /** `Math.ceil(n / d)` for a count and a positive page size: the fewest pages of `d` that
      hold `n` entries. */
  function CeilDiv(n: nat, d: nat): (r: nat)
    requires d >= 1
    ensures r * d >= n
    ensures r == 0 || (r - 1) * d < n
    decreases n
  {
    if n == 0 then 0 else if n <= d then 1 else 1 + CeilDiv(n - d, d)
  }

  /** The first `n` pages of size `d`, in order. */
  function Pages<T>(xs: seq<T>, d: nat, n: nat): seq<seq<T>> {
    seq(n, p requires 0 <= p < n => Window(xs, p * d, d))
  }

  /** The rows skipped before page `page` are the pages before it. */
  lemma SkipIsOffset(page: int, pageSize: nat)
    requires page >= 1
    ensures Skip(page, pageSize) == (page - 1) * pageSize
  {
  }

  /** Page `p + 1` is the window from `p * d`. */
  lemma PageAt<T>(xs: seq<T>, d: nat, n: nat, p: nat)
    requires p < n
    ensures Pages(xs, d, n)[p] == Window(xs, p * d, d)
  {
  }

  /** Pages 1..n together are the first `n * d` entries: pages neither overlap nor leave gaps. */
  lemma {:induction false} PagesCover<T>(xs: seq<T>, d: nat, n: nat)
    ensures Flatten(Pages(xs, d, n)) == xs[..if n * d <= |xs| then n * d else |xs|]
  {
    if n > 0 {
      var start: nat := (n - 1) * d;
      PagesCover(xs, d, n - 1);
      PagesSnoc(xs, d, n);
      WindowExtends(xs, start, d);
      MulPred(n, d);
    }
  }

  /** The first `n` pages are the first `n - 1` and then page `n`. */
  lemma PagesSnoc<T>(xs: seq<T>, d: nat, n: nat)
    requires n >= 1
    ensures Flatten(Pages(xs, d, n)) == Flatten(Pages(xs, d, n - 1)) + Window(xs, (n - 1) * d, d)
  {
    var pages := Pages(xs, d, n);
    assert pages[..n - 1] == Pages(xs, d, n - 1);
  }

  lemma MulPred(n: nat, d: nat)
    requires n >= 1
    ensures n * d == (n - 1) * d + d
  {
  }

  /** A window continues the prefix that ends where it starts. */
  lemma WindowExtends<T>(xs: seq<T>, start: nat, d: nat)
    ensures xs[..if start + d <= |xs| then start + d else |xs|]
         == xs[..if start <= |xs| then start else |xs|] + Window(xs, start, d)
  {
  }

  /** Walking all `totalPages` pages visits the whole listing, in order, each entry once. */
  lemma PagesPartition<T>(xs: seq<T>, d: nat)
    requires d >= 1
    ensures Flatten(Pages(xs, d, CeilDiv(|xs|, d))) == xs
  {
    PagesCover(xs, d, CeilDiv(|xs|, d));
    assert xs[..|xs|] == xs;
  }

  /** The thread ids of a page, in page order. */
  function Ids(rows: seq<(string, ThreadRow)>): (ids: seq<string>)
    ensures |ids| == |rows|
    ensures forall j :: 0 <= j < |rows| ==> ids[j] == rows[j].0
  {
    seq(|rows|, j requires 0 <= j < |rows| => rows[j].0)
  }

  /** One page of threads and the number of pages. */
  datatype ThreadPage = ThreadPage(threads: seq<(string, ThreadRow)>, totalPages: nat)

  /** `getThreads`: the authorised account's threads under `tab` with the given done state,
      newest first, page `page` of `pageSize`, and the page count. */
  function GetThreads(db: Db, userId: string, accountId: string, page: int, pageSize: int,
                      tab: string, done: bool, order: seq<string>): (r: Result<ThreadPage, string>)
    requires page >= 1 && pageSize >= 1
    requires Enumerates(order, db.store.threads)
    ensures r.Err? <==> !OwnedBy(db, accountId, userId)
    ensures r.Err? ==> r.error == "Account not found"
    ensures r.Ok? ==>
      var threads := db.store.threads;
      var total := TotalThreads(threads, accountId, done, tab);
      var skip := Skip(page, pageSize);
      && |r.value.threads| <= pageSize
      && Ids(r.value.threads) == Window(Listing(order, threads, accountId, done, tab), skip, pageSize)
      && |r.value.threads| == (if skip >= total then 0 else if total - skip < pageSize then total - skip else pageSize)
      && r.value.totalPages == CeilDiv(total, pageSize)
      && r.value.totalPages * pageSize >= total
      && (r.value.totalPages == 0 || (r.value.totalPages - 1) * pageSize < total)
      && (page <= r.value.totalPages ==> |r.value.threads| >= 1)
  {
    match AuthoriseAccountAccess(db, accountId, userId)
    case Err(e) => Err(e)
    case Ok(account) =>
      var threads := db.store.threads;
      var listing := Listing(order, threads, account.id, done, tab);
      var total := TotalThreads(threads, account.id, done, tab);
      ListingLength(order, threads, account.id, done, tab);
      var p := PageOf(threads, listing, total, page, pageSize);
      assert account.id == accountId;
      assert Ids(p.threads) == Window(listing, Skip(page, pageSize), pageSize);
      Ok(p)
  }

  /** Page `page` of a listing of `total` threads, with the page count. */
  function PageOf(threads: map<string, ThreadRow>, listing: seq<string>, total: nat, page: int, pageSize: int)
    : (p: ThreadPage)
    requires page >= 1 && pageSize >= 1 && total == |listing|
    requires forall i :: 0 <= i < |listing| ==> listing[i] in threads
    ensures |p.threads| <= pageSize
    ensures Ids(p.threads) == Window(listing, Skip(page, pageSize), pageSize)
    ensures var skip := Skip(page, pageSize);
      |p.threads| == (if skip >= total then 0 else if total - skip < pageSize then total - skip else pageSize)
    ensures p.totalPages * pageSize >= total
    ensures p.totalPages == 0 || (p.totalPages - 1) * pageSize < total
    ensures page <= p.totalPages ==> |p.threads| >= 1
  {
    var totalPages := CeilDiv(total, pageSize);
    PageStartsInside(page, totalPages, pageSize, total);
    ThreadPage(PageRows(threads, listing, Skip(page, pageSize), pageSize), totalPages)
  }

  /** A page holds only threads of the account that pass the tab filter, each with its
      stored row, newest first. */
  lemma GetThreadsPage(db: Db, userId: string, accountId: string, page: int, pageSize: int,
                       tab: string, done: bool, order: seq<string>)
    requires page >= 1 && pageSize >= 1
    requires Enumerates(order, db.store.threads)
    requires OwnedBy(db, accountId, userId)
    ensures var r := GetThreads(db, userId, accountId, page, pageSize, tab, done, order);
      var threads := db.store.threads;
      && r.Ok?
      && (forall j :: 0 <= j < |r.value.threads| ==>
            r.value.threads[j].0 in threads && threads[r.value.threads[j].0] == r.value.threads[j].1
            && MatchesTab(r.value.threads[j].1, accountId, done, tab))
      && (forall i, j :: 0 <= i < j < |r.value.threads| ==>
            r.value.threads[i].1.lastMessageDate >= r.value.threads[j].1.lastMessageDate)
      && forall j :: 0 <= j < |r.value.threads| ==>
           r.value.threads[j].0 == Listing(order, threads, accountId, done, tab)[Skip(page, pageSize) + j]
  {
    var threads := db.store.threads;
    var listing := Listing(order, threads, accountId, done, tab);
    var rows := GetThreads(db, userId, accountId, page, pageSize, tab, done, order).value.threads;
    var skip := Skip(page, pageSize);
    assert rows == PageRows(threads, listing, skip, pageSize);
    PageRowsOfListing(threads, listing, skip, pageSize, accountId, done, tab);
  }

  /** The pages of `getThreads` are the generic pages of the listing: page `page` holds the
      ids of `Pages(listing, pageSize, totalPages)[page - 1]`, so asking for pages 1, 2, ... up
      to the page count visits the whole listing, in order, each thread once. */
  lemma GetThreadsWalk(db: Db, userId: string, accountId: string, pageSize: nat,
                       tab: string, done: bool, order: seq<string>)
    requires pageSize >= 1
    requires Enumerates(order, db.store.threads)
    requires OwnedBy(db, accountId, userId)
    ensures var listing := Listing(order, db.store.threads, accountId, done, tab);
      var n := GetThreads(db, userId, accountId, 1, pageSize, tab, done, order).value.totalPages;
      && n == CeilDiv(|listing|, pageSize)
      && (forall page :: 1 <= page <= n ==>
            Ids(GetThreads(db, userId, accountId, page, pageSize, tab, done, order).value.threads)
            == Pages(listing, pageSize, n)[page - 1])
      && Flatten(Pages(listing, pageSize, n)) == listing
  {
    var listing := Listing(order, db.store.threads, accountId, done, tab);
    ListingLength(order, db.store.threads, accountId, done, tab);
    var n := CeilDiv(|listing|, pageSize);
    assert GetThreads(db, userId, accountId, 1, pageSize, tab, done, order).value.totalPages == n;
    forall page | 1 <= page <= n
      ensures Ids(GetThreads(db, userId, accountId, page, pageSize, tab, done, order).value.threads)
           == Pages(listing, pageSize, n)[page - 1]
    {
      GetThreadsPageAt(db, userId, accountId, pageSize, tab, done, order, page, listing, n);
    }
    PagesPartition(listing, pageSize);
  }

  /** Page `page` of `getThreads`, for a page within the count, is entry `page - 1` of the
      generic pages of the listing. */
  lemma GetThreadsPageAt(db: Db, userId: string, accountId: string, pageSize: nat,
                         tab: string, done: bool, order: seq<string>, page: int, listing: seq<string>, n: nat)
    requires pageSize >= 1 && 1 <= page <= n
    requires Enumerates(order, db.store.threads)
    requires OwnedBy(db, accountId, userId)
    requires listing == Listing(order, db.store.threads, accountId, done, tab)
    ensures Ids(GetThreads(db, userId, accountId, page, pageSize, tab, done, order).value.threads)
         == Pages(listing, pageSize, n)[page - 1]
  {
    PageAt(listing, pageSize, n, page - 1);
    SkipIsOffset(page, pageSize);
  }

  /** The rows of a window of the listing carry the listing's properties. */
  lemma PageRowsOfListing(threads: map<string, ThreadRow>, listing: seq<string>, skip: nat, take: nat,
                          accountId: string, done: bool, tab: string)
    requires forall i :: 0 <= i < |listing| ==> listing[i] in threads && MatchesTab(threads[listing[i]], accountId, done, tab)
    requires forall i, j :: 0 <= i < j < |listing| ==>
      threads[listing[i]].lastMessageDate >= threads[listing[j]].lastMessageDate
    ensures var rows := PageRows(threads, listing, skip, take);
      && (forall j :: 0 <= j < |rows| ==>
            rows[j].0 in threads && threads[rows[j].0] == rows[j].1 && MatchesTab(rows[j].1, accountId, done, tab))
      && (forall i, j :: 0 <= i < j < |rows| ==> rows[i].1.lastMessageDate >= rows[j].1.lastMessageDate)
  {
    var rows := PageRows(threads, listing, skip, take);
    forall i, j | 0 <= i < j < |rows|
      ensures rows[i].1.lastMessageDate >= rows[j].1.lastMessageDate
    {
      assert rows[i].1 == threads[listing[skip + i]];
      assert rows[j].1 == threads[listing[skip + j]];
    }
  }

  /** `skip: (page - 1) * pageSize`: the entries before page `page`. */
  function Skip(page: int, pageSize: nat): nat
    requires page >= 1
  {
    (page - 1) * pageSize
  }

  /** The rows of `take` ids of the listing from position `skip`. */
  function PageRows(threads: map<string, ThreadRow>, ids: seq<string>, skip: nat, take: nat)
    : (rows: seq<(string, ThreadRow)>)
    requires forall i :: 0 <= i < |ids| ==> ids[i] in threads
    ensures |rows| <= take
    ensures Ids(rows) == Window(ids, skip, take)
    ensures skip < |ids| && take >= 1 ==> |rows| >= 1
    ensures forall j :: 0 <= j < |rows| ==>
      skip + j < |ids| && rows[j] == (ids[skip + j], threads[ids[skip + j]])
  {
    var w := Window(ids, skip, take);
    seq(|w|, j requires 0 <= j < |w| => (w[j], threads[w[j]]))
  }

  /** A page up to the page count starts inside the listing. */
  lemma PageStartsInside(page: int, totalPages: nat, pageSize: nat, total: nat)
    requires page >= 1 && pageSize >= 1
    requires totalPages == 0 || (totalPages - 1) * pageSize < total
    ensures page <= totalPages ==> Skip(page, pageSize) < total
  {
    if page <= totalPages {
      var a: nat := page - 1;
      var b: nat := totalPages - 1;
      assert b * pageSize == a * pageSize + (b - a) * pageSize;
    }
  }

  // ---------------------------------------------------------------------------------
  // The thread counts

  /** One value per status flag. */
  datatype Counts<T> = Counts(inbox: T, draft: T, sent: T, trash: T, junk: T)

  function CountOf<T>(c: Counts<T>, l: Label): T {
    match l
    case Inbox => c.inbox
    case Draft => c.draft
    case Sent => c.sent
    case Trash => c.trash
    case Junk => c.junk
  }

  /** The account's threads. */
  function AccountThreads(threads: map<string, ThreadRow>, accountId: string): set<string> {
    set id | id in threads && threads[id].accountId == accountId
  }

  /** The account's threads that hold flag `l`, done or not. */
  function FlagCount(threads: map<string, ThreadRow>, accountId: string, l: Label): nat {
    |set id | id in threads && threads[id].accountId == accountId && Holds(threads[id].flags, l)|
  }

  /** `SUM(CASE WHEN flag THEN 1 ELSE 0 END)` over the account's rows: the number of rows
      with the flag, but NULL when there are no rows to sum. */
  function SqlSum(threads: map<string, ThreadRow>, accountId: string, l: Label): (r: Option<nat>)
    ensures r.None? <==> AccountThreads(threads, accountId) == {}
    ensures r.Some? ==> r.value == FlagCount(threads, accountId, l)
  {
    if AccountThreads(threads, accountId) == {} then None else Some(FlagCount(threads, accountId, l))
  }

  /** The raw query's result: an aggregate without GROUP BY always yields exactly one row. */
  function CountRows(threads: map<string, ThreadRow>, accountId: string): (rows: seq<Counts<Option<nat>>>)
    ensures |rows| == 1
    ensures forall l :: CountOf(rows[0], l) == SqlSum(threads, accountId, l)
  {
    [Counts(SqlSum(threads, accountId, Inbox), SqlSum(threads, accountId, Draft), SqlSum(threads, accountId, Sent),
            SqlSum(threads, accountId, Trash), SqlSum(threads, accountId, Junk))]
  }

  const ZeroCounts: Counts<Option<nat>> := Counts(Some(0), Some(0), Some(0), Some(0), Some(0))

  /** `getThreadsCount` as written: the first row of the query, or zeros when there is none. */
  function GetThreadsCountAsWritten(db: Db, userId: string, accountId: string): (r: Result<Counts<Option<nat>>, string>)
    ensures r.Err? <==> !OwnedBy(db, accountId, userId)
    ensures r.Ok? && AccountThreads(db.store.threads, accountId) != {} ==>
      forall l :: CountOf(r.value, l) == Some(FlagCount(db.store.threads, accountId, l))
  {
    match AuthoriseAccountAccess(db, accountId, userId)
    case Err(e) => Err(e)
    case Ok(account) =>
      var rows := CountRows(db.store.threads, account.id);
      Ok(if |rows| > 0 then rows[0] else ZeroCounts)
  }

  /** The zero fallback is never reached: an account without threads gets NULL for every
      count, not 0. */
  lemma EmptyAccountCountsAreNull(db: Db, userId: string, accountId: string)
    requires OwnedBy(db, accountId, userId)
    requires forall id :: id in db.store.threads ==> db.store.threads[id].accountId != accountId
    ensures GetThreadsCountAsWritten(db, userId, accountId) == Ok(Counts(None, None, None, None, None))
    ensures GetThreadsCountAsWritten(db, userId, accountId) != Ok(ZeroCounts)
  {
    var threads := db.store.threads;
    assert AccountThreads(threads, accountId) == {};
    var c := GetThreadsCountAsWritten(db, userId, accountId).value;
    assert c.inbox == CountOf(c, Inbox) == None;
    assert c.draft == CountOf(c, Draft) == None;
    assert c.sent == CountOf(c, Sent) == None;
    assert c.trash == CountOf(c, Trash) == None;
    assert c.junk == CountOf(c, Junk) == None;
  }

  /** `getThreadsCount` as intended: per flag, the number of the account's threads that
      hold it, 0 included. */
  function GetThreadsCount(db: Db, userId: string, accountId: string): (r: Result<Counts<nat>, string>)
    ensures r.Err? <==> !OwnedBy(db, accountId, userId)
    ensures r.Err? ==> r.error == "Account not found"
    ensures r.Ok? ==> forall l :: CountOf(r.value, l) == FlagCount(db.store.threads, accountId, l)
  {
    match AuthoriseAccountAccess(db, accountId, userId)
    case Err(e) => Err(e)
    case Ok(account) =>
      var threads := db.store.threads;
      Ok(Counts(FlagCount(threads, account.id, Inbox), FlagCount(threads, account.id, Draft),
                FlagCount(threads, account.id, Sent), FlagCount(threads, account.id, Trash),
                FlagCount(threads, account.id, Junk)))
  }

  /** The intended counts are 0 for an account without threads, agree with the query's
      sums whenever the account has threads, and never exceed its number of threads. */
  lemma CountsAsIntended(db: Db, userId: string, accountId: string)
    requires OwnedBy(db, accountId, userId)
    ensures var threads := db.store.threads;
      var c := GetThreadsCount(db, userId, accountId).value;
      var q := GetThreadsCountAsWritten(db, userId, accountId).value;
      && (AccountThreads(threads, accountId) == {} ==> forall l :: CountOf(c, l) == 0)
      && (AccountThreads(threads, accountId) != {} ==> forall l :: CountOf(q, l) == Some(CountOf(c, l)))
      && forall l :: CountOf(c, l) <= |AccountThreads(threads, accountId)|
  {
    var threads := db.store.threads;
    forall l ensures FlagCount(threads, accountId, l) <= |AccountThreads(threads, accountId)| {
      var flagged := set id | id in threads && threads[id].accountId == accountId && Holds(threads[id].flags, l);
      SubsetCard(flagged, AccountThreads(threads, accountId));
    }
  }

  /** Under trash dominance a trashed thread is counted under no other flag, so the trash
      count and any other count together never exceed the account's threads. */
  lemma TrashCountDisjoint(threads: map<string, ThreadRow>, accountId: string, l: Label)
    requires forall id :: id in threads ==> TrashExclusive(threads[id].flags)
    requires l != Trash
    ensures FlagCount(threads, accountId, Trash) + FlagCount(threads, accountId, l) <= |AccountThreads(threads, accountId)|
  {
    var a := set id | id in threads && threads[id].accountId == accountId && Holds(threads[id].flags, Trash);
    var b := set id | id in threads && threads[id].accountId == accountId && Holds(threads[id].flags, l);
    assert a !! b;
    assert |a + b| == |a| + |b|;
    SubsetCard(a + b, AccountThreads(threads, accountId));
  }
}
