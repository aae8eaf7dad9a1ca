/** `getReplyDetails`: the recipients, subject and message id that pre-fill a reply to a
    thread, taken from the thread's latest message not sent by the account itself. */
module ReplyDetails {
  import opened Wrappers
  import opened Text
  import opened AddressBook
  import opened SyncToDb
  import opened Accounts
  import opened Sorting
  import opened AccountRouter

  /** An email of the thread with its address relations joined, as the query selects it. */
  datatype EmailView = EmailView(
    from: AddressRow, to: seq<AddressRow>, cc: seq<AddressRow>, bcc: seq<AddressRow>,
    sentAt: int, subject: string, internetMessageId: string)

  /** The two kinds of reply the procedure accepts. */
  datatype ReplyType = Reply | ReplyAll

  /** What the composer is pre-filled with; the sender is the account itself. */
  datatype Details = Details(
    to: seq<AddressRow>, cc: seq<AddressRow>, fromName: string, fromAddress: string,
    subject: string, id: string)

  // ---------------------------------------------------------------------------------
  // Loading the thread

  /** The address rows by their identity. */
  function IdIndex(t: AddressTable): (idx: map<nat, AddressRow>)
    requires AddressBook.Wf(t)
    ensures forall id :: id in idx <==> IdKnown(t, id)
    ensures forall k :: k in t.rows ==> t.rows[k].id in idx && idx[t.rows[k].id] == t.rows[k]
    ensures forall id :: id in idx ==> idx[id].id == id
  {
    map k | k in t.rows :: t.rows[k].id := t.rows[k]
  }

  /** The rows behind a list of address ids, in order. */
  function RowsOf(idx: map<nat, AddressRow>, ids: seq<nat>): (r: seq<AddressRow>)
    requires forall x :: x in ids ==> x in idx
    ensures |r| == |ids| && forall i :: 0 <= i < |ids| ==> r[i] == idx[ids[i]]
  {
    seq(|ids|, i requires 0 <= i < |ids| => idx[ids[i]])
  }

  /** The email joined with its sender and recipients. */
  function ViewOf(t: AddressTable, e: EmailRow): (v: EmailView)
    requires AddressBook.Wf(t) && RefsKnown(t, e)
    ensures v.sentAt == e.content.sentAt && v.subject == e.content.subject
    ensures v.internetMessageId == e.content.internetMessageId
    ensures v.from.id == e.fromId && IdKnown(t, e.fromId)
    ensures |v.to| == |e.toIds| && forall i :: 0 <= i < |v.to| ==> v.to[i].id == e.toIds[i]
    ensures |v.cc| == |e.ccIds| && forall i :: 0 <= i < |v.cc| ==> v.cc[i].id == e.ccIds[i]
  {
    var idx := IdIndex(t);
    var to := RowsOf(idx, e.toIds);
    EmailView(idx[e.fromId], to, RowsOf(idx, e.ccIds), RowsOf(idx, e.bccIds),
              e.content.sentAt, e.content.subject, e.content.internetMessageId)
  }

  /** The emails of thread `tid`, in storage order. */
  function EmailsOf(rows: seq<EmailRow>, tid: string): (r: seq<EmailRow>)
    ensures forall e :: e in r <==> e in rows && e.threadId == tid
  {
    if |rows| == 0 then []
    else
      var rest := EmailsOf(rows[1..], tid);
      assert forall e :: e in rows <==> e == rows[0] || e in rows[1..];
      if rows[0].threadId == tid then [rows[0]] + rest else rest
  }

  /** The sort key of `orderBy: { sentAt: "asc" }`. */
  function SentAt(e: EmailRow): int {
    e.content.sentAt
  }

  /** The thread's emails, oldest sentAt first. */
  function ThreadEmails(s: Store, tid: string): (r: seq<EmailRow>)
    ensures forall e :: e in r <==> e in s.emails && e.threadId == tid
    ensures forall i, j :: 0 <= i < j < |r| ==> r[i].content.sentAt <= r[j].content.sentAt
  {
    var es := EmailsOf(s.emails, tid);
    SortByKeepsElements(es, SentAt);
    SortBy(es, SentAt)
  }

  /** The email was sent from `address`: its sender row has that address. */
  predicate SentBy(t: AddressTable, e: EmailRow, address: string) {
    exists k :: k in t.rows && t.rows[k].id == e.fromId && t.rows[k].address == address
  }

  /** What joining a store's emails with their thread and address rows needs: a
      well-formed address table, and every email's thread and address ids known. */
  predicate Joinable(s: Store) {
    && AddressBook.Wf(s.addresses)
    && (forall i :: 0 <= i < |s.emails| ==> s.emails[i].threadId in s.threads)
    && (forall i :: 0 <= i < |s.emails| ==> RefsKnown(s.addresses, s.emails[i]))
  }

  /** Every email of a thread can be joined. */
  lemma ThreadEmailsJoinable(s: Store, tid: string)
    requires Joinable(s)
    ensures forall i :: 0 <= i < |ThreadEmails(s, tid)| ==> RefsKnown(s.addresses, ThreadEmails(s, tid)[i])
  {
    var es := ThreadEmails(s, tid);
    forall i | 0 <= i < |es| ensures RefsKnown(s.addresses, es[i]) {
      assert es[i] in s.emails;
    }
  }

  /** The thread's emails, joined, oldest first. */
  function ThreadViews(s: Store, tid: string): (r: seq<EmailView>)
    requires Joinable(s)
    ensures var es := ThreadEmails(s, tid);
      && |r| == |es|
      && forall i :: 0 <= i < |r| ==> RefsKnown(s.addresses, es[i]) && r[i] == ViewOf(s.addresses, es[i])
  {
    var es := ThreadEmails(s, tid);
    ThreadEmailsJoinable(s, tid);
    seq(|es|, i requires 0 <= i < |es| => ViewOf(s.addresses, es[i]))
  }

  /** A joined view's sender address is the one its row records. */
  lemma ViewSender(t: AddressTable, e: EmailRow, address: string)
    requires AddressBook.Wf(t) && RefsKnown(t, e)
    ensures ViewOf(t, e).from.address == address <==> SentBy(t, e, address)
  {
    var idx := IdIndex(t);
    var k :| k in t.rows && t.rows[k].id == e.fromId;
    assert idx[e.fromId] == t.rows[k];
  }

  /** The joined sender is the stored row with the email's sender id, and the joined
      recipients and copies are exactly the stored rows whose ids the email lists. */
  lemma ViewRecipients(t: AddressTable, e: EmailRow)
    requires AddressBook.Wf(t) && RefsKnown(t, e)
    ensures ViewOf(t, e).from in t.rows.Values && ViewOf(t, e).from.id == e.fromId
    ensures forall x :: x in ViewOf(t, e).to <==> x in t.rows.Values && x.id in e.toIds
    ensures forall x :: x in ViewOf(t, e).cc <==> x in t.rows.Values && x.id in e.ccIds
  {
    var idx := IdIndex(t);
    var v := ViewOf(t, e);
    forall id | id in idx ensures idx[id] in t.rows.Values {
      var k :| k in t.rows && t.rows[k].id == id;
    }
    forall x | x in t.rows.Values && x.id in e.toIds ensures x in v.to {
      var k :| k in t.rows && t.rows[k] == x;
      var i :| 0 <= i < |e.toIds| && e.toIds[i] == x.id;
      assert v.to[i] == idx[e.toIds[i]];
    }
    forall x | x in t.rows.Values && x.id in e.ccIds ensures x in v.cc {
      var k :| k in t.rows && t.rows[k] == x;
      var i :| 0 <= i < |e.ccIds| && e.ccIds[i] == x.id;
      assert v.cc[i] == idx[e.ccIds[i]];
    }
  }

  // ---------------------------------------------------------------------------------
  // Choosing the message to answer

  /** `emails.reverse().find(e => e.from.address !== own)`: the last email of the list not
      sent from `own`. */
  function LastExternal(views: seq<EmailView>, own: string): (r: Option<EmailView>)
    ensures r.Some? <==> exists i :: 0 <= i < |views| && views[i].from.address != own
    ensures r.Some? ==>
      && r.value.from.address != own
      && exists k :: 0 <= k < |views| && views[k] == r.value
           && forall j :: k < j < |views| ==> views[j].from.address == own
  {
    if |views| == 0 then None
    else
      var v := views[|views| - 1];
      if v.from.address != own then Some(v)
      else
        var init := views[..|views| - 1];
        assert forall i :: 0 <= i < |init| ==> init[i] == views[i];
        LastExternal(init, own)
  }

  /** On a list in ascending sentAt order, the chosen email is a latest external one: no
      external email was sent after it. */
  lemma LastExternalIsLatest(views: seq<EmailView>, own: string)
    requires forall i, j :: 0 <= i < j < |views| ==> views[i].sentAt <= views[j].sentAt
    requires LastExternal(views, own).Some?
    ensures forall i :: 0 <= i < |views| && views[i].from.address != own ==>
      views[i].sentAt <= LastExternal(views, own).value.sentAt
  {
    var v := LastExternal(views, own).value;
    var k :| 0 <= k < |views| && views[k] == v && forall j :: k < j < |views| ==> views[j].from.address == own;
    forall i | 0 <= i < |views| && views[i].from.address != own
      ensures views[i].sentAt <= v.sentAt
    {
      assert i <= k;
    }
  }

  // ---------------------------------------------------------------------------------
  // The drafts

  /** A reply: to the chosen email's sender only. */
  function ReplyDraft(account: AccountView, v: EmailView): (d: Details)
    ensures d.to == [v.from] && d.cc == []
    ensures d.fromName == account.name && d.fromAddress == account.emailAddress
    ensures d.subject == v.subject && d.id == v.internetMessageId
  {
    Details([v.from], [], account.name, account.emailAddress, v.subject, v.internetMessageId)
  }

  /** The recipients that are not the address `own`, in order. */
  function WithoutAddress(rows: seq<AddressRow>, own: string): (r: seq<AddressRow>)
    ensures forall x :: x in r <==> x in rows && x.address != own
    ensures |r| <= |rows|
  {
    if |rows| == 0 then []
    else
      var rest := WithoutAddress(rows[1..], own);
      assert forall x :: x in rows <==> x == rows[0] || x in rows[1..];
      if rows[0].address != own then [rows[0]] + rest else rest
  }

  /** A reply to all: the chosen email's sender, then its other recipients and copies with
      the account's own address left out. */
  function ReplyAllDraft(account: AccountView, v: EmailView): (d: Details)
    ensures |d.to| >= 1 && d.to[0] == v.from
    ensures forall x :: x in d.to[1..] <==> x in v.to && x.address != account.emailAddress
    ensures forall x :: x in d.cc <==> x in v.cc && x.address != account.emailAddress
    ensures d.fromName == account.name && d.fromAddress == account.emailAddress
    ensures d.subject == v.subject && d.id == v.internetMessageId
  {
    var to := [v.from] + WithoutAddress(v.to, account.emailAddress);
    assert to[1..] == WithoutAddress(v.to, account.emailAddress);
    Details(to, WithoutAddress(v.cc, account.emailAddress), account.name, account.emailAddress,
            v.subject, v.internetMessageId)
  }

  /** The recipients whose row id, as text, differs from `accountId`. */
  function WithoutRowId(rows: seq<AddressRow>, accountId: string, idText: nat -> string): (r: seq<AddressRow>)
    ensures forall x :: x in r <==> x in rows && idText(x.id) != accountId
  {
    if |rows| == 0 then []
    else
      var rest := WithoutRowId(rows[1..], accountId, idText);
      assert forall x :: x in rows <==> x == rows[0] || x in rows[1..];
      if idText(rows[0].id) != accountId then [rows[0]] + rest else rest
  }

  /** A reply to all as the source filters it: by comparing each recipient's address-row id
      (rendered as text by `idText`) with the ACCOUNT's id, two identities of different
      tables. */
  function ReplyAllDraftAsWritten(account: AccountView, v: EmailView, idText: nat -> string): (d: Details)
    ensures |d.to| >= 1 && d.to[0] == v.from
    ensures forall x :: x in d.to[1..] <==> x in v.to && idText(x.id) != account.id
    ensures forall x :: x in d.cc <==> x in v.cc && idText(x.id) != account.id
  {
    var to := [v.from] + WithoutRowId(v.to, account.id, idText);
    assert to[1..] == WithoutRowId(v.to, account.id, idText);
    Details(to, WithoutRowId(v.cc, account.id, idText), account.name, account.emailAddress,
            v.subject, v.internetMessageId)
  }

  /** Since no address-row id equals an account id, the as-written filter removes nobody:
      the account's own address stays among the recipients whenever the chosen email was
      sent or copied to it. */
  lemma AsWrittenKeepsOwnAddress(account: AccountView, v: EmailView, idText: nat -> string)
    requires forall n :: idText(n) != account.id
    ensures var d := ReplyAllDraftAsWritten(account, v, idText);
      && (forall x :: x in d.to[1..] <==> x in v.to)
      && (forall x :: x in d.cc <==> x in v.cc)
      && ((exists x :: x in v.to && x.address == account.emailAddress) ==>
            exists x :: x in d.to[1..] && x.address == account.emailAddress)
  {
  }

  /** A concrete instance: account "4242" at me@example.com answers a message from
      a@example.com addressed to itself; with address-row ids rendered "c0", "c1", … the
      as-written draft sends the reply back to me@example.com, the corrected one does not. */
  lemma OwnAddressCounterexample()
    ensures var account := AccountView("4242", "me@example.com", "token", "Me");
      var sender := AddressRow(0, "4242", "a@example.com", None, None);
      var me := AddressRow(1, "4242", "me@example.com", None, None);
      var v := EmailView(sender, [me], [], [], 10, "Hello", "<m1@example.com>");
      var idText := (n: nat) => "c" + NatToString(n);
      && me in ReplyAllDraftAsWritten(account, v, idText).to
      && me !in ReplyAllDraft(account, v).to
  {
    var account := AccountView("4242", "me@example.com", "token", "Me");
    var sender := AddressRow(0, "4242", "a@example.com", None, None);
    var me := AddressRow(1, "4242", "me@example.com", None, None);
    var v := EmailView(sender, [me], [], [], 10, "Hello", "<m1@example.com>");
    var idText := (n: nat) => "c" + NatToString(n);
    assert idText(me.id)[0] == 'c';
    assert idText(me.id) != account.id;
    var d := ReplyAllDraftAsWritten(account, v, idText);
    assert me in d.to[1..];
    var c := ReplyAllDraft(account, v);
    assert c.to == [sender] + c.to[1..];
    assert me !in c.to[1..];
  }

  /** The recipients of a draft answering stored email `e`: the first is e's sender; a
      reply has no other recipient, and a reply to all adds exactly e's other recipients
      and copies that are not the account's own address. */
  lemma DraftRecipients(t: AddressTable, e: EmailRow, account: AccountView, kind: ReplyType, d: Details)
    requires AddressBook.Wf(t) && RefsKnown(t, e)
    requires d == if kind == Reply then ReplyDraft(account, ViewOf(t, e)) else ReplyAllDraft(account, ViewOf(t, e))
    ensures |d.to| >= 1 && d.to[0] in t.rows.Values && d.to[0].id == e.fromId
    ensures kind == Reply ==> |d.to| == 1 && d.cc == []
    ensures kind == ReplyAll ==>
      && (forall x :: x in d.to[1..] <==> x in t.rows.Values && x.id in e.toIds && x.address != account.emailAddress)
      && (forall x :: x in d.cc <==> x in t.rows.Values && x.id in e.ccIds && x.address != account.emailAddress)
  {
    ViewRecipients(t, e);
  }

  // ---------------------------------------------------------------------------------
  // The procedure

  /** Some stored email belongs to thread `tid`. */
  predicate HasThreadEmails(s: Store, tid: string) {
    exists i :: 0 <= i < |s.emails| && s.emails[i].threadId == tid
  }

  /** `getReplyDetails(accountId, threadId, replyType)`, with the corrected reply-all
      filter. The thread is looked up by id alone. */
  function GetReplyDetails(db: Db, userId: string, accountId: string, threadId: string, kind: ReplyType)
    : (r: Result<Details, string>)
    requires Joinable(db.store)
    ensures !OwnedBy(db, accountId, userId) ==> r == Err("Account not found")
    ensures OwnedBy(db, accountId, userId) && !HasThreadEmails(db.store, threadId) ==> r == Err("Thread not Found")
    ensures r.Ok? ==>
      && OwnedBy(db, accountId, userId)
      && var own := db.accounts[accountId].emailAddress;
      && r.value.fromName == db.accounts[accountId].name && r.value.fromAddress == own
      && |r.value.to| >= 1 && r.value.to[0].address != own
      && (kind == Reply ==> |r.value.to| == 1 && r.value.cc == [])
      && (kind == ReplyAll ==>
            (forall x :: x in r.value.to[1..] ==> x.address != own)
            && forall x :: x in r.value.cc ==> x.address != own)
  {
    match AuthoriseAccountAccess(db, accountId, userId)
    case Err(e) => Err(e)
    case Ok(account) =>
      var views := ThreadViews(db.store, threadId);
      if threadId !in db.store.threads || |views| == 0 then
        Err("Thread not Found")
      else
        match LastExternal(views, account.emailAddress)
        case None => Err("No External email found in Thread")
        case Some(v) =>
          Ok(if kind == Reply then ReplyDraft(account, v) else ReplyAllDraft(account, v))
  }

  /** `e` is an email of thread `tid` not sent from `own`. */
  predicate ExternalIn(s: Store, tid: string, own: string, e: EmailRow) {
    e in s.emails && e.threadId == tid && !SentBy(s.addresses, e, own)
  }

  /** The joined views stand for the thread's emails, position by position. */
  lemma ViewsOfThread(s: Store, tid: string, own: string)
    requires Joinable(s)
    ensures var es := ThreadEmails(s, tid);
      var views := ThreadViews(s, tid);
      && |views| == |es|
      && (forall i :: 0 <= i < |views| ==>
            (views[i].from.address != own <==> ExternalIn(s, tid, own, es[i]))
            && views[i].sentAt == es[i].content.sentAt && views[i].subject == es[i].content.subject
            && views[i].internetMessageId == es[i].content.internetMessageId)
      && forall e :: ExternalIn(s, tid, own, e) ==> exists p :: 0 <= p < |es| && es[p] == e
  {
    var es := ThreadEmails(s, tid);
    var views := ThreadViews(s, tid);
    forall i | 0 <= i < |views|
      ensures views[i].from.address != own <==> ExternalIn(s, tid, own, es[i])
    {
      assert es[i] in es;
      ViewSender(s.addresses, es[i], own);
    }
    forall e | ExternalIn(s, tid, own, e) ensures exists p :: 0 <= p < |es| && es[p] == e {
      assert e in es;
    }
  }

  /** For an account's own thread with emails, the procedure fails with "No External email
      found in Thread" exactly when every email of the thread was sent from the account's
      address. */
  lemma NoExternalFails(db: Db, userId: string, accountId: string, threadId: string, kind: ReplyType)
    requires Joinable(db.store)
    requires OwnedBy(db, accountId, userId) && HasThreadEmails(db.store, threadId)
    ensures var r := GetReplyDetails(db, userId, accountId, threadId, kind);
      r.Ok? || r == Err("No External email found in Thread")
    ensures GetReplyDetails(db, userId, accountId, threadId, kind).Ok? <==>
      exists e :: ExternalIn(db.store, threadId, db.accounts[accountId].emailAddress, e)
  {
    ReplyOutcome(db, userId, accountId, threadId, kind);
    ExternalViews(db.store, threadId, db.accounts[accountId].emailAddress);
  }

  /** Past authorisation and the thread lookup, the outcome is decided by the choice of
      the email to answer. */
  lemma ReplyOutcome(db: Db, userId: string, accountId: string, threadId: string, kind: ReplyType)
    requires Joinable(db.store)
    requires OwnedBy(db, accountId, userId) && HasThreadEmails(db.store, threadId)
    ensures var r := GetReplyDetails(db, userId, accountId, threadId, kind);
      var views := ThreadViews(db.store, threadId);
      && (r.Ok? <==> LastExternal(views, db.accounts[accountId].emailAddress).Some?)
      && (r.Err? ==> r == Err("No External email found in Thread"))
  {
    ThreadFound(db.store, threadId);
    var own := db.accounts[accountId].emailAddress;
    var auth := AuthoriseAccountAccess(db, accountId, userId);
    assert auth.Ok? && auth.value.emailAddress == own;
    var views := ThreadViews(db.store, threadId);
    var r := GetReplyDetails(db, userId, accountId, threadId, kind);
    if LastExternal(views, own).Some? {
      assert r.Ok?;
    } else {
      assert r == Err("No External email found in Thread");
    }
  }

  /** A thread with stored emails is in the thread table and has joined views. */
  lemma ThreadFound(s: Store, tid: string)
    requires Joinable(s) && HasThreadEmails(s, tid)
    ensures tid in s.threads && |ThreadViews(s, tid)| > 0
  {
    var i0 :| 0 <= i0 < |s.emails| && s.emails[i0].threadId == tid;
    assert s.emails[i0] in ThreadEmails(s, tid);
  }

  /** Some joined view of the thread is external exactly when some email of the thread is. */
  lemma ExternalViews(s: Store, tid: string, own: string)
    requires Joinable(s)
    ensures (exists i :: 0 <= i < |ThreadViews(s, tid)| && ThreadViews(s, tid)[i].from.address != own)
        <==> exists e :: ExternalIn(s, tid, own, e)
  {
    var es := ThreadEmails(s, tid);
    var views := ThreadViews(s, tid);
    ViewsOfThread(s, tid, own);
    if exists i :: 0 <= i < |views| && views[i].from.address != own {
      var i :| 0 <= i < |views| && views[i].from.address != own;
      assert ExternalIn(s, tid, own, es[i]);
    }
    if exists e :: ExternalIn(s, tid, own, e) {
      var e :| ExternalIn(s, tid, own, e);
      var p :| 0 <= p < |es| && es[p] == e;
      assert views[p].from.address != own;
    }
  }

  /** Draft `d` answers stored email `e` of thread `tid`: `e` was not sent from `own`, no
      such email of the thread was sent after it, and `d` carries its subject and message
      id. `d` goes to `e`'s sender and, for a reply to all, to exactly `e`'s other
      recipients and copies, `own` left out. */
  ghost predicate Answers(s: Store, tid: string, own: string, kind: ReplyType, d: Details, e: EmailRow) {
    var t := s.addresses;
    && ExternalIn(s, tid, own, e)
    && (forall e' :: ExternalIn(s, tid, own, e') ==> e'.content.sentAt <= e.content.sentAt)
    && d.subject == e.content.subject && d.id == e.content.internetMessageId
    && |d.to| >= 1 && d.to[0] in t.rows.Values && d.to[0].id == e.fromId
    && (kind == ReplyAll ==>
          && (forall x :: x in d.to[1..] <==> x in t.rows.Values && x.id in e.toIds && x.address != own)
          && (forall x :: x in d.cc <==> x in t.rows.Values && x.id in e.ccIds && x.address != own))
  }

  /** The draft built from the chosen view answers the email behind it. */
  lemma ChosenDraftAnswers(s: Store, tid: string, account: AccountView, kind: ReplyType)
    requires Joinable(s)
    requires LastExternal(ThreadViews(s, tid), account.emailAddress).Some?
    ensures var v := LastExternal(ThreadViews(s, tid), account.emailAddress).value;
      var d := if kind == Reply then ReplyDraft(account, v) else ReplyAllDraft(account, v);
      exists e :: Answers(s, tid, account.emailAddress, kind, d, e)
  {
    var own := account.emailAddress;
    var es := ThreadEmails(s, tid);
    var views := ThreadViews(s, tid);
    ViewsOfThread(s, tid, own);
    LastExternalIsLatest(views, own);
    var v := LastExternal(views, own).value;
    var d := if kind == Reply then ReplyDraft(account, v) else ReplyAllDraft(account, v);
    var k :| 0 <= k < |views| && views[k] == v;
    var e := es[k];
    assert ExternalIn(s, tid, own, e);
    forall e' | ExternalIn(s, tid, own, e') ensures e'.content.sentAt <= e.content.sentAt {
      var p :| 0 <= p < |es| && es[p] == e';
      assert views[p].from.address != own;
    }
    DraftRecipients(s.addresses, e, account, kind, d);
    assert Answers(s, tid, own, kind, d, e);
  }

  /** A reply answers the latest email of the thread not sent from the account's address:
      its subject, message id, sender and (for a reply to all) recipients. */
  lemma ReplyAnswersLatestExternal(db: Db, userId: string, accountId: string, threadId: string, kind: ReplyType)
    requires Joinable(db.store)
    ensures var res := GetReplyDetails(db, userId, accountId, threadId, kind);
      res.Ok? ==>
        && accountId in db.accounts
        && exists e :: Answers(db.store, threadId, db.accounts[accountId].emailAddress, kind, res.value, e)
  {
    var res := GetReplyDetails(db, userId, accountId, threadId, kind);
    if res.Ok? {
      var account := AuthoriseAccountAccess(db, accountId, userId).value;
      var views := ThreadViews(db.store, threadId);
      var v := LastExternal(views, account.emailAddress).value;
      assert res.value == if kind == Reply then ReplyDraft(account, v) else ReplyAllDraft(account, v);
      ChosenDraftAnswers(db.store, threadId, account, kind);
    }
  }
}
