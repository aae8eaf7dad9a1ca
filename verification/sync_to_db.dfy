/** The reconciler: files one provider message into the thread, email, address and
    attachment tables, as one deterministic transition of the store. A batch is reconciled
    one message after another. */
module SyncToDb {
  import opened Wrappers
  import opened Seqs
  import opened Labels
  import opened AddressBook

  datatype Header = Header(name: string, value: string)

  /** An attachment as the provider sends it. */
  datatype Attachment = Attachment(
    id: string, name: string, mimeType: string, size: int, inline: bool,
    contentId: Option<string>, content: Option<string>, contentLocation: Option<string>)

  /** The fields of a message that the email row copies verbatim. Times are opaque
      comparable instants. */
  datatype Content = Content(
    createdTime: int, sentAt: int, receivedAt: int,
    internetMessageId: string, subject: string,
    sysLabels: seq<string>, keywords: seq<string>, sysClassifications: seq<string>,
    sensitivity: string, meetingMessageMethod: Option<string>, hasAttachments: bool,
    internetHeaders: seq<Header>, body: Option<string>, bodySnippet: Option<string>,
    inReplyTo: Option<string>, references: Option<string>, threadIndex: Option<string>,
    nativeProperties: map<string, string>, folderId: Option<string>, omitted: seq<string>)

  /** One record of the provider's change feed. */
  datatype EmailMessage = EmailMessage(
    id: string, threadId: string, content: Content,
    from: EmailAddress, to: seq<EmailAddress>, cc: seq<EmailAddress>,
    bcc: seq<EmailAddress>, replyTo: seq<EmailAddress>,
    attachments: seq<Attachment>)

  datatype ThreadRow = ThreadRow(
    accountId: string, subject: string, lastMessageDate: int, done: bool,
    flags: Flags, participantIds: seq<nat>)

  datatype EmailRow = EmailRow(
    id: string, threadId: string, emailLabel: Label, content: Content, lastModifiedTime: int,
    fromId: nat, toIds: seq<nat>, ccIds: seq<nat>, bccIds: seq<nat>, replyToIds: seq<nat>)

  datatype AttachmentRow = AttachmentRow(
    emailId: string, name: string, mimeType: string, size: int, inline: bool,
    contentId: Option<string>, content: Option<string>, contentLocation: Option<string>)

  /** The database: threads by id, the email table in storage order (ids unique), addresses
      and attachments. */
  datatype Store = Store(
    addresses: AddressTable,
    threads: map<string, ThreadRow>,
    emails: seq<EmailRow>,
    attachments: map<string, AttachmentRow>)

  /** What the reconciler cannot see: the clock that stamps `lastModifiedTime`, the
      addresses whose upsert fails in the database, and the error (if any) that opening the
      account's search index throws before the batch starts. */
  datatype Env = Env(now: int, faults: set<string>, indexError: Option<string>)

  predicate UniqueIds(rows: seq<EmailRow>) {
    forall i, j :: 0 <= i < j < |rows| ==> rows[i].id != rows[j].id
  }

  predicate HasEmail(rows: seq<EmailRow>, id: string) {
    exists i :: 0 <= i < |rows| && rows[i].id == id
  }

  /** Some address row has identity `id`. */
  predicate IdKnown(t: AddressTable, id: nat) {
    exists k :: k in t.rows && t.rows[k].id == id
  }

  /** Every address an email row refers to exists. */
  predicate RefsKnown(t: AddressTable, e: EmailRow) {
    && IdKnown(t, e.fromId)
    && (forall x :: x in e.toIds ==> IdKnown(t, x))
    && (forall x :: x in e.ccIds ==> IdKnown(t, x))
    && (forall x :: x in e.bccIds ==> IdKnown(t, x))
    && (forall x :: x in e.replyToIds ==> IdKnown(t, x))
  }

  /** Referential integrity and the thread invariants the reconciler keeps: address rows
      well formed, email ids unique, every email's thread and addresses exist, every thread
      obeys trash dominance and lists each participant once. */
  predicate Wf(s: Store) {
    && AddressBook.Wf(s.addresses)
    && UniqueIds(s.emails)
    && (forall i :: 0 <= i < |s.emails| ==> s.emails[i].threadId in s.threads)
    && (forall i :: 0 <= i < |s.emails| ==> RefsKnown(s.addresses, s.emails[i]))
    && (forall t :: t in s.threads ==> TrashExclusive(s.threads[t].flags))
    && (forall t :: t in s.threads ==> NoDup(s.threads[t].participantIds))
  }

  /** from, to, cc, bcc and replyTo, in that order: the addresses a message upserts. */
  function AllAddresses(m: EmailMessage): seq<EmailAddress> {
    [m.from] + m.to + m.cc + m.bcc + m.replyTo
  }

  /** `addrs.map(a => amap.get(a.address)).filter(Boolean)`, as ids: the resolved rows'
      ids in order, unresolved addresses dropped. */
  function ResolveIds(amap: map<string, AddressRow>, addrs: seq<EmailAddress>): (ids: seq<nat>)
    ensures |ids| <= |addrs|
    ensures forall x :: x in ids <==>
      exists j :: 0 <= j < |addrs| && addrs[j].address in amap && amap[addrs[j].address].id == x
  {
    if |addrs| == 0 then []
    else
      var rest := ResolveIds(amap, addrs[1..]);
      assert forall j :: 0 <= j < |addrs| - 1 ==> addrs[1..][j] == addrs[j + 1];
      (if addrs[0].address in amap then [amap[addrs[0].address].id] else []) + rest
  }

  /** The row the email upsert writes; the create and update branches write the same data,
      so the row is fully determined by the message, its label, the resolved ids and the clock. */
  function EmailRowFor(m: EmailMessage, lbl: Label, fromId: nat, amap: map<string, AddressRow>, now: int): EmailRow {
    EmailRow(m.id, m.threadId, lbl, m.content, now, fromId,
             ResolveIds(amap, m.to), ResolveIds(amap, m.cc), ResolveIds(amap, m.bcc), ResolveIds(amap, m.replyTo))
  }

  /** Upsert keyed by email id: the row with this id is replaced in place, or the row is
      appended when the id is new. */
  function UpsertEmailRow(rows: seq<EmailRow>, row: EmailRow): (r: seq<EmailRow>)
    ensures HasEmail(rows, row.id) ==>
      |r| == |rows| && forall i :: 0 <= i < |rows| ==> r[i] == if rows[i].id == row.id then row else rows[i]
    ensures !HasEmail(rows, row.id) ==> r == rows + [row]
    ensures HasEmail(r, row.id)
    ensures forall i :: 0 <= i < |r| && r[i].id == row.id ==> r[i] == row
    ensures UniqueIds(rows) ==> UniqueIds(r)
  {
    if HasEmail(rows, row.id) then
      var r := seq(|rows|, i requires 0 <= i < |rows| => if rows[i].id == row.id then row else rows[i]);
      var k :| 0 <= k < |rows| && rows[k].id == row.id;
      assert r[k] == row;
      r
    else
      var r := rows + [row];
      assert r[|rows|] == row;
      r
  }

  /** The last email of thread `tid` in ascending receivedAt order: the latest receivedAt,
      and among equal receivedAt the one stored last. */
  function LastInThread(rows: seq<EmailRow>, tid: string): (r: Option<EmailRow>)
    ensures r.Some? <==> exists i :: 0 <= i < |rows| && rows[i].threadId == tid
    ensures r.Some? ==>
      && r.value.threadId == tid
      && (forall i :: 0 <= i < |rows| && rows[i].threadId == tid ==>
            rows[i].content.receivedAt <= r.value.content.receivedAt)
      && exists k :: 0 <= k < |rows| && rows[k] == r.value
           && forall j :: k < j < |rows| && rows[j].threadId == tid ==>
                rows[j].content.receivedAt < r.value.content.receivedAt
  {
    if |rows| == 0 then None
    else
      var init := rows[..|rows| - 1];
      var e := rows[|rows| - 1];
      var prev := LastInThread(init, tid);
      var r := if e.threadId != tid then prev
        else if prev.None? || prev.value.content.receivedAt <= e.content.receivedAt then Some(e)
        else prev;
      LastStep(rows, tid, prev, r);
      r
  }

  /** What `LastInThread` promises, as a predicate on a candidate result. */
  predicate IsLastInThread(rows: seq<EmailRow>, tid: string, r: Option<EmailRow>) {
    && (r.Some? <==> exists i :: 0 <= i < |rows| && rows[i].threadId == tid)
    && (r.Some? ==>
      && r.value.threadId == tid
      && (forall i :: 0 <= i < |rows| && rows[i].threadId == tid ==>
            rows[i].content.receivedAt <= r.value.content.receivedAt)
      && exists k :: 0 <= k < |rows| && rows[k] == r.value
           && forall j :: k < j < |rows| && rows[j].threadId == tid ==>
                rows[j].content.receivedAt < r.value.content.receivedAt)
  }

  /** The step of `LastInThread`: the last row either takes over or leaves the latest of
      the rows before it. */
  lemma LastStep(rows: seq<EmailRow>, tid: string, prev: Option<EmailRow>, r: Option<EmailRow>)
    requires |rows| > 0
    requires IsLastInThread(rows[..|rows| - 1], tid, prev)
    requires var e := rows[|rows| - 1];
      r == if e.threadId != tid then prev
        else if prev.None? || prev.value.content.receivedAt <= e.content.receivedAt then Some(e)
        else prev
    ensures IsLastInThread(rows, tid, r)
  {
    var init := rows[..|rows| - 1];
    assert forall i :: 0 <= i < |init| ==> init[i] == rows[i];
  }

  /** The thread row the thread upsert writes. Create: flags from this message's label
      alone, `done` false. Update: subject, account, lastMessageDate and participants
      overwritten, `done` forced false, flags as `UpdateFlags`. Participants are replaced,
      never merged with the earlier list. */
  function ThreadAfterUpsert(prior: Option<ThreadRow>, accountId: string, m: EmailMessage, lbl: Label, participants: seq<nat>): ThreadRow {
    match prior
    case None => ThreadRow(accountId, m.content.subject, m.content.sentAt, false, CreateFlags(lbl), participants)
    case Some(t) => ThreadRow(accountId, m.content.subject, m.content.sentAt, false, UpdateFlags(t.flags, lbl), participants)
  }

  /** Upsert of one attachment by its own id: an update rewrites every field except the
      owning email; a create points the row at `emailId`. */
  function UpsertAttachment(atts: map<string, AttachmentRow>, emailId: string, a: Attachment): map<string, AttachmentRow> {
    var data := AttachmentRow(emailId, a.name, a.mimeType, a.size, a.inline, a.contentId, a.content, a.contentLocation);
    if a.id in atts then atts[a.id := data.(emailId := atts[a.id].emailId)]
    else atts[a.id := data]
  }

  function UpsertAttachments(atts: map<string, AttachmentRow>, emailId: string, as_: seq<Attachment>): map<string, AttachmentRow>
    decreases |as_|
  {
    if |as_| == 0 then atts
    else UpsertAttachments(UpsertAttachment(atts, emailId, as_[0]), emailId, as_[1..])
  }

  /** The participant ids of a thread: from, to, cc and bcc (not replyTo), each once. */
  function Participants(amap: map<string, AddressRow>, m: EmailMessage, fromId: nat): seq<nat> {
    Dedup([fromId] + ResolveIds(amap, m.to) + ResolveIds(amap, m.cc) + ResolveIds(amap, m.bcc))
  }

  /** Reconciles one message into the store. Addresses are upserted first; if the sender
      did not resolve, nothing else is written. Otherwise the thread is created or updated,
      the email row is upserted by id, the thread's flags are recomputed from its prior flags
      and its latest email when it existed before, and the attachments are upserted. */
  function ReconcileEmail(s: Store, accountId: string, m: EmailMessage, env: Env): Store {
    var lbl := ClassifyLabel(m.content.sysLabels);
    var (rows, addresses) := UpsertAll(s.addresses, accountId, AllAddresses(m), env.faults);
    var amap := AddressMap(rows);
    var s1 := s.(addresses := addresses);
    if m.from.address !in amap then s1
    else
      var fromId := amap[m.from.address].id;
      var prior := if m.threadId in s.threads then Some(s.threads[m.threadId]) else None;
      var thread := ThreadAfterUpsert(prior, accountId, m, lbl, Participants(amap, m, fromId));
      var row := EmailRowFor(m, lbl, fromId, amap, env.now);
      var emails := UpsertEmailRow(s.emails, row);
      var last := LastInThread(emails, m.threadId);
      var thread' := if prior.Some? then thread.(flags := RecomputeFlags(prior.value.flags, last.value.emailLabel)) else thread;
      s1.(threads := s.threads[m.threadId := thread'],
          emails := emails,
          attachments := UpsertAttachments(s.attachments, m.id, m.attachments))
  }

  /** Reconciles a batch one message after another. */
  function ReconcileBatch(s: Store, accountId: string, ms: seq<EmailMessage>, env: Env): Store
    decreases |ms|
  {
    if |ms| == 0 then s else ReconcileBatch(ReconcileEmail(s, accountId, ms[0], env), accountId, ms[1..], env)
  }

  /** `syncEmailToDatabase`: opening the search index comes first and outside the guarded
      block, so its error escapes before anything is written; after that, every failure
      is caught and the batch is reconciled. */
  function SyncEmailsToDatabase(s: Store, accountId: string, ms: seq<EmailMessage>, env: Env): Result<Store, string> {
    if env.indexError.Some? then Err(env.indexError.value) else Ok(ReconcileBatch(s, accountId, ms, env))
  }
}
