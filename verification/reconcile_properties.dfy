/** What reconciling a message does to the store: the sender gate, the thread's flags on
    create and on update, trash dominance, the participant list, the email row keyed by id,
    the invariants the store keeps, and idempotence of re-applying a message. */
module ReconcileProperties {
  import opened Wrappers
  import opened Seqs
  import opened Labels
  import opened AddressBook
  import opened SyncToDb

  /** The address map a message resolves against: built from the rows its address upserts returned. */
  function ResolvedMap(s: Store, accountId: string, m: EmailMessage, env: Env): map<string, AddressRow> {
    AddressMap(UpsertAll(s.addresses, accountId, AllAddresses(m), env.faults).0)
  }

  /** An address of the message resolves exactly when its write did not fail, and then to
      the id the address table holds for (account, address) after the upserts. */
  lemma {:induction false} ResolvedMapFacts(s: Store, accountId: string, m: EmailMessage, env: Env)
    ensures var (rows, t') := UpsertAll(s.addresses, accountId, AllAddresses(m), env.faults);
      var amap := ResolvedMap(s, accountId, m, env);
      && (forall a :: a in AllAddresses(m) ==> (a.address in amap <==> a.address !in env.faults))
      && (forall x :: x in amap ==>
            (accountId, x) in t'.rows && amap[x].id == t'.rows[(accountId, x)].id)
  {
    var addrs := AllAddresses(m);
    var (rows, t') := UpsertAll(s.addresses, accountId, addrs, env.faults);
    UpsertAllRows(s.addresses, accountId, addrs, env.faults);
    var amap := AddressMap(rows);
    forall a | a in addrs ensures a.address in amap <==> a.address !in env.faults {
      var i :| 0 <= i < |addrs| && addrs[i] == a;
      if a.address in amap {
        var j :| 0 <= j < |rows| && rows[j].address == a.address;
      }
    }
  }

  /** The sender resolves exactly when its address write did not fail. */
  lemma SenderResolves(s: Store, accountId: string, m: EmailMessage, env: Env)
    ensures m.from.address in ResolvedMap(s, accountId, m, env) <==> m.from.address !in env.faults
  {
    ResolvedMapFacts(s, accountId, m, env);
    assert m.from in AllAddresses(m);
  }

  /** What reconciling a message whose sender resolves writes, piece by piece. */
  lemma Anatomy(s: Store, accountId: string, m: EmailMessage, env: Env)
    requires m.from.address !in env.faults
    ensures var amap := ResolvedMap(s, accountId, m, env);
      var r := ReconcileEmail(s, accountId, m, env);
      var lbl := ClassifyLabel(m.content.sysLabels);
      && m.from.address in amap
      && var fromId := amap[m.from.address].id;
      && r.addresses == UpsertAll(s.addresses, accountId, AllAddresses(m), env.faults).1
      && r.emails == UpsertEmailRow(s.emails, EmailRowFor(m, lbl, fromId, amap, env.now))
      && r.attachments == UpsertAttachments(s.attachments, m.id, m.attachments)
      && LastInThread(r.emails, m.threadId).Some?
      && r.threads == s.threads[m.threadId := ThreadRow(
           accountId, m.content.subject, m.content.sentAt, false,
           if m.threadId in s.threads
           then RecomputeFlags(s.threads[m.threadId].flags, LastInThread(r.emails, m.threadId).value.emailLabel)
           else CreateFlags(lbl),
           Participants(amap, m, fromId))]
  {
    SenderResolves(s, accountId, m, env);
  }

  /** A message whose sender does not resolve writes no thread, email or attachment
      (its address upserts have already happened). */
  lemma SkipWhenSenderFails(s: Store, accountId: string, m: EmailMessage, env: Env)
    requires m.from.address in env.faults
    ensures var r := ReconcileEmail(s, accountId, m, env);
      && r.threads == s.threads && r.emails == s.emails && r.attachments == s.attachments
      && r.addresses == UpsertAll(s.addresses, accountId, AllAddresses(m), env.faults).1
  {
    SenderResolves(s, accountId, m, env);
  }

  /** A message whose thread is new creates the thread with exactly the flag of its label
      set, `done` false, and lastMessageDate its sentAt. */
  lemma NewThreadFlags(s: Store, accountId: string, m: EmailMessage, env: Env)
    requires m.from.address !in env.faults
    requires m.threadId !in s.threads
    ensures var r := ReconcileEmail(s, accountId, m, env);
      && m.threadId in r.threads
      && var t := r.threads[m.threadId];
      && (forall l :: Holds(t.flags, l) <==> l == ClassifyLabel(m.content.sysLabels))
      && !t.done
      && t.lastMessageDate == m.content.sentAt
      && t.subject == m.content.subject
      && t.accountId == accountId
  {
    SenderResolves(s, accountId, m, env);
  }

  /** A message of an existing thread leaves the thread's flags as the recomputation from
      the flags the thread had before this message and the label of the thread's latest
      email (this one included); the update's own flags are overwritten. `done` is forced
      false and lastMessageDate becomes this message's sentAt, even when it is older. */
  lemma ExistingThreadFlags(s: Store, accountId: string, m: EmailMessage, env: Env)
    requires m.from.address !in env.faults
    requires m.threadId in s.threads
    ensures var r := ReconcileEmail(s, accountId, m, env);
      var last := LastInThread(r.emails, m.threadId);
      && last.Some?
      && r.threads[m.threadId].flags == RecomputeFlags(s.threads[m.threadId].flags, last.value.emailLabel)
      && !r.threads[m.threadId].done
      && r.threads[m.threadId].lastMessageDate == m.content.sentAt
  {
    SenderResolves(s, accountId, m, env);
  }

  /** Trash dominance for one message: a trashed thread stays trashed, and once a message of
      it is filed every other flag is false, whatever that message's label. */
  lemma TrashDominates(s: Store, accountId: string, m: EmailMessage, env: Env)
    requires m.threadId in s.threads && s.threads[m.threadId].flags.trash
    ensures var r := ReconcileEmail(s, accountId, m, env);
      && r.threads[m.threadId].flags.trash
      && (m.from.address !in env.faults ==> r.threads[m.threadId].flags == TrashOnly)
  {
    SenderResolves(s, accountId, m, env);
  }

  /** Filing a message never trashes a thread that already existed untrashed: the update
      leaves trash alone and the recomputation only keeps it. */
  lemma TrashNeverRaisedOnExistingThread(s: Store, accountId: string, m: EmailMessage, env: Env)
    requires m.threadId in s.threads && !s.threads[m.threadId].flags.trash
    ensures !ReconcileEmail(s, accountId, m, env).threads[m.threadId].flags.trash
  {
    SenderResolves(s, accountId, m, env);
  }

  /** Reconciling touches no thread but the message's own, and deletes none. */
  lemma OtherThreadsUntouched(s: Store, accountId: string, m: EmailMessage, env: Env)
    ensures var r := ReconcileEmail(s, accountId, m, env);
      && (forall t :: t in s.threads ==> t in r.threads)
      && (forall t :: t in r.threads && t != m.threadId ==> t in s.threads && r.threads[t] == s.threads[t])
  {
  }

  /** The participant list built from a resolved address map: each id once, and exactly
      the ids the table holds for the from, to, cc and bcc addresses that resolved. */
  lemma ParticipantsMembers(amap: map<string, AddressRow>, m: EmailMessage, t: AddressTable, accountId: string, faults: set<string>)
    requires forall a :: a in AllAddresses(m) ==> (a.address in amap <==> a.address !in faults)
    requires forall x :: x in amap ==> (accountId, x) in t.rows && amap[x].id == t.rows[(accountId, x)].id
    requires m.from.address in amap
    ensures var p := Participants(amap, m, amap[m.from.address].id);
      forall x :: x in p <==>
        exists a :: a in [m.from] + m.to + m.cc + m.bcc && a.address !in faults
          && (accountId, a.address) in t.rows && t.rows[(accountId, a.address)].id == x
  {
    var fromId := amap[m.from.address].id;
    var ids := [fromId] + ResolveIds(amap, m.to) + ResolveIds(amap, m.cc) + ResolveIds(amap, m.bcc);
    var p := Participants(amap, m, fromId);
    var parts := [m.from] + m.to + m.cc + m.bcc;
    assert forall a :: a in parts ==> a in AllAddresses(m);
    forall x
      ensures x in p ==>
        exists a :: a in parts && a.address !in faults
                    && (accountId, a.address) in t.rows && t.rows[(accountId, a.address)].id == x
    {
      if x in p {
        if x == fromId {
          assert m.from in parts;
        } else if x in ResolveIds(amap, m.to) {
          var j :| 0 <= j < |m.to| && m.to[j].address in amap && amap[m.to[j].address].id == x;
          assert m.to[j] in parts;
        } else if x in ResolveIds(amap, m.cc) {
          var j :| 0 <= j < |m.cc| && m.cc[j].address in amap && amap[m.cc[j].address].id == x;
          assert m.cc[j] in parts;
        } else {
          var j :| 0 <= j < |m.bcc| && m.bcc[j].address in amap && amap[m.bcc[j].address].id == x;
          assert m.bcc[j] in parts;
        }
      }
    }
    forall a | a in parts && a.address !in faults ensures (accountId, a.address) in t.rows && t.rows[(accountId, a.address)].id in p {
      var x := amap[a.address].id;
      if a == m.from {
        assert ids[0] == x;
      } else if a in m.to {
        var j :| 0 <= j < |m.to| && m.to[j] == a;
        assert x in ResolveIds(amap, m.to);
      } else if a in m.cc {
        var j :| 0 <= j < |m.cc| && m.cc[j] == a;
        assert x in ResolveIds(amap, m.cc);
      } else {
        var j :| 0 <= j < |m.bcc| && m.bcc[j] == a;
        assert x in ResolveIds(amap, m.bcc);
      }
      assert x in ids;
    }
  }

  /** The thread's participants after filing: each once, and exactly the stored ids of
      the from, to, cc and bcc addresses whose write succeeded (replyTo is not a
      participant). The earlier list is replaced, not merged. */
  lemma ParticipantsOfThread(s: Store, accountId: string, m: EmailMessage, env: Env)
    requires m.from.address !in env.faults
    ensures var r := ReconcileEmail(s, accountId, m, env);
      && m.threadId in r.threads
      && var p := r.threads[m.threadId].participantIds;
      && NoDup(p)
      && forall x :: x in p <==>
           exists a :: a in [m.from] + m.to + m.cc + m.bcc && a.address !in env.faults
             && (accountId, a.address) in r.addresses.rows && r.addresses.rows[(accountId, a.address)].id == x
  {
    Anatomy(s, accountId, m, env);
    ResolvedMapFacts(s, accountId, m, env);
    ParticipantsMembers(ResolvedMap(s, accountId, m, env), m, UpsertAll(s.addresses, accountId, AllAddresses(m), env.faults).1, accountId, env.faults);
  }

  /** The email row is keyed by the message id: afterwards exactly the rows with that id
      hold this message (its thread, label, content and the clock's lastModifiedTime), every
      other row is as before, and a new id adds one row at the end. */
  lemma EmailStoredById(s: Store, accountId: string, m: EmailMessage, env: Env)
    requires m.from.address !in env.faults
    ensures var r := ReconcileEmail(s, accountId, m, env);
      && HasEmail(r.emails, m.id)
      && (forall i :: 0 <= i < |r.emails| && r.emails[i].id == m.id ==>
            && r.emails[i].threadId == m.threadId
            && r.emails[i].emailLabel == ClassifyLabel(m.content.sysLabels)
            && r.emails[i].content == m.content
            && r.emails[i].lastModifiedTime == env.now)
      && (forall i :: 0 <= i < |s.emails| && s.emails[i].id != m.id ==> r.emails[i] == s.emails[i])
      && |r.emails| == if HasEmail(s.emails, m.id) then |s.emails| else |s.emails| + 1
  {
    SenderResolves(s, accountId, m, env);
  }

  /** Reconciling keeps the store's invariants: address rows well formed, email ids unique,
      every email's thread present, trash dominance and duplicate-free participants. */
  lemma ReconcilePreservesWf(s: Store, accountId: string, m: EmailMessage, env: Env)
    requires SyncToDb.Wf(s)
    ensures SyncToDb.Wf(ReconcileEmail(s, accountId, m, env))
  {
    var r := ReconcileEmail(s, accountId, m, env);
    UpsertAllKeepsRows(s.addresses, accountId, AllAddresses(m), env.faults);
    if m.from.address in env.faults {
      SkipWhenSenderFails(s, accountId, m, env);
      WfAfterSkip(s, r);
    } else {
      Anatomy(s, accountId, m, env);
      var amap := ResolvedMap(s, accountId, m, env);
      var row := EmailRowFor(m, ClassifyLabel(m.content.sysLabels), amap[m.from.address].id, amap, env.now);
      NewRowRefsKnown(s, accountId, m, env);
      WfAfterFiling(s, r, row, r.threads[m.threadId]);
    }
  }

  /** The store after a skipped message: only the address table grew. */
  lemma WfAfterSkip(s: Store, r: Store)
    requires SyncToDb.Wf(s)
    requires AddressBook.Wf(r.addresses)
    requires forall k :: k in s.addresses.rows ==> k in r.addresses.rows && r.addresses.rows[k].id == s.addresses.rows[k].id
    requires r.emails == s.emails && r.threads == s.threads
    ensures SyncToDb.Wf(r)
  {
    forall i | 0 <= i < |r.emails| ensures RefsKnown(r.addresses, r.emails[i]) {
      KnownIdsSurvive(s.addresses, r.addresses, s.emails[i]);
    }
  }

  /** The store after a filed message: the address table grew, the email row was upserted
      and its thread written with trash-exclusive flags and duplicate-free participants. */
  lemma WfAfterFiling(s: Store, r: Store, row: EmailRow, th: ThreadRow)
    requires SyncToDb.Wf(s)
    requires AddressBook.Wf(r.addresses)
    requires forall k :: k in s.addresses.rows ==> k in r.addresses.rows && r.addresses.rows[k].id == s.addresses.rows[k].id
    requires RefsKnown(r.addresses, row)
    requires r.emails == UpsertEmailRow(s.emails, row)
    requires r.threads == s.threads[row.threadId := th]
    requires TrashExclusive(th.flags) && NoDup(th.participantIds)
    ensures SyncToDb.Wf(r)
  {
    forall i | 0 <= i < |r.emails|
      ensures r.emails[i].threadId in r.threads && RefsKnown(r.addresses, r.emails[i])
    {
      if i < |s.emails| && s.emails[i].id != row.id {
        assert r.emails[i] == s.emails[i];
        KnownIdsSurvive(s.addresses, r.addresses, s.emails[i]);
      } else {
        assert r.emails[i] == row;
      }
    }
  }

  /** The row a filed message writes refers only to addresses of the table after its upserts. */
  lemma NewRowRefsKnown(s: Store, accountId: string, m: EmailMessage, env: Env)
    requires m.from.address !in env.faults
    ensures var amap := ResolvedMap(s, accountId, m, env);
      var t' := UpsertAll(s.addresses, accountId, AllAddresses(m), env.faults).1;
      && m.from.address in amap
      && RefsKnown(t', EmailRowFor(m, ClassifyLabel(m.content.sysLabels), amap[m.from.address].id, amap, env.now))
  {
    var amap := ResolvedMap(s, accountId, m, env);
    var t' := UpsertAll(s.addresses, accountId, AllAddresses(m), env.faults).1;
    SenderResolves(s, accountId, m, env);
    ResolvedMapFacts(s, accountId, m, env);
    ResolvedIdsKnown(amap, m.to, t', accountId);
    ResolvedIdsKnown(amap, m.cc, t', accountId);
    ResolvedIdsKnown(amap, m.bcc, t', accountId);
    ResolvedIdsKnown(amap, m.replyTo, t', accountId);
    assert t'.rows[(accountId, m.from.address)].id == amap[m.from.address].id;
  }

  /** An email's references stay valid when the address table only grows and keeps ids. */
  lemma KnownIdsSurvive(t: AddressTable, t': AddressTable, e: EmailRow)
    requires forall k :: k in t.rows ==> k in t'.rows && t'.rows[k].id == t.rows[k].id
    requires RefsKnown(t, e)
    ensures RefsKnown(t', e)
  {
    forall x | IdKnown(t, x) ensures IdKnown(t', x) {
      var k :| k in t.rows && t.rows[k].id == x;
      assert t'.rows[k].id == x;
    }
  }

  /** Ids resolved through a map whose rows are the table's rows are ids of the table. */
  lemma ResolvedIdsKnown(amap: map<string, AddressRow>, addrs: seq<EmailAddress>, t: AddressTable, accountId: string)
    requires forall x :: x in amap ==> (accountId, x) in t.rows && amap[x].id == t.rows[(accountId, x)].id
    ensures forall x :: x in ResolveIds(amap, addrs) ==> IdKnown(t, x)
  {
    forall x | x in ResolveIds(amap, addrs) ensures IdKnown(t, x) {
      var j :| 0 <= j < |addrs| && addrs[j].address in amap && amap[addrs[j].address].id == x;
      assert t.rows[(accountId, addrs[j].address)].id == x;
    }
  }

  /** Two email tables that agree, row by row, on thread, receivedAt and label have the
      same latest label for every thread. */
  lemma {:induction false} LastLabelAgrees(a: seq<EmailRow>, b: seq<EmailRow>, tid: string)
    requires |a| == |b|
    requires forall i :: 0 <= i < |a| ==>
      a[i].threadId == b[i].threadId && a[i].content.receivedAt == b[i].content.receivedAt
      && a[i].emailLabel == b[i].emailLabel
    ensures LastInThread(a, tid).Some? == LastInThread(b, tid).Some?
    ensures LastInThread(a, tid).Some? ==>
      && LastInThread(a, tid).value.emailLabel == LastInThread(b, tid).value.emailLabel
      && LastInThread(a, tid).value.content.receivedAt == LastInThread(b, tid).value.content.receivedAt
  {
    if |a| > 0 {
      LastLabelAgrees(a[..|a| - 1], b[..|b| - 1], tid);
    }
  }

  /** Resolving the same addresses against two maps that agree on them gives the same ids. */
  lemma {:induction false} ResolveIdsAgree(m1: map<string, AddressRow>, m2: map<string, AddressRow>, addrs: seq<EmailAddress>)
    requires forall j :: 0 <= j < |addrs| ==>
      (addrs[j].address in m1 <==> addrs[j].address in m2)
      && (addrs[j].address in m1 ==> m1[addrs[j].address].id == m2[addrs[j].address].id)
    ensures ResolveIds(m1, addrs) == ResolveIds(m2, addrs)
  {
    if |addrs| > 0 {
      ResolveIdsAgree(m1, m2, addrs[1..]);
    }
  }

  /** Upserting the same addresses twice (with the same failures) resolves every one of them
      to the same id both times: the first pass created every row the second one looks up,
      and an upsert keeps an existing row's id. */
  lemma {:induction false} UpsertTwiceResolvesAlike(t: AddressTable, accountId: string, addrs: seq<EmailAddress>, faults: set<string>)
    ensures var (rows1, t1) := UpsertAll(t, accountId, addrs, faults);
      var (rows2, t2) := UpsertAll(t1, accountId, addrs, faults);
      var amap1 := AddressMap(rows1);
      var amap2 := AddressMap(rows2);
      && (forall k :: k in t1.rows ==> k in t2.rows && t2.rows[k].id == t1.rows[k].id)
      && forall j :: 0 <= j < |addrs| ==>
           (addrs[j].address in amap1 <==> addrs[j].address in amap2)
           && (addrs[j].address in amap1 ==> amap1[addrs[j].address].id == amap2[addrs[j].address].id)
  {
    var r1 := UpsertAll(t, accountId, addrs, faults);
    var r2 := UpsertAll(r1.1, accountId, addrs, faults);
    UpsertAllRows(t, accountId, addrs, faults);
    UpsertAllRows(r1.1, accountId, addrs, faults);
    UpsertAllKeepsRows(r1.1, accountId, addrs, faults);
    assert var res := UpsertAll(t, accountId, addrs, faults); var rows := res.0;
      forall i :: 0 <= i < |rows| ==> rows[i].address !in faults;
    assert var res := UpsertAll(r1.1, accountId, addrs, faults); var rows := res.0;
      forall i :: 0 <= i < |rows| ==> rows[i].address !in faults;
    forall j | 0 <= j < |addrs|
      ensures addrs[j].address in AddressMap(r1.0) <==> addrs[j].address in AddressMap(r2.0)
      ensures addrs[j].address in AddressMap(r1.0) ==> AddressMap(r1.0)[addrs[j].address].id == AddressMap(r2.0)[addrs[j].address].id
    {
      WrittenIffResolved(r1.0, addrs, faults, j);
      WrittenIffResolved(r2.0, addrs, faults, j);
      if addrs[j].address in AddressMap(r1.0) {
        ResolvedIdIsStored(r1.0, r1.1, accountId, addrs[j].address);
        ResolvedIdIsStored(r2.0, r2.1, accountId, addrs[j].address);
      }
    }
  }

  /** An address of the batch resolves exactly when its write did not fail. */
  lemma {:induction false} WrittenIffResolved(rows: seq<AddressRow>, addrs: seq<EmailAddress>, faults: set<string>, j: nat)
    requires j < |addrs|
    requires forall i :: 0 <= i < |rows| ==> rows[i].address !in faults
    requires forall i :: 0 <= i < |addrs| && addrs[i].address !in faults ==>
      exists k :: 0 <= k < |rows| && rows[k].address == addrs[i].address
    ensures addrs[j].address in AddressMap(rows) <==> addrs[j].address !in faults
  {
    var x := addrs[j].address;
    if x !in faults {
      var k :| 0 <= k < |rows| && rows[k].address == x;
    }
  }

  /** A resolved address resolves to the id the table stores for it. */
  lemma {:induction false} ResolvedIdIsStored(rows: seq<AddressRow>, t: AddressTable, accountId: string, x: string)
    requires forall i :: 0 <= i < |rows| ==>
      && rows[i].accountId == accountId
      && (accountId, rows[i].address) in t.rows
      && rows[i].id == t.rows[(accountId, rows[i].address)].id
    requires x in AddressMap(rows)
    ensures (accountId, x) in t.rows && AddressMap(rows)[x].id == t.rows[(accountId, x)].id
  {
    var i :| 0 <= i < |rows| && rows[i] == AddressMap(rows)[x] && AddressMap(rows)[x].address == x;
  }

  /** The email rows both passes write agree except for the clock stamp, and the thread
      rows they write agree on everything but the flags. */
  lemma RowsAlike(m: EmailMessage, lbl: Label, amap1: map<string, AddressRow>, amap2: map<string, AddressRow>, now1: int, now2: int)
    requires forall j :: 0 <= j < |AllAddresses(m)| ==>
      (AllAddresses(m)[j].address in amap1 <==> AllAddresses(m)[j].address in amap2)
      && (AllAddresses(m)[j].address in amap1 ==>
            amap1[AllAddresses(m)[j].address].id == amap2[AllAddresses(m)[j].address].id)
    requires m.from.address in amap1
    ensures m.from.address in amap2 && amap1[m.from.address].id == amap2[m.from.address].id
    ensures var fromId := amap1[m.from.address].id;
      && EmailRowFor(m, lbl, fromId, amap2, now2) == EmailRowFor(m, lbl, fromId, amap1, now1).(lastModifiedTime := now2)
      && Participants(amap2, m, fromId) == Participants(amap1, m, fromId)
  {
    var addrs := AllAddresses(m);
    assert addrs[0] == m.from;
    forall xs | xs in [m.to, m.cc, m.bcc, m.replyTo] ensures ResolveIds(amap1, xs) == ResolveIds(amap2, xs) {
      var off := if xs == m.to then 1 else if xs == m.cc then 1 + |m.to|
        else if xs == m.bcc then 1 + |m.to| + |m.cc| else 1 + |m.to| + |m.cc| + |m.bcc|;
      assert forall j :: 0 <= j < |xs| ==> xs[j] == addrs[off + j];
      ResolveIdsAgree(amap1, amap2, xs);
    }
  }

  /** In a well-formed store a new thread has no emails, so after filing the thread's only
      email is this message's row and its latest label is this message's label. */
  lemma NewThreadLastIsOwn(emails: seq<EmailRow>, threads: map<string, ThreadRow>, row: EmailRow)
    requires forall i :: 0 <= i < |emails| ==> emails[i].threadId in threads
    requires row.threadId !in threads
    ensures var rows := UpsertEmailRow(emails, row);
      LastInThread(rows, row.threadId).Some? && LastInThread(rows, row.threadId).value == row
  {
    var rows := UpsertEmailRow(emails, row);
    forall i | 0 <= i < |rows| && rows[i].threadId == row.threadId ensures rows[i] == row {
    }
  }

  /** Upserting a row and then the same row with another clock stamp leaves the table as
      after the first upsert but for that stamp, and the latest email of every thread keeps
      its label. */
  lemma RestampedRow(rows: seq<EmailRow>, row: EmailRow, now2: int)
    ensures var rows1 := UpsertEmailRow(rows, row);
      var rows2 := UpsertEmailRow(rows1, row.(lastModifiedTime := now2));
      && |rows2| == |rows1|
      && (forall i :: 0 <= i < |rows1| ==>
            rows2[i] == if rows1[i].id == row.id then rows1[i].(lastModifiedTime := now2) else rows1[i])
      && (forall tid :: LastInThread(rows1, tid).Some? ==>
            LastInThread(rows2, tid).Some? && LastInThread(rows2, tid).value.emailLabel == LastInThread(rows1, tid).value.emailLabel)
  {
    var rows1 := UpsertEmailRow(rows, row);
    var row2 := row.(lastModifiedTime := now2);
    var rows2 := UpsertEmailRow(rows1, row2);
    assert HasEmail(rows1, row.id);
    forall i | 0 <= i < |rows1|
      ensures rows2[i] == if rows1[i].id == row.id then rows1[i].(lastModifiedTime := now2) else rows1[i]
    {
      if rows1[i].id == row.id {
        assert rows1[i] == row;
      }
    }
    forall tid | LastInThread(rows1, tid).Some?
      ensures LastInThread(rows2, tid).Some? && LastInThread(rows2, tid).value.emailLabel == LastInThread(rows1, tid).value.emailLabel
    {
      LastLabelAgrees(rows1, rows2, tid);
    }
  }

  /** The email table after the second pass is the first pass's table with the one row
      re-stamped. */
  lemma RestampedEmails(rows: seq<EmailRow>, rows1: seq<EmailRow>, rows2: seq<EmailRow>, row: EmailRow, id: string, now2: int)
    requires rows1 == UpsertEmailRow(rows, row)
    requires rows2 == UpsertEmailRow(rows1, row.(lastModifiedTime := now2))
    requires row.id == id
    ensures |rows2| == |rows1|
    ensures forall i :: 0 <= i < |rows1| ==>
      rows2[i] == if rows1[i].id == id then rows1[i].(lastModifiedTime := now2) else rows1[i]
  {
    RestampedRow(rows, row, now2);
  }

  /** The thread table after the second pass: recomputing the flags from a latest label
      equal to the one the first pass used changes nothing. */
  lemma ThreadsSettle(threads: map<string, ThreadRow>, t1: map<string, ThreadRow>, t2: map<string, ThreadRow>,
                      th: ThreadRow, tid: string, lbl: Label, last1: Label, last2: Label)
    requires tid !in threads ==> last1 == lbl
    requires last2 == last1
    requires t1 == threads[tid := th.(flags :=
      if tid in threads then RecomputeFlags(threads[tid].flags, last1) else CreateFlags(lbl))]
    requires t2 == t1[tid := th.(flags := RecomputeFlags(t1[tid].flags, last2))]
    ensures t2 == t1
  {
    if tid in threads {
      RecomputeIdempotent(threads[tid].flags, last1);
    } else {
      RecomputeAfterCreate(lbl);
    }
  }

  /** Idempotence over the thread table: the second pass recomputes the thread's flags
      from the same latest label, which changes nothing. */
  lemma IdempotentTables(s: Store, r1: Store, r2: Store, row1: EmailRow, th: ThreadRow, now2: int)
    requires forall i :: 0 <= i < |s.emails| ==> s.emails[i].threadId in s.threads
    requires r1.emails == UpsertEmailRow(s.emails, row1)
    requires r2.emails == UpsertEmailRow(r1.emails, row1.(lastModifiedTime := now2))
    requires LastInThread(r1.emails, row1.threadId).Some? && LastInThread(r2.emails, row1.threadId).Some?
    requires r1.threads == s.threads[row1.threadId := th.(flags :=
      if row1.threadId in s.threads
      then RecomputeFlags(s.threads[row1.threadId].flags, LastInThread(r1.emails, row1.threadId).value.emailLabel)
      else CreateFlags(row1.emailLabel))]
    requires r2.threads == r1.threads[row1.threadId := th.(flags :=
      RecomputeFlags(r1.threads[row1.threadId].flags, LastInThread(r2.emails, row1.threadId).value.emailLabel))]
    ensures r2.threads == r1.threads
  {
    var tid := row1.threadId;
    var last1 := LastInThread(r1.emails, tid).value.emailLabel;
    var last2 := LastInThread(r2.emails, tid).value.emailLabel;
    assert last2 == last1 by {
      RestampedRow(s.emails, row1, now2);
    }
    assert tid !in s.threads ==> last1 == row1.emailLabel by {
      if tid !in s.threads {
        NewThreadLastIsOwn(s.emails, s.threads, row1);
      }
    }
    ThreadsSettle(s.threads, r1.threads, r2.threads, th, tid, row1.emailLabel, last1, last2);
  }

  /** On the second run the sender resolves to the same id, the email row is the first
      run's row re-stamped, and the participants are the same. */
  lemma SecondRunRestamps(s: Store, accountId: string, m: EmailMessage, env1: Env, env2: Env)
    requires env1.faults == env2.faults
    requires m.from.address !in env1.faults
    ensures var r1 := ReconcileEmail(s, accountId, m, env1);
      var amap1 := ResolvedMap(s, accountId, m, env1);
      var amap2 := ResolvedMap(r1, accountId, m, env2);
      var lbl := ClassifyLabel(m.content.sysLabels);
      && m.from.address in amap1 && m.from.address in amap2
      && amap2[m.from.address].id == amap1[m.from.address].id
      && EmailRowFor(m, lbl, amap1[m.from.address].id, amap2, env2.now)
         == EmailRowFor(m, lbl, amap1[m.from.address].id, amap1, env1.now).(lastModifiedTime := env2.now)
      && Participants(amap2, m, amap1[m.from.address].id) == Participants(amap1, m, amap1[m.from.address].id)
  {
    var r1 := ReconcileEmail(s, accountId, m, env1);
    var lbl := ClassifyLabel(m.content.sysLabels);
    SenderResolves(s, accountId, m, env1);
    assert r1.addresses == UpsertAll(s.addresses, accountId, AllAddresses(m), env1.faults).1;
    UpsertTwiceResolvesAlike(s.addresses, accountId, AllAddresses(m), env1.faults);
    RowsAlike(m, lbl, ResolvedMap(s, accountId, m, env1), ResolvedMap(r1, accountId, m, env2), env1.now, env2.now);
  }

  /** Re-applying the same message (with the same address failures) to a well-formed store
      is idempotent on threads and emails: the thread table comes out identical and the
      email table differs only in the re-stamped lastModifiedTime of this message's row. */
  lemma ReconcileIdempotent(s: Store, accountId: string, m: EmailMessage, env1: Env, env2: Env)
    requires forall i :: 0 <= i < |s.emails| ==> s.emails[i].threadId in s.threads
    requires env1.faults == env2.faults
    requires m.from.address !in env1.faults
    ensures var r1 := ReconcileEmail(s, accountId, m, env1);
      var r2 := ReconcileEmail(r1, accountId, m, env2);
      && r2.threads == r1.threads
      && |r2.emails| == |r1.emails|
      && (forall i :: 0 <= i < |r1.emails| ==>
            r2.emails[i] == if r1.emails[i].id == m.id then r1.emails[i].(lastModifiedTime := env2.now) else r1.emails[i])
  {
    var r1 := ReconcileEmail(s, accountId, m, env1);
    var r2 := ReconcileEmail(r1, accountId, m, env2);
    ReconcileTwiceThreads(s, r1, r2, accountId, m, env1, env2);
    ReconcileTwiceEmails(s, r1, r2, accountId, m, env1, env2);
  }

  /** The two passes of the idempotence proof, on the thread table they produce. */
  lemma ReconcileTwiceThreads(s: Store, r1: Store, r2: Store, accountId: string, m: EmailMessage, env1: Env, env2: Env)
    requires forall i :: 0 <= i < |s.emails| ==> s.emails[i].threadId in s.threads
    requires env1.faults == env2.faults
    requires m.from.address !in env1.faults
    requires r1 == ReconcileEmail(s, accountId, m, env1)
    requires r2 == ReconcileEmail(r1, accountId, m, env2)
    ensures r2.threads == r1.threads
  {
    var lbl := ClassifyLabel(m.content.sysLabels);
    var amap1 := ResolvedMap(s, accountId, m, env1);
    SecondRunRestamps(s, accountId, m, env1, env2);
    var fromId := amap1[m.from.address].id;
    var row1 := EmailRowFor(m, lbl, fromId, amap1, env1.now);
    var th := ThreadRow(accountId, m.content.subject, m.content.sentAt, false, CreateFlags(lbl), Participants(amap1, m, fromId));
    assert r1.emails == UpsertEmailRow(s.emails, row1)
      && LastInThread(r1.emails, m.threadId).Some?
      && r1.threads == s.threads[m.threadId := th.(flags :=
           if m.threadId in s.threads
           then RecomputeFlags(s.threads[m.threadId].flags, LastInThread(r1.emails, m.threadId).value.emailLabel)
           else CreateFlags(lbl))]
    by {
      Anatomy(s, accountId, m, env1);
    }
    assert r2.emails == UpsertEmailRow(r1.emails, row1.(lastModifiedTime := env2.now))
      && LastInThread(r2.emails, m.threadId).Some?
      && r2.threads == r1.threads[m.threadId := th.(flags :=
           RecomputeFlags(r1.threads[m.threadId].flags, LastInThread(r2.emails, m.threadId).value.emailLabel))]
    by {
      Anatomy(r1, accountId, m, env2);
    }
    IdempotentTables(s, r1, r2, row1, th, env2.now);
  }

  /** The two passes of the idempotence proof, on the email table they produce. */
  lemma ReconcileTwiceEmails(s: Store, r1: Store, r2: Store, accountId: string, m: EmailMessage, env1: Env, env2: Env)
    requires env1.faults == env2.faults
    requires m.from.address !in env1.faults
    requires r1 == ReconcileEmail(s, accountId, m, env1)
    requires r2 == ReconcileEmail(r1, accountId, m, env2)
    ensures |r2.emails| == |r1.emails|
    ensures forall i :: 0 <= i < |r1.emails| ==>
      r2.emails[i] == if r1.emails[i].id == m.id then r1.emails[i].(lastModifiedTime := env2.now) else r1.emails[i]
  {
    var lbl := ClassifyLabel(m.content.sysLabels);
    var amap1 := ResolvedMap(s, accountId, m, env1);
    SecondRunRestamps(s, accountId, m, env1, env2);
    var fromId := amap1[m.from.address].id;
    var row1 := EmailRowFor(m, lbl, fromId, amap1, env1.now);
    assert r1.emails == UpsertEmailRow(s.emails, row1) by {
      Anatomy(s, accountId, m, env1);
    }
    assert r2.emails == UpsertEmailRow(r1.emails, row1.(lastModifiedTime := env2.now)) by {
      Anatomy(r1, accountId, m, env2);
    }
    RestampedEmails(s.emails, r1.emails, r2.emails, row1, m.id, env2.now);
  }

  /** The second pass keeps every address row's id. */
  lemma SecondPassKeepsAddressIds(s: Store, accountId: string, m: EmailMessage, env1: Env, env2: Env)
    ensures var r1 := ReconcileEmail(s, accountId, m, env1);
      var r2 := ReconcileEmail(r1, accountId, m, env2);
      forall k :: k in r1.addresses.rows ==> k in r2.addresses.rows && r2.addresses.rows[k].id == r1.addresses.rows[k].id
  {
    var r1 := ReconcileEmail(s, accountId, m, env1);
    UpsertAllKeepsRows(r1.addresses, accountId, AllAddresses(m), env2.faults);
  }

  /** Attachment upserts never move an existing attachment to another email; rows they
      create belong to this message's email and come from its attachment list, and every
      attachment of the list ends up stored. */
  lemma {:induction false} AttachmentsKeepOwner(atts: map<string, AttachmentRow>, emailId: string, as_: seq<Attachment>)
    ensures var r := UpsertAttachments(atts, emailId, as_);
      && (forall k :: k in atts ==> k in r && r[k].emailId == atts[k].emailId)
      && (forall k :: k in r && k !in atts ==>
            r[k].emailId == emailId && exists j :: 0 <= j < |as_| && as_[j].id == k)
      && (forall j :: 0 <= j < |as_| ==> as_[j].id in r)
    decreases |as_|
  {
    if |as_| > 0 {
      var atts1 := UpsertAttachment(atts, emailId, as_[0]);
      AttachmentsKeepOwner(atts1, emailId, as_[1..]);
      var r := UpsertAttachments(atts, emailId, as_);
      forall k | k in r && k !in atts ensures exists j :: 0 <= j < |as_| && as_[j].id == k {
        if k != as_[0].id {
          var j :| 0 <= j < |as_[1..]| && as_[1..][j].id == k;
          assert as_[j + 1].id == k;
        }
      }
      forall j | 0 <= j < |as_| ensures as_[j].id in r {
        if j > 0 {
          assert as_[j] == as_[1..][j - 1];
        }
      }
    }
  }

  /** The invariants hold after any batch. */
  lemma {:induction false} BatchPreservesWf(s: Store, accountId: string, ms: seq<EmailMessage>, env: Env)
    requires SyncToDb.Wf(s)
    ensures SyncToDb.Wf(ReconcileBatch(s, accountId, ms, env))
    decreases |ms|
  {
    if |ms| > 0 {
      ReconcilePreservesWf(s, accountId, ms[0], env);
      BatchPreservesWf(ReconcileEmail(s, accountId, ms[0], env), accountId, ms[1..], env);
    }
  }

  /** Trash dominance over a batch: in a well-formed store a trashed thread is trash-only,
      and stays trash-only through every later reconciliation, whatever the labels of the
      messages that arrive for it. */
  lemma {:induction false} TrashDominatesBatch(s: Store, accountId: string, ms: seq<EmailMessage>, env: Env, tid: string)
    requires SyncToDb.Wf(s)
    requires tid in s.threads && s.threads[tid].flags.trash
    ensures var r := ReconcileBatch(s, accountId, ms, env);
      tid in r.threads && r.threads[tid].flags == TrashOnly
    decreases |ms|
  {
    if |ms| > 0 {
      var s1 := ReconcileEmail(s, accountId, ms[0], env);
      OtherThreadsUntouched(s, accountId, ms[0], env);
      if ms[0].threadId == tid {
        TrashDominates(s, accountId, ms[0], env);
      }
      ReconcilePreservesWf(s, accountId, ms[0], env);
      TrashDominatesBatch(s1, accountId, ms[1..], env, tid);
    }
  }
}
