# Email-SaaS mail core in Dafny

This project models the parts of the Email-SaaS webmail application that decide things, as
pure Dafny functions over immutable data, and proves properties about them:

- the **reconciler** that files each message of the provider's change feed into the
  thread, email, address and attachment tables (`src/lib/sync-to-db.ts`): label
  classification, address find-or-create, thread create/update, the second pass that
  recomputes a thread's status flags from its latest email, the email upsert keyed by id;
- the **provider client** (`src/lib/account.ts`): the ready-poll of a new sync and the
  page loop that follows `nextPageToken`, concatenates `records` and keeps the last
  `nextDeltaToken`;
- the two **sync entry points**: `updateEmail` (`src/lib/update-emails.ts`) with its
  validation chain, its choice between initial and delta sync, and its store-then-cursor
  order; and `POST /api/initial-sync`, which saves the cursor first;
- the **account router** (`src/server/api/routers/account.ts`): account authorisation, the
  tab filter, pagination, the per-flag counts and the reply/reply-all recipient choice;
- the **OAuth callback** (`src/app/api/aurinko/callback/route.ts`): its ordered guards and the
  account upsert;
- the **UI helpers** with definite behaviour: the reply composer's `Re:` subject, chips and
  payload; the thread list's paging, label list, badges and date sections; the recipient
  picker's options, selected values and initials; and the editor's blank-subject guard.

The database is a value: `Accounts.Db` holds the accounts by id and a `SyncToDb.Store`, which
holds threads and attachments by id, the email table as a sequence (storage order, ids
unique), and the address table keyed by `(accountId, address)`. Every upsert is a function
from one store to the next. The environment is explicit. `SyncToDb.Env` carries the clock
that stamps `lastModifiedTime`, the set of addresses whose upsert fails, and the error, if
any, that opening the search index throws before a batch. The provider is a
finite script of replies: `starts` for the sync-start requests and `replies` for the page
requests. A script that runs out means the source would still be waiting. The token exchange
and the account-details lookup of the callback are parameters.

Module layout, in dependency order: `Wrappers`, `Seqs`, `Text`, `Sorting` (helpers); `Labels`,
`AddressBook`, `SyncToDb`, `ReconcileProperties` (the reconciler); `Provider`, `Accounts`,
`UpdateEmails`, `InitialSyncRoute` (sync); `AccountRouter`, `ReplyDetails`, `CallbackRoute`
(server); `TagInput`, `ReplyBox`, `ThreadList`, `EmailEditor` (UI).

## Model

| member | source | states |
|---|---|---|
| Labels.ClassifyLabel | src/lib/sync-to-db.ts:52-69 | The label is inbox when the tags say "inbox" or "important"; otherwise trash, junk, sent, draft in that order of precedence; otherwise inbox. Each of the five labels is characterised by an if-and-only-if over the tags. |
| Labels.ClassifyLabelBySet | src/lib/sync-to-db.ts:52-69 | Two tag lists with the same members get the same label: order and repetition do not matter. |
| Labels.CreateFlags | src/lib/sync-to-db.ts:142-152 | A new thread holds exactly the flag of its label, so it is never both trashed and something else. |
| Labels.UpdateFlags | src/lib/sync-to-db.ts:125-132 | An update sets inbox, draft and sent to whether they equal this message's label, and leaves trash and junk as they were. |
| Labels.RecomputeFlags | src/lib/sync-to-db.ts:236-286 | From the thread's flags before the message: trash gives trash only; junk with a junk latest label clears inbox/draft/sent; an inbox, sent or draft latest label sets that flag alone and clears junk; anything else keeps the flags. Trash is never raised or lowered, and the result is trash-exclusive. |
| Labels.RecomputeIdempotent | src/lib/sync-to-db.ts:236-286 | Recomputing again with the same latest label changes nothing. |
| Labels.RecomputeAfterCreate | src/lib/sync-to-db.ts:142-152 | A freshly created thread recomputed with its own label keeps exactly its flags. |
| AddressBook.UpsertEmailAddress | src/lib/sync-to-db.ts:303-333 | A failing write yields no row and leaves the table alone. An existing (account, address) row keeps its id. Its name and raw text take the values sent, null included, and keep their stored values when the field is left out. A new pair gets a fresh id, with null for a field left out. The table invariants are kept. |
| AddressBook.UpsertAll | src/lib/sync-to-db.ts:72-90 | Upserting the addresses one after another keeps the table well formed and never moves the next fresh id back. |
| AddressBook.UpsertAllKeepsRows | src/lib/sync-to-db.ts:87-90 | A batch of upserts never drops a row or changes an existing row's id. It only adds rows for the batch's own addresses. |
| AddressBook.UpsertAllRows | src/lib/sync-to-db.ts:87-96 | Every returned row is the stored row of a successfully written address of the batch, and every successful address has a returned row. |
| AddressBook.AddressMap | src/lib/sync-to-db.ts:92-96 | The map's keys are exactly the rows' addresses, and each entry is one of the rows, stored under its own address. |
| SyncToDb.ResolveIds | src/lib/sync-to-db.ts:106-117 | An id is resolved exactly when some address of the list is in the map with that id. Never more ids than addresses. |
| SyncToDb.UpsertEmailRow | src/lib/sync-to-db.ts:165-234 | An existing row with the message id is replaced in place; otherwise the row is appended. Afterwards every row with that id is the new row, and unique ids stay unique. |
| SyncToDb.LastInThread | src/lib/sync-to-db.ts:237-251 | The chosen email exists exactly when the thread has an email. It belongs to the thread and has the greatest receivedAt; among ties, the one stored last wins. |
| ReconcileProperties.ResolvedMapFacts | src/lib/sync-to-db.ts:72-96 | An address of the message resolves exactly when its write did not fail, and then to the table's row for it. |
| ReconcileProperties.SenderResolves | src/lib/sync-to-db.ts:98-104 | The sender resolves exactly when its address write did not fail. |
| ReconcileProperties.Anatomy | src/lib/sync-to-db.ts:106-234 | For a message whose sender resolves: the resolved recipients, the thread row and the email row are what each upsert writes, piece by piece. |
| ReconcileProperties.SkipWhenSenderFails | src/lib/sync-to-db.ts:98-104 | When the sender does not resolve, no thread, email or attachment is written; only the address table may change. |
| ReconcileProperties.NewThreadFlags | src/lib/sync-to-db.ts:142-161 | A message for a new thread creates it with exactly the flag of its label, `done` false, and the message's sentAt as last date. |
| ReconcileProperties.ExistingThreadFlags | src/lib/sync-to-db.ts:119-141 | For an existing thread, the flags end as the recomputation from the flags before the message and the label of the thread's latest email; `done` is false and the last date is this message's sentAt. |
| ReconcileProperties.TrashDominates | src/lib/sync-to-db.ts:253-258 | A trashed thread stays trashed and holds no other flag after any message. |
| ReconcileProperties.TrashNeverRaisedOnExistingThread | src/lib/sync-to-db.ts:125-132 | A thread that existed untrashed is never trashed by a later message. |
| ReconcileProperties.OtherThreadsUntouched | src/lib/sync-to-db.ts:119-161 | Reconciling changes no thread but the message's own and deletes none. |
| ReconcileProperties.ParticipantsMembers | src/lib/sync-to-db.ts:133-140 | The participant list holds each id once. It holds exactly the ids of the resolved from, to, cc and bcc addresses, not replyTo. |
| ReconcileProperties.ParticipantsOfThread | src/lib/sync-to-db.ts:153-160 | After filing, the thread's participants are exactly the stored ids of the message's from/to/cc/bcc addresses that resolved, each once. The old list is replaced. |
| ReconcileProperties.EmailStoredById | src/lib/sync-to-db.ts:165-234 | Afterwards the email table holds the message's row under its id and keeps every other row. |
| ReconcileProperties.ReconcilePreservesWf | src/lib/sync-to-db.ts:98-292 | Reconciling keeps the store's invariants: the address table is well formed, email ids are unique, every email's thread and addresses exist, and every thread is trash-exclusive with duplicate-free participants. |
| ReconcileProperties.KnownIdsSurvive | src/lib/sync-to-db.ts:303-333 | An email's address references stay valid when the address table only grows and keeps its ids. |
| ReconcileProperties.UpsertTwiceResolvesAlike | src/lib/sync-to-db.ts:72-96 | Upserting the same addresses twice, with the same failures, resolves every address to the same row id. |
| ReconcileProperties.RestampedRow | src/lib/sync-to-db.ts:165-234 | Upserting the same row again with another clock stamp changes only `lastModifiedTime` of that row, and no thread's latest label. |
| ReconcileProperties.ReconcileIdempotent | src/lib/sync-to-db.ts:98-292 | Filing the same message twice, with the same address failures, into a store whose every email names a known thread, leaves the threads as after the first pass. The emails also match the first pass, except the re-stamped `lastModifiedTime`. |
| ReconcileProperties.SecondPassKeepsAddressIds | src/lib/sync-to-db.ts:303-333 | The second pass keeps every address row's id. |
| ReconcileProperties.AttachmentsKeepOwner | src/lib/sync-to-db.ts:334-362 | Attachment upserts never move an existing attachment to another email. A row they create belongs to this email and comes from its list, and every attachment of the list ends up stored. |
| ReconcileProperties.BatchPreservesWf | src/lib/sync-to-db.ts:9-41 | The store invariants hold after any batch filed one message after another. |
| ReconcileProperties.TrashDominatesBatch | src/lib/sync-to-db.ts:253-258 | A trashed thread of a well-formed store is still trashed, and holds no other flag, after any batch. |
| Provider.Follow | src/lib/account.ts:75-85 | The first request is the given one. Every later request has no delta token and carries a non-empty page token. There is at most one request per reply plus the first. |
| Provider.FollowStopsAt | src/lib/account.ts:78-91 | When page n is the first without a next page token, the loop returns the records of pages 0..n concatenated in order and page n's delta token, after requests that each carry the previous page's token. |
| Provider.FollowFetchedStops | src/lib/account.ts:81 | The loop returns a result only by reaching a page without a next page token. |
| Provider.FollowFetchedRecords | src/lib/account.ts:76-91 | A returned result is the records of the pages up to some page without a next page token, and that page's delta token. |
| Provider.FollowFailsAt | src/lib/account.ts:176-194 | When reply k is the first error and every earlier page continued, the loop fails with that error after exactly k + 1 requests. |
| Provider.FollowFailedHasCause | src/lib/account.ts:176-194 | A failed loop failed at an errored reply that every earlier page led up to. |
| Provider.PollReady | src/lib/account.ts:70-74 | Ready means the first ready reply, with every earlier reply a successful not-ready one. Failed means the first failed reply. Still polling means every reply so far was not ready. |
| Provider.PerformInitialSync | src/lib/account.ts:68-105 | Nothing is fetched until the poll is ready; then pages are fetched from the start's token. Synced exactly when the page loop returned; undefined exactly when the poll or the loop failed. A synced result holds the records of pages 0..n, concatenated in page order, and the delta token of page n, where page n is the first without a next page token. |
| Provider.GetEmailDeltaToken | src/lib/account.ts:176-194 | The first request carries the stored token and no page token; later requests carry no delta token. A fetched result holds the records of pages 0..n, concatenated in page order, and page n's delta token, where page n is the first without a next page token; such a page always yields that result. |
| Provider.GetEmailDeltaTokenThrows | src/lib/account.ts:176-194 | The delta fetch throws exactly when the loop reaches an errored reply, and then with that reply's error. |
| Accounts.UpdateDeltaToken | src/lib/sync-to-db.ts:364-376 | Only the cursor of the given account changes, to the token; a missing account leaves the database unchanged. |
| UpdateEmails.UpdateEmail | src/lib/update-emails.ts:16-77 | A missing user throws before anything else. A run that does not complete writes nothing. Any provider request implies that every validation passed. A completed run stores emails only in non-empty batches and saves a non-empty cursor last; no other account field changes. |
| UpdateEmails.SyncSeed | src/lib/update-emails.ts:36-44 | Without a usable cursor the first page request carries the start's token. With one, it carries the stored cursor. |
| UpdateEmails.CompletedRun | src/lib/update-emails.ts:45-77 | A validated run completes exactly when the sync produced a result with a non-empty delta token and, for a non-empty batch, the batch could be stored. It then stores the emails (if any) and saves that token. |
| UpdateEmails.FailedFetchAborts | src/lib/update-emails.ts:45-49 | A delta fetch that throws ends the run with "Sync operation failed" and no write. |
| UpdateEmails.StoreFailureKeepsCursor | src/lib/update-emails.ts:58-67 | When the search index cannot be opened, a run with a non-empty batch throws "Failed to store emails" with that error and writes nothing, so the cursor stays where it was. |
| UpdateEmails.DeltaRunStoresPages | src/lib/update-emails.ts:36-77 | From a stored cursor, a fetch that stops at page n with a non-empty delta token completes. It files the records of pages 0..n in page order and moves the cursor to page n's delta token. |
| InitialSyncRoute.InitialSyncPost | src/app/api/initial-sync/route.ts:13-43 | A missing id gives 400 and an unowned account 404. 200 exactly when the sync returned and the search index opened; 500 exactly when the sync returned undefined. When the index cannot be opened, the handler throws after saving the cursor and before filing anything. Otherwise there is no write unless 200. On 200 the cursor is saved first, then the batch is filed. |
| InitialSyncRoute.OppositeWriteOrders | src/app/api/initial-sync/route.ts:36-38 | For an account without a cursor, the route and `updateEmail` reach the same database through opposite write orders: the route saves the cursor before storing, `updateEmail` after. When storing fails, `updateEmail` keeps the old cursor, while the route has already saved the new one and filed nothing, so that batch is lost. |
| AccountRouter.AuthoriseAccountAccess | src/server/api/routers/account.ts:6-13 | Succeeds exactly when the account exists and belongs to the user, returning its columns; otherwise "Account not found". |
| AccountRouter.AuthorisesOnlyOwner | src/server/api/routers/account.ts:6-13 | At most one user is authorised for an account. |
| AccountRouter.TabFilterMeaning | src/server/api/routers/account.ts:84-94 | A thread shows under a tab exactly when it is the account's, has the requested done state, and its flags are exactly the flag named by the tab. No flag is allowed for an unknown tab name. |
| AccountRouter.TwoFlagsShowNowhere | src/server/api/routers/account.ts:84-94 | A thread holding two flags is listed under no tab, and the reconciler can produce one (a sent thread that receives an inbox message). |
| AccountRouter.FilterIds | src/server/api/routers/account.ts:84-94 | The kept ids are exactly the scanned ids whose thread passes the filter, without duplicates when the scan has none. |
| AccountRouter.Listing | src/server/api/routers/account.ts:101-120 | The listing holds exactly the matching threads, newest last message first. |
| AccountRouter.ListingLength | src/server/api/routers/account.ts:95-97 | The listing has no duplicates and is as long as the thread count says. |
| AccountRouter.Window | src/server/api/routers/account.ts:118-119 | `skip`/`take` give at most `take` entries, exactly `take` when enough remain, none past the end, each the entry at offset `skip + j`. |
| AccountRouter.CeilDiv | src/server/api/routers/account.ts:124 | The page count is the least number of pages of the given size that cover the count. |
| AccountRouter.PagesCover | src/server/api/routers/account.ts:118-119 | The first n pages together are the first n × size entries: pages neither overlap nor leave gaps. |
| AccountRouter.PagesPartition | src/server/api/routers/account.ts:118-124 | Walking all `totalPages` pages visits the whole listing once, in order. |
| AccountRouter.GetThreads | src/server/api/routers/account.ts:69-126 | Fails exactly for an unauthorised account. Otherwise the page's thread ids are the `skip`/`take` window of the newest-first listing: `pageSize` of them from `(page - 1) * pageSize`, fewer on the last page and none past it. The page count is the ceiling of the total over the page size. |
| AccountRouter.GetThreadsWalk | src/server/api/routers/account.ts:118-124 | Page `page` of the procedure is page `page` of the generic pages of the listing, for every page up to the count, so asking for pages 1 to `totalPages` in turn visits every matching thread once, newest first. |
| AccountRouter.GetThreadsPageAt | src/server/api/routers/account.ts:118-120 | A page within the count holds the ids of the listing's window that starts after the earlier pages. |
| AccountRouter.GetThreadsPage | src/server/api/routers/account.ts:84-124 | A page holds only the account's threads that pass the tab filter, newest first. A page within the page count is non-empty. |
| AccountRouter.PageStartsInside | src/server/api/routers/account.ts:118-124 | A page number up to the page count skips fewer entries than the total. |
| AccountRouter.SqlSum | src/server/api/routers/account.ts:49-56 | The SQL sum is NULL exactly when the account has no thread, and otherwise the number of its threads with the flag. |
| AccountRouter.CountRows | src/server/api/routers/account.ts:49-56 | An aggregate without GROUP BY yields exactly one row, holding the five sums. |
| AccountRouter.GetThreadsCountAsWritten | src/server/api/routers/account.ts:28-68 | As written: fails for an unauthorised account; otherwise returns the query's first row, which for an account with threads holds the flag counts. |
| AccountRouter.EmptyAccountCountsAreNull | src/server/api/routers/account.ts:59-67 | For an account without threads the written procedure returns five NULLs, never the zero default. |
| AccountRouter.GetThreadsCount | src/server/api/routers/account.ts:28-68 | As intended: each count is the number of the account's threads holding that flag. |
| AccountRouter.CountsAsIntended | src/server/api/routers/account.ts:28-68 | The intended counts are 0 for an account without threads and agree with the written query whenever it has some. |
| AccountRouter.TrashCountDisjoint | src/server/api/routers/account.ts:49-56 | Under trash dominance, the trash count plus any other flag's count never exceeds the account's thread count. |
| ReplyDetails.ViewSender | src/server/api/routers/account.ts:166-184 | A joined email's sender address is the address its row refers to. |
| ReplyDetails.ViewRecipients | src/server/api/routers/account.ts:170-184 | A joined email's sender is the stored row with its sender id. Its to and cc lists hold exactly the stored rows whose ids the email lists. |
| ReplyDetails.LastExternal | src/server/api/routers/account.ts:188-190 | Some email is chosen exactly when one was sent from another address. The chosen one was, and every email after it was sent from the account's address. |
| ReplyDetails.LastExternalIsLatest | src/server/api/routers/account.ts:186-190 | On emails in ascending sentAt order, no external email was sent after the chosen one. |
| ReplyDetails.ReplyDraft | src/server/api/routers/account.ts:199-206 | A reply goes to the chosen email's sender only, with no cc, from the account, under the email's subject and message id. |
| ReplyDetails.WithoutAddress | src/server/api/routers/account.ts:207-217 | Exactly the recipients whose address is not the given one. |
| ReplyDetails.ReplyAllDraft | src/server/api/routers/account.ts:207-217 | Corrected reply-all: the sender first, then exactly the to and cc recipients other than the account's own address. |
| ReplyDetails.DraftRecipients | src/server/api/routers/account.ts:199-217 | A draft answering a stored email goes first to that email's sender row. A reply has no other recipient and no cc. A reply-all adds exactly the email's other recipients and copies, the account's address left out. |
| ReplyDetails.ReplyAllDraftAsWritten | src/server/api/routers/account.ts:207-217 | As written: recipients are kept exactly when their address-row id, as text, differs from the account id. |
| ReplyDetails.AsWrittenKeepsOwnAddress | src/server/api/routers/account.ts:207-217 | Since no address-row id is an account id, the written filter removes nobody, and the own address stays a recipient. |
| ReplyDetails.OwnAddressCounterexample | src/server/api/routers/account.ts:207-217 | A concrete message addressed to the account: the written draft replies to the account itself, the corrected one does not. |
| ReplyDetails.GetReplyDetails | src/server/api/routers/account.ts:153-219 | "Account not found" for an unowned account and "Thread not Found" for a thread without emails. A result is from the account and goes first to a sender other than the account. A reply has one recipient and no cc. Corrected: reply-all never addresses the account; the source's reply-all keeps the account's own address (see Findings, account.ts:207-217). The email answered and the recipients taken from it are stated by `ReplyAnswersLatestExternal`. |
| ReplyDetails.ViewsOfThread | src/server/api/routers/account.ts:166-187 | The joined views stand for the thread's emails, position by position, sender included. |
| ReplyDetails.NoExternalFails | src/server/api/routers/account.ts:190-193 | For the account's own thread with emails, the procedure either succeeds or fails with "No External email found in Thread". It succeeds exactly when some email of the thread was sent from another address. |
| ReplyDetails.ReplyAnswersLatestExternal | src/server/api/routers/account.ts:186-217 | A result answers a stored email of the thread that was not sent from the account, and no such email was sent later. It carries that email's subject and message id, and goes first to that email's sender row. A reply-all goes to exactly that email's other to-recipients and copies its cc-recipients, the account's address left out. |
| ReplyDetails.ChosenDraftAnswers | src/server/api/routers/account.ts:188-217 | The draft built from the chosen email answers the stored email behind it, with its subject, id, sender and recipients. |
| CallbackRoute.LinkAccount | src/app/api/aurinko/callback/route.ts:49-59 | The row is keyed by the provider's account number as text. An existing row only gets the new access token; a new row belongs to the user, holds the details and has no cursor. Other rows are untouched. |
| CallbackRoute.Callback | src/app/api/aurinko/callback/route.ts:13-76 | Guards in order: no user 401; status not exactly "success" 400; a blank trimmed code 400; a failed exchange 400; a failing details lookup throws. The redirect to /mail happens exactly when all pass, after the upsert and with the initial sync requested. No write otherwise. |
| CallbackRoute.LinkKeepsOtherAccounts | src/app/api/aurinko/callback/route.ts:49-59 | Linking one provider account never touches another account's row. |
| CallbackRoute.RelinkKeepsOwner | src/app/api/aurinko/callback/route.ts:49-76 | A second user linking an already linked mailbox leaves the first owner on the row, and the initial sync then requested for the second user answers 404. |
| TagInput.Options | src/app/mail/components/email-editor/tag-input.tsx:34-44 | No suggestions give no options. No option has the account's address. Each option is the `name ?? address` entry of an offered suggestion, and every offered suggestion has one. |
| TagInput.Kept | src/app/mail/components/email-editor/tag-input.tsx:36-44 | The filter-then-map: the same membership facts as Options, and, when nothing is filtered out, exactly the suggestions mapped in order. |
| TagInput.OptionsWithInput | src/app/mail/components/email-editor/tag-input.tsx:116-124 | Without typed text the options are unchanged; with it, exactly one extra option for the text at the end. |
| TagInput.TypingOwnAddressOffersIt | src/app/mail/components/email-editor/tag-input.tsx:34-36 | Typing the account's own address offers it again, and only as the typed option. |
| TagInput.SelectedValues | src/app/mail/components/email-editor/tag-input.tsx:46-53 | One entry per value, in order, with its label and value and the same pair as data. |
| TagInput.SelectedValuesRoundTrip | src/app/mail/components/email-editor/tag-input.tsx:46-53 | Showing the chosen values and reading them back gives the values again. |
| TagInput.WordStarts | src/app/mail/components/email-editor/tag-input.tsx:68-72 | The reference scan for word starts returns no space and no more characters than the name. |
| TagInput.FirstsOfSplit | src/app/mail/components/email-editor/tag-input.tsx:68-72 | Splitting on single spaces and taking each piece's first character picks exactly the first characters of words. |
| TagInput.InitialsAreWordStarts | src/app/mail/components/email-editor/tag-input.tsx:68-72 | The initials are the upper-cased first character of every space-separated word: no spaces, never longer than the name. |
| ReplyBox.ReplySubject | src/app/mail/components/reply-box.tsx:37-41 | The result starts with "Re:" and ends with the subject. It equals the subject exactly when the subject already starts with "Re:". |
| ReplyBox.ReplySubjectIdempotent | src/app/mail/components/reply-box.tsx:37-41 | Prefixing twice is prefixing once. |
| ReplyBox.RecipientChoices | src/app/mail/components/reply-box.tsx:43-58 | One chip per recipient in order, value the address, label the name when present and the address otherwise. |
| ReplyBox.Render | src/app/mail/components/reply-box.tsx:18 | Nothing is rendered exactly when the reply details are absent; otherwise the composer starts with the `Re:` subject. |
| ReplyBox.OnDetailsChange | src/app/mail/components/reply-box.tsx:61-79 | Without a thread nothing changes. Otherwise the chips are refilled from the details, and the subject is replaced only when the new one lacks "Re:". |
| ReplyBox.EffectAgreesWithInitial | src/app/mail/components/reply-box.tsx:37-79 | Re-running the effect on the details the composer started with changes nothing. |
| ReplyBox.EffectKeepsSubjectForReSubjects | src/app/mail/components/reply-box.tsx:61-66 | New details whose subject already starts with "Re:" leave the old subject in place, even when it differs. |
| ReplyBox.HandleSend | src/app/mail/components/reply-box.tsx:83-101 | As written: subject and body from the composer, from and replyTo the account, inReplyTo the details' id, and to and cc taken from the details, one per recipient. |
| ReplyBox.SendIgnoresEditedRecipients | src/app/mail/components/reply-box.tsx:83-101 | The payload's recipients are the chips the composer started with, whatever the chips hold now. |
| ReplyBox.RemovedRecipientStillSent | src/app/mail/components/reply-box.tsx:83-101 | After every chip is removed, the first reply recipient is still sent to. |
| ReplyBox.HandleSendEdited | src/app/mail/components/reply-box.tsx:83-101 | Corrected: to and cc are the current chips, label and value each. |
| ReplyBox.EditedSendAgreesUntilEdited | src/app/mail/components/reply-box.tsx:43-101 | Both sends agree until the chips are edited; with the to chips cleared, only the corrected one sends to nobody. |
| ReplyBox.ToLabels | src/app/mail/components/reply-box.tsx:127 | The header shows each to chip's label, in order. |
| ThreadList.HandlePageChange | src/app/mail/components/thread-list.tsx:31-35 | A requested page is taken exactly when it lies in 1..totalPages; otherwise the page stays. |
| ThreadList.PageStaysInRange | src/app/mail/components/thread-list.tsx:31-35 | A page inside the range never leaves it. |
| ThreadList.PreviousClick | src/app/mail/components/thread-list.tsx:72-82 | The previous arrow is active exactly above page 1 and asks for the page before. |
| ThreadList.NextClick | src/app/mail/components/thread-list.tsx:120-132 | The next arrow is active exactly below the last page and asks for the page after. |
| ThreadList.ArrowsMoveOnePage | src/app/mail/components/thread-list.tsx:72-132 | Inside the range every active arrow moves by exactly one page. |
| ThreadList.PreviousStuckPastEnd | src/app/mail/components/thread-list.tsx:31-82 | When the page shown is two or more past the page count, the previous arrow is active but its click changes nothing. |
| ThreadList.SystemLabelList | src/app/mail/components/thread-list.tsx:49-65 | No emails give no labels, and no label is listed twice. |
| ThreadList.SystemLabelListMembers | src/app/mail/components/thread-list.tsx:49-65 | A label is listed exactly when some email carries it. |
| ThreadList.SystemLabelListOrder | src/app/mail/components/thread-list.tsx:49-65 | Labels appear in order of first appearance: the list for the first k emails is a prefix of the whole list. |
| ThreadList.BadgeVariant | src/app/mail/components/thread-list.tsx:194-207 | Destructive exactly for "Important", default exactly for "Work" and "Personal", secondary for everything else, case-sensitively. |
| ThreadList.Badges | src/app/mail/components/thread-list.tsx:168-182 | No badges without emails. No badge reads "unread". Each badge is a listed label with its variant. |
| ThreadList.BadgesCoverLabels | src/app/mail/components/thread-list.tsx:168-182 | Every label of the thread's emails other than "unread" gets a badge. |
| ThreadList.KeysOf | src/app/mail/components/thread-list.tsx:37-47 | One key per element, in order. |
| ThreadList.WithKey | src/app/mail/components/thread-list.tsx:37-47 | Exactly the elements with the given key. |
| ThreadList.GroupByIsGrouping | src/app/mail/components/thread-list.tsx:37-47 | The reduce builds one section per distinct key, in first-appearance order, each holding exactly the elements with that key. |
| ThreadList.EachInOneSection | src/app/mail/components/thread-list.tsx:37-47 | Every element lands in exactly one section, the one for its key, and no section is empty. |
| ThreadList.EachThreadInOneSection | src/app/mail/components/thread-list.tsx:37-47 | Every listed thread is in exactly one date section: the day of its first email, or of now when it has none. |
| EmailEditor.PerformAction | src/app/mail/components/email-editor/email-editor.tsx:117-122 | Sending clears the editor, hands over the current body once and closes the dialog. |
| EmailEditor.HandleAction | src/app/mail/components/email-editor/email-editor.tsx:111-116 | A blank subject (empty once trimmed) only opens the dialog; any other subject sends at once. |
| EmailEditor.ClickSend | src/app/mail/components/email-editor/email-editor.tsx:189-191 | A click while sending changes nothing; otherwise it is the action above. |
| EmailEditor.BlankSubjectNeedsConfirmation | src/app/mail/components/email-editor/email-editor.tsx:111-113 | A blank subject hands nothing over and keeps the text until the dialog is answered; cancelling sends nothing. |
| EmailEditor.ConfirmedSendMatchesDirectSend | src/app/mail/components/email-editor/email-editor.tsx:111-122 | Confirming after a blank subject ends exactly like a direct send with a non-blank subject. |
| Sorting.SortBy | src/server/api/routers/account.ts:166-184 | The order of `orderBy sentAt asc`: sorted by the key and a permutation of its input. |
| Text.ParseNatToString | src/app/api/aurinko/callback/route.ts:49-59 | Reading back the decimal text of an account number gives the number, so distinct numbers get distinct row keys. |

The operations below are plain functions without a contract of their own. The rows named after each one state their properties:

- `SyncToDb.ReconcileEmail`, which is `upsertEmail` (src/lib/sync-to-db.ts:43-301): `ReconcileProperties.SenderResolves`, `Anatomy`, `SkipWhenSenderFails`, `EmailStoredById`, `ReconcilePreservesWf` and `ReconcileIdempotent`.
- `SyncToDb.ReconcileBatch` and `SyncToDb.SyncEmailsToDatabase`, which are `syncEmailToDatabase` (src/lib/sync-to-db.ts:9-41): `ReconcileProperties.BatchPreservesWf`, `TrashDominatesBatch`, `UpdateEmails.StoreFailureKeepsCursor` and `InitialSyncRoute.InitialSyncPost`.
- `SyncToDb.ThreadAfterUpsert`, the thread upsert (src/lib/sync-to-db.ts:119-162): `ReconcileProperties.NewThreadFlags`, `ExistingThreadFlags`, `TrashDominates` and `OtherThreadsUntouched`.
- `SyncToDb.Participants` (src/lib/sync-to-db.ts:133-160): `ReconcileProperties.ParticipantsMembers` and `ParticipantsOfThread`.
- `SyncToDb.UpsertAttachment` and `UpsertAttachments` (src/lib/sync-to-db.ts:290-292 and 334-362): `ReconcileProperties.AttachmentsKeepOwner`.
- `Provider.Paginate`, the page loop seeded with a delta token (src/lib/account.ts:76-91): `Provider.FollowStopsAt`, `FollowFetchedRecords` and `PerformInitialSync`.
- `ThreadList.GroupBy`, the `reduce` into date sections (src/app/mail/components/thread-list.tsx:37-47): `ThreadList.GroupByIsGrouping` and `EachInOneSection`.
- `TagInput.Initials` (src/app/mail/components/email-editor/tag-input.tsx:68-72): `TagInput.InitialsAreWordStarts`.
- `EmailEditor.Continue` and `EmailEditor.Cancel`, the dialog's buttons (src/app/mail/components/email-editor/email-editor.tsx:193-208): `EmailEditor.BlankSubjectNeedsConfirmation` and `ConfirmedSendMatchesDirectSend`.

## Left out

- Network and HTTP: the axios calls to the provider become reply scripts (`starts`, `replies`). The exchange of the code for a token and the account-details lookup become parameters of `CallbackRoute.Callback`. The background `waitUntil` call becomes the returned `syncRequest`.
- Persistence: Prisma becomes maps and a sequence in memory. The SQL of the counts is modelled by its result, not its text.
- Concurrency: `syncEmailToDatabase` runs up to twenty reconciliations at once (`p-limit`, `Promise.all`). The model files messages one after another, so races between concurrent read-then-write steps are not modelled.
- Errors inside the email or attachment upsert are caught and logged by the source. The model has no failing email or thread write; only address writes can fail, through `Env.faults`. The one store failure that escapes is opening the search index before the batch (`Env.indexError`), and it is modelled.
- The search index (Orama) inserts made while syncing, and the embeddings. Only the failure to open the index is modelled.
- Authentication: Clerk's `auth()` becomes an optional user id.
- Time: `new Date()` is `Env.now`. Dates are integers. The date formatting of the thread list's sections is an abstract function `day` from a time to a key.
- Upper-casing of the initials handles ASCII letters only. Characters are Unicode scalar values, while `chunk[0]` in JavaScript is a UTF-16 code unit, so an initial outside the Basic Multilingual Plane is a whole character here and half a surrogate pair in the source.
- Addresses are always present: the `address.address ?? ""` fallback for a missing address in the address upsert has no counterpart.
- `getSuggestions`, `getAccounts`, `sendEmail` and the rest of the router only read or forward to the provider, so they are not modelled. The suggestion query is represented by the list it returns.
- The rich-text editor: the body the editor reports (`value`) is a field of the model. How TipTap produces it is not modelled.
- Provider pagination: a script that runs out stands for the provider never answering or still reporting not ready. The unbounded ready-poll therefore appears as `StillPolling` and never as a loop.
- AccountRouter.GetThreads: requires `page >= 1` and `pageSize >= 1`. The input schema accepts any number, and a page below 1 or a size below 1 gives the database a negative skip or take, which is not modelled.
- ReplyDetails.GetReplyDetails: requires a store whose rows join: the address table is well formed and every email names a known thread and known address rows. The database's foreign keys guarantee this, and `ReconcileProperties.ReconcilePreservesWf` shows that the sync keeps it. A dangling reference, which the joins in `getReplyDetails` would drop, is not modelled.
- Attachment ids: every attachment has an id. In the source, a missing id is looked up as `""` and created with no id, so the database generates one; that path is not modelled.
- The participant list of an existing thread is replaced by the ids of the new message, not united with the old list.
- Tie order: `SyncToDb.LastInThread` takes, among a thread's emails with equal `receivedAt`, the one stored last, and `ReplyDetails.ThreadEmails` keeps storage order among equal `sentAt` (a stable sort). The database leaves the order of ties unspecified, and an update can move a row, so which tied email counts as the latest is a choice of the model.
- Thread emails in the listing: each thread of a `getThreads` page also carries its emails ordered by `sentAt` ascending. `ThreadPage` holds only the thread rows, because that nested read is the same join `getReplyDetails` performs and `ReplyDetails.ThreadEmails` models.
- Recipient relations: the to, cc, bcc and reply-to relations of an email are many-to-many sets in the database (`connect`/`set`). The model keeps them as ordered lists of ids that may repeat, so a joined view and a reply-to-all draft can list a recipient twice where the database would list it once.

## Notes on the behaviour as written

- A thread holding two flags (for example a sent thread that then receives an inbox message) shows under no tab (`AccountRouter.TwoFlagsShowNowhere`).
- An existing thread is never trashed by a later message (`ReconcileProperties.TrashNeverRaisedOnExistingThread`).
- `getReplyDetails` looks the thread up by id alone, not scoped to the account.
- The initial-sync route saves whatever delta token the sync returned, the empty one included; `updateEmail` rejects an empty one.
- A second user linking an already linked mailbox keeps the first owner, and the initial sync requested for the second user answers 404 (`CallbackRoute.RelinkKeepsOwner`).
- The reply composer keeps a stale subject when the new details' subject already starts with "Re:" (`ReplyBox.EffectKeepsSubjectForReSubjects`).
- The previous-page arrow does nothing once the page shown is two or more past the page count (`ThreadList.PreviousStuckPastEnd`).
- Typing one's own address offers it again in the recipient picker (`TagInput.TypingOwnAddressOffersIt`).
- Badge variants compare labels case-sensitively.

## Findings

| source | as written | input that shows it | evidently intended | confidence | as-written member | corrected member |
|---|---|---|---|---|---|---|
| src/server/api/routers/account.ts:49-67 | The counts come from `SUM(CASE …)` without GROUP BY, with a zero default when no row comes back. | An account with no thread: the query returns one row of NULLs, so the zero default is never used and every count is null. | Each count is the number of the account's threads with that flag, 0 when there are none. | not executed; medium (follows from SQL aggregate semantics) | AccountRouter.GetThreadsCountAsWritten (EmptyAccountCountsAreNull) | AccountRouter.GetThreadsCount (CountsAsIntended) |
| src/server/api/routers/account.ts:207-217 | Reply-all drops recipients whose EmailAddress row id equals the Account id, two ids from different tables. | Account "4242" at me@example.com answers a message sent to me@example.com: the reply-all draft is addressed to me@example.com. | The account's own address is left out of to and cc. | not executed; high | ReplyDetails.ReplyAllDraftAsWritten (OwnAddressCounterexample, AsWrittenKeepsOwnAddress) | ReplyDetails.ReplyAllDraft (GetReplyDetails) |
| src/app/mail/components/reply-box.tsx:83-101 | The send payload takes to and cc from the reply details, not from the recipient chips the user edits. | Remove every to chip and send: the reply still goes to the first original recipient. | The message goes to the recipients shown in the chips. | not executed; medium | ReplyBox.HandleSend (RemovedRecipientStillSent) | ReplyBox.HandleSendEdited (EditedSendAgreesUntilEdited) |
