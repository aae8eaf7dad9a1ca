/** The label an incoming message is filed under, and the five status flags of a thread:
    how a message's provider tags pick its label, how a new thread's flags follow from its
    first message, how an update overwrites them, and how they are recomputed from the
    prior flags and the label of the thread's latest message. */
module Labels {

  /** The labels the reconciler actually assigns (the source's label type also names
      unread, flagged and important, but no branch ever produces them). */
  datatype Label = Inbox | Trash | Junk | Sent | Draft

  /** A tag set routes to the inbox when it says "inbox" or "important". */
  predicate InboxTagged(tags: seq<string>) {
    "inbox" in tags || "important" in tags
  }

  /** The label of a message with provider tags `tags`: the first of inbox (or important),
      trash, junk, sent, draft that the tags mention, and inbox when none is mentioned. */
  function ClassifyLabel(tags: seq<string>): (l: Label)
    ensures l == Trash <==> !InboxTagged(tags) && "trash" in tags
    ensures l == Junk <==> !InboxTagged(tags) && "trash" !in tags && "junk" in tags
    ensures l == Sent <==> !InboxTagged(tags) && "trash" !in tags && "junk" !in tags && "sent" in tags
    ensures l == Draft <==>
      !InboxTagged(tags) && "trash" !in tags && "junk" !in tags && "sent" !in tags && "draft" in tags
    ensures l == Inbox <==>
      InboxTagged(tags)
      || ("trash" !in tags && "junk" !in tags && "sent" !in tags && "draft" !in tags)
  {
    if InboxTagged(tags) then Inbox
    else if "trash" in tags then Trash
    else if "junk" in tags then Junk
    else if "sent" in tags then Sent
    else if "draft" in tags then Draft
    else Inbox
  }

  /** The label depends on which tags are present, not on their order or repetition. */
  lemma ClassifyLabelBySet(a: seq<string>, b: seq<string>)
    requires forall x :: x in a <==> x in b
    ensures ClassifyLabel(a) == ClassifyLabel(b)
  {
  }

  /** The five status flags of a thread. */
  datatype Flags = Flags(inbox: bool, draft: bool, sent: bool, trash: bool, junk: bool)

  /** The flag that corresponds to label `l`. */
  function Holds(f: Flags, l: Label): bool {
    match l
    case Inbox => f.inbox
    case Draft => f.draft
    case Sent => f.sent
    case Trash => f.trash
    case Junk => f.junk
  }

  /** Trash dominates: a trashed thread shows in no other view. */
  predicate TrashExclusive(f: Flags) {
    f.trash ==> !f.inbox && !f.draft && !f.sent && !f.junk
  }

  const TrashOnly := Flags(inbox := false, draft := false, sent := false, trash := true, junk := false)

  /** The flags of a newly created thread: exactly the flag of its first message's label. */
  function CreateFlags(l: Label): (f: Flags)
    ensures forall m :: Holds(f, m) <==> m == l
    ensures TrashExclusive(f)
  {
    Flags(inbox := l == Inbox, draft := l == Draft, sent := l == Sent, trash := l == Trash, junk := l == Junk)
  }

  /** The flags an update of an existing thread writes: inbox, draft and sent are
      overwritten from this message's label alone; trash and junk are left as they were. */
  function UpdateFlags(prior: Flags, l: Label): (f: Flags)
    ensures f.trash == prior.trash && f.junk == prior.junk
    ensures forall m :: m in {Inbox, Draft, Sent} ==> (Holds(f, m) <==> m == l)
  {
    prior.(inbox := l == Inbox, draft := l == Draft, sent := l == Sent)
  }

  /** The second pass on an existing thread: from the thread's flags before this message
      and the label of its latest message. A trashed thread becomes trash-only; junk stays
      junk (clearing inbox, draft and sent) when the latest message is junk too; a latest
      inbox, sent or draft message raises that flag and clears junk; anything else
      (latest trash, or latest junk on a thread not marked junk) changes nothing. */
  function RecomputeFlags(prior: Flags, last: Label): (f: Flags)
    ensures prior.trash ==> f == TrashOnly
    ensures !prior.trash && last == Junk && prior.junk ==>
      f == Flags(inbox := false, draft := false, sent := false, trash := false, junk := true)
    ensures !prior.trash && last in {Inbox, Sent, Draft} ==>
      && Holds(f, last) && !f.junk && !f.trash
      && forall m :: m in {Inbox, Sent, Draft} && m != last ==> Holds(f, m) == Holds(prior, m)
    ensures !prior.trash && (last == Trash || (last == Junk && !prior.junk)) ==> f == prior
    ensures f.trash == prior.trash
    ensures TrashExclusive(f)
  {
    if prior.trash then TrashOnly
    else if last == Junk && prior.junk then prior.(inbox := false, draft := false, sent := false)
    else if last == Inbox then prior.(inbox := true, junk := false)
    else if last == Sent then prior.(sent := true, junk := false)
    else if last == Draft then prior.(draft := true, junk := false)
    else prior
  }

  /** Recomputing twice with the same latest label changes nothing more. */
  lemma RecomputeIdempotent(prior: Flags, last: Label)
    ensures RecomputeFlags(RecomputeFlags(prior, last), last) == RecomputeFlags(prior, last)
  {
  }

  /** A thread created from a message and recomputed with that same message as its
      latest keeps its creation flags. */
  lemma RecomputeAfterCreate(l: Label)
    ensures RecomputeFlags(CreateFlags(l), l) == CreateFlags(l)
  {
  }
}
