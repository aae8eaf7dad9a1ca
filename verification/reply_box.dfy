/** The reply composer under an open thread: the `Re:` subject, the recipient chips filled
    from the reply details, the refresh when the details change, and the payload it sends. */
module ReplyBox {
  import opened Wrappers
  import opened Text
  import opened AddressBook
  import opened ReplyDetails
  import opened TagInput

  /** The subject a reply starts with: `Re: ` put in front unless the subject already
      starts with `Re:` (case-sensitive, no space needed). */
  function ReplySubject(s: string): (r: string)
    ensures StartsWith(r, "Re:")
    ensures |s| <= |r| && r[|r| - |s|..] == s
    ensures r == s <==> StartsWith(s, "Re:")
  {
    if StartsWith(s, "Re:") then s else "Re: " + s
  }

  /** Prefixing is idempotent: a reply to a reply gets no second `Re:`. */
  lemma ReplySubjectIdempotent(s: string)
    ensures ReplySubject(ReplySubject(s)) == ReplySubject(s)
  {
  }

  /** A recipient chip for an address row: `label: name ?? address, value: address`. */
  function ChoiceOf(a: AddressRow): Choice {
    Choice(DisplayName(a.name, a.address), a.address)
  }

  /** The chips for a list of recipients, one per row, in order. */
  function RecipientChoices(rows: seq<AddressRow>): (r: seq<Choice>)
    ensures |r| == |rows|
    ensures forall i :: 0 <= i < |r| ==> r[i].value == rows[i].address
    ensures forall i :: 0 <= i < |r| ==>
      (rows[i].name.Some? ==> r[i].caption == rows[i].name.value)
      && (rows[i].name.None? ==> r[i].caption == rows[i].address)
  {
    seq(|rows|, i requires 0 <= i < |rows| => ChoiceOf(rows[i]))
  }

  /** The composer's state: the subject field and the to/cc chips. */
  datatype Composer = Composer(subject: string, toValues: seq<Choice>, ccValues: seq<Choice>)

  /** The state the composer is created with for some reply details. */
  function Initial(d: Details): (c: Composer)
    ensures c.subject == ReplySubject(d.subject)
    ensures |c.toValues| == |d.to| && |c.ccValues| == |d.cc|
  {
    Composer(ReplySubject(d.subject), RecipientChoices(d.to), RecipientChoices(d.cc))
  }

  /** Nothing is rendered until the reply details have arrived. */
  function Render(details: Option<Details>): (c: Option<Composer>)
    ensures c.None? <==> details.None?
    ensures details.Some? ==> c.value.subject == ReplySubject(details.value.subject)
  {
    match details
    case None => None
    case Some(d) => Some(Initial(d))
  }

  /** The effect run when the details or the thread change: nothing without a thread; the
      subject is replaced only when the new one lacks `Re:`; the chips are refilled. */
  function OnDetailsChange(c: Composer, d: Details, threadId: string): (r: Composer)
    ensures threadId == "" ==> r == c
    ensures threadId != "" ==>
      && r.toValues == RecipientChoices(d.to) && r.ccValues == RecipientChoices(d.cc)
      && (StartsWith(d.subject, "Re:") ==> r.subject == c.subject)
      && (!StartsWith(d.subject, "Re:") ==> r.subject == ReplySubject(d.subject))
  {
    if threadId == "" then c
    else
      var subject := if !StartsWith(d.subject, "Re:") then "Re: " + d.subject else c.subject;
      Composer(subject, RecipientChoices(d.to), RecipientChoices(d.cc))
  }

  /** On the details it was created with, the effect changes nothing it was created with. */
  lemma EffectAgreesWithInitial(d: Details, threadId: string)
    ensures OnDetailsChange(Initial(d), d, threadId) == Initial(d)
  {
  }

  /** Switching to details whose subject already starts with `Re:` keeps the subject the
      composer had: the field is only overwritten for subjects without the prefix. */
  lemma EffectKeepsSubjectForReSubjects(c: Composer, d: Details, threadId: string)
    requires threadId != "" && StartsWith(d.subject, "Re:")
    ensures OnDetailsChange(c, d, threadId).subject == c.subject
    ensures c.subject != d.subject ==> OnDetailsChange(c, d, threadId).subject != ReplySubject(d.subject)
  {
  }

  /** What the send mutation is called with. */
  datatype Payload = Payload(
    accountId: string, threadId: string, body: string, subject: string, from: Named,
    to: seq<Named>, cc: seq<Named>, replyTo: Named, inReplyTo: string)

  function NamedOf(a: AddressRow): Named {
    Named(DisplayName(a.name, a.address), a.address)
  }

  function NamedAll(rows: seq<AddressRow>): (r: seq<Named>)
    ensures |r| == |rows|
    ensures forall i :: 0 <= i < |r| ==> r[i] == NamedOf(rows[i])
  {
    seq(|rows|, i requires 0 <= i < |rows| => NamedOf(rows[i]))
  }

  /** `handleSend` as written: the body and the edited subject come from the composer, but
      the recipients are those of the reply details, not the chips. */
  function HandleSend(d: Details, c: Composer, accountId: string, threadId: string, body: string): (p: Payload)
    ensures p.subject == c.subject && p.body == body
    ensures p.from == Named(d.fromName, d.fromAddress) && p.replyTo == p.from
    ensures p.inReplyTo == d.id
    ensures |p.to| == |d.to| && |p.cc| == |d.cc|
    ensures forall i :: 0 <= i < |p.to| ==> p.to[i].address == d.to[i].address
    ensures forall i :: 0 <= i < |p.cc| ==> p.cc[i].address == d.cc[i].address
  {
    var from := Named(d.fromName, d.fromAddress);
    Payload(accountId, threadId, body, c.subject, from, NamedAll(d.to), NamedAll(d.cc), from, d.id)
  }

  /** The recipients sent are the ones the chips start with, whatever was edited since. */
  lemma SendIgnoresEditedRecipients(d: Details, c: Composer, accountId: string, threadId: string, body: string)
    ensures var p := HandleSend(d, c, accountId, threadId, body);
      var c0 := Initial(d);
      && |p.to| == |c0.toValues|
      && (forall i :: 0 <= i < |p.to| ==> p.to[i] == Named(c0.toValues[i].caption, c0.toValues[i].value))
      && p == HandleSend(d, c.(toValues := [], ccValues := []), accountId, threadId, body)
  {
  }

  /** A recipient removed from the chips is still sent to: the first reply recipient
      survives clearing every chip. */
  lemma RemovedRecipientStillSent(d: Details, accountId: string, threadId: string, body: string)
    requires |d.to| >= 1
    ensures var c := Initial(d).(toValues := []);
      HandleSend(d, c, accountId, threadId, body).to[0].address == d.to[0].address
  {
  }

  /** The send that uses the chips as edited: each chip's label and value. */
  function HandleSendEdited(d: Details, c: Composer, accountId: string, threadId: string, body: string): (p: Payload)
    ensures p.subject == c.subject && p.body == body
    ensures p.from == Named(d.fromName, d.fromAddress) && p.replyTo == p.from
    ensures p.inReplyTo == d.id
    ensures |p.to| == |c.toValues| && |p.cc| == |c.ccValues|
    ensures forall i :: 0 <= i < |p.to| ==> p.to[i] == Named(c.toValues[i].caption, c.toValues[i].value)
    ensures forall i :: 0 <= i < |p.cc| ==> p.cc[i] == Named(c.ccValues[i].caption, c.ccValues[i].value)
  {
    var from := Named(d.fromName, d.fromAddress);
    var to := seq(|c.toValues|, i requires 0 <= i < |c.toValues| => Named(c.toValues[i].caption, c.toValues[i].value));
    var cc := seq(|c.ccValues|, i requires 0 <= i < |c.ccValues| => Named(c.ccValues[i].caption, c.ccValues[i].value));
    Payload(accountId, threadId, body, c.subject, from, to, cc, from, d.id)
  }

  /** Until the chips are edited both sends agree; after an edit only the corrected one
      follows it. */
  lemma EditedSendAgreesUntilEdited(d: Details, accountId: string, threadId: string, body: string)
    ensures HandleSendEdited(d, Initial(d), accountId, threadId, body)
         == HandleSend(d, Initial(d), accountId, threadId, body)
    ensures |d.to| >= 1 ==>
      HandleSendEdited(d, Initial(d).(toValues := []), accountId, threadId, body).to == []
  {
    var p := HandleSendEdited(d, Initial(d), accountId, threadId, body);
    var q := HandleSend(d, Initial(d), accountId, threadId, body);
    assert p.to == q.to;
    assert p.cc == q.cc;
  }

  /** The recipient labels shown in the editor header. */
  function ToLabels(c: Composer): (r: seq<string>)
    ensures |r| == |c.toValues|
    ensures forall i :: 0 <= i < |r| ==> r[i] == c.toValues[i].caption
  {
    seq(|c.toValues|, i requires 0 <= i < |c.toValues| => c.toValues[i].caption)
  }
}
