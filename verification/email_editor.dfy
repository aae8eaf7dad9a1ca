/** The composer's send button: a blank subject asks for confirmation first; sending
    clears the editor and hands the current body to the send callback. */
module EmailEditor {
  import opened Text

  /** The editor's state: the text shown, the body last reported by the editor, whether
      the confirmation dialog is open, and the bodies handed to the send callback so far. */
  datatype Editor = Editor(content: string, value: string, shouldConfirm: bool, sent: seq<string>)

  /** Sending: the editor is cleared, the body is handed over, the dialog closes. The
      reported body itself is left as it was. */
  function PerformAction(e: Editor): (r: Editor)
    ensures r.content == "" && !r.shouldConfirm
    ensures r.sent == e.sent + [e.value]
    ensures r.value == e.value
  {
    Editor("", e.value, false, e.sent + [e.value])
  }

  /** The Send button: with a blank subject (empty after trimming) only the dialog opens;
      otherwise the message goes at once. */
  function HandleAction(e: Editor, subject: string): (r: Editor)
    ensures IsBlank(subject) ==> r == e.(shouldConfirm := true)
    ensures !IsBlank(subject) ==> r == PerformAction(e)
  {
    if Trim(subject) == "" then e.(shouldConfirm := true) else PerformAction(e)
  }

  /** A click on Send; the button is disabled while a send is pending. */
  function ClickSend(e: Editor, subject: string, isSending: bool): (r: Editor)
    ensures isSending ==> r == e
    ensures !isSending ==> r == HandleAction(e, subject)
  {
    if isSending then e else HandleAction(e, subject)
  }

  /** The dialog's Continue button. */
  function Continue(e: Editor): Editor {
    PerformAction(e)
  }

  /** The dialog's Cancel button, or any other way of closing it. */
  function Cancel(e: Editor): Editor {
    e.(shouldConfirm := false)
  }

  /** A blank subject never sends on the first click: nothing is handed over and the
      editor keeps its text until the dialog is answered. */
  lemma BlankSubjectNeedsConfirmation(e: Editor, subject: string)
    requires IsBlank(subject)
    ensures HandleAction(e, subject).sent == e.sent
    ensures HandleAction(e, subject).content == e.content
    ensures HandleAction(e, subject).shouldConfirm
    ensures Cancel(HandleAction(e, subject)).sent == e.sent
  {
  }

  /** Whatever the subject, clicking Send and then confirming when asked hands over the
      same body exactly once, and leaves the editor cleared with the dialog closed. */
  lemma ConfirmedSendMatchesDirectSend(e: Editor, blank: string, filled: string)
    requires IsBlank(blank) && !IsBlank(filled)
    ensures Continue(HandleAction(e, blank)) == HandleAction(e, filled)
    ensures HandleAction(e, filled).sent == e.sent + [e.value]
  {
  }
}
