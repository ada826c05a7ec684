/** The contact form controller: `validateForm`, the submit handler's
    Idle -> Busy -> Idle lifecycle, and the per-field blur/input border flag. The
    transient message is kept as an abstract notice; its markup and the 5000 ms
    auto-hide timer become the `NoticeExpired` event. */
module ContactForm {
  import opened JsText
  import opened Email

  /** The four controls `validateForm` reads, as the user left them. */
  datatype Fields = Fields(name: string, email: string, message: string, agreement: bool)

  /** Outcome of `validateForm`; the two failures are reported in this order. */
  datatype Verdict = Valid | MissingFields | MalformedEmail

  const MissingFieldsText: string := "Please fill in all required fields and accept the privacy policy."
  const MalformedEmailText: string := "Please enter a valid email address."
  const SentText: string := "Message sent successfully! I'll get back to you soon."
  const SendFailedText: string := "Sorry, there was an error sending your message. Please try again."
  const SendingLabel: string := "Sending..."

  /** The fields are all present after trimming and the agreement box is ticked. */
  predicate Complete(f: Fields) {
    !AllSpace(f.name) && !AllSpace(f.email) && !AllSpace(f.message) && f.agreement
  }

  /** `validateForm`: the missing-fields error wins; the email pattern is only tried on
      a complete form; the form is valid iff both checks pass. */
  function Validate(f: Fields): (v: Verdict)
    ensures v == MissingFields <==> !Complete(f)
    ensures v == MalformedEmail <==> Complete(f) && !MatchesPattern(Trim(f.email))
    ensures v == Valid <==> Complete(f) && MatchesPattern(Trim(f.email))
  {
    var email := Trim(f.email);
    ValidEmailIffPattern(email);
    if Trim(f.name) == [] || email == [] || Trim(f.message) == [] || !f.agreement then
      MissingFields
    else if !IsValidEmail(email) then
      MalformedEmail
    else
      Valid
  }

  datatype NoticeKind = Success | Error

  /** The message shown in the form's message box. */
  datatype Notice = Notice(kind: NoticeKind, text: string)

  /** The submit button: its `disabled` flag, the label text, and whether the loading
      spinner has been inserted in front of it. */
  datatype SubmitButton = SubmitButton(disabled: bool, caption: string, spinner: bool)

  /** Idle, or waiting for the send to finish with the label captured at submit time. */
  datatype Phase = Idle | Busy(originalLabel: string)

  /** The form as the controller sees it. `defaults` are the values `reset()` restores. */
  datatype Form = Form(fields: Fields, defaults: Fields, button: SubmitButton,
                       phase: Phase, notice: Option<Notice>)

  /** What can happen to the form: the user submits it, the send completes (delivered or
      not), or the message box's auto-hide timer fires. */
  datatype Event = Submit | SendDone(delivered: bool) | NoticeExpired

  /** The button agrees with the phase: enabled and bare while Idle, disabled with the
      spinner and the busy label while Busy. */
  predicate Consistent(f: Form) {
    match f.phase
    case Idle => !f.button.disabled && !f.button.spinner
    case Busy(_) => f.button.disabled && f.button.spinner && f.button.caption == SendingLabel
  }

  /** The error notice for a failed validation. */
  function ErrorNotice(v: Verdict): Notice
  {
    Notice(Error, if v == MissingFields then MissingFieldsText else MalformedEmailText)
  }

  /** The submit handler, given the verdict `validateForm` reached on the current
      fields. A disabled button does not submit the form. An invalid form shows its
      error and changes nothing else; a valid one enters Busy, remembering the label,
      disabling the button and showing "Sending..." with the spinner. */
  function OnSubmit(f: Form, v: Verdict): (r: Form)
    ensures f.button.disabled ==> r == f
    ensures !f.button.disabled && v != Valid ==>
              && r.phase == f.phase && r.button == f.button && r.fields == f.fields
              && r.notice == Some(Notice(Error, if v == MissingFields then MissingFieldsText
                                                else MalformedEmailText))
    ensures !f.button.disabled && v == Valid ==>
              && r.phase == Busy(f.button.caption)
              && r.button == SubmitButton(true, SendingLabel, true)
              && r.fields == f.fields && r.notice == f.notice
    ensures r.defaults == f.defaults
  {
    if f.button.disabled then f
    else if v != Valid then f.(notice := Some(ErrorNotice(v)))
    else f.(phase := Busy(f.button.caption),
            button := SubmitButton(true, SendingLabel, true))
  }

  /** The `finally`-guarded end of a send. Whatever the outcome the button is enabled,
      the spinner removed and the captured label restored; only a delivered message
      resets the fields. A completion while Idle changes nothing. */
  function OnSendDone(f: Form, delivered: bool): (r: Form)
    ensures f.phase.Idle? ==> r == f
    ensures f.phase.Busy? ==>
              && r.phase == Idle
              && r.button == SubmitButton(false, f.phase.originalLabel, false)
              && r.fields == (if delivered then f.defaults else f.fields)
              && r.notice == Some(if delivered then Notice(Success, SentText)
                                  else Notice(Error, SendFailedText))
    ensures r.defaults == f.defaults
  {
    match f.phase
    case Idle => f
    case Busy(original) =>
      Form(if delivered then f.defaults else f.fields, f.defaults,
           SubmitButton(false, original, false), Idle,
           Some(if delivered then Notice(Success, SentText) else Notice(Error, SendFailedText)))
  }

  /** One event. The button/phase agreement is kept, and the fields change only when a
      send in progress is delivered. */
  function Step(f: Form, e: Event): (r: Form)
    ensures Consistent(f) ==> Consistent(r)
    ensures r.fields != f.fields ==> f.phase.Busy? && e == SendDone(true)
    ensures r.defaults == f.defaults
  {
    match e
    case Submit => OnSubmit(f, Validate(f.fields))
    case SendDone(delivered) => OnSendDone(f, delivered)
    case NoticeExpired => f.(notice := None)
  }

  /** A valid submission followed by its completion leaves the button exactly as it was
      before the click, and the fields reset iff the message was delivered. An invalid
      submission never leaves Idle: the button stays enabled with its label, the fields
      are kept and an error is shown. */
  lemma SubmitRoundTrip(f: Form, delivered: bool)
    requires Consistent(f) && f.phase.Idle?
    ensures Validate(f.fields) == Valid ==>
              var g := Step(Step(f, Submit), SendDone(delivered));
              && g.phase == Idle && g.button == f.button
              && g.fields == (if delivered then f.defaults else f.fields)
    ensures Validate(f.fields) != Valid ==>
              var g := Step(f, Submit);
              && g.phase == Idle && g.button == f.button && !g.button.disabled
              && g.fields == f.fields && g.notice.Some? && g.notice.value.kind == Error
  {
  }

  /** The blur/input listeners: a blur flags a required field whose trimmed value is
      empty and clears the flag otherwise; any input clears it. */
  datatype FieldEvent = Blur | Input

  function BorderFlag(required: bool, value: string, e: FieldEvent): (flagged: bool)
    ensures flagged <==> e == Blur && required && AllSpace(value)
  {
    match e
    case Blur => required && Trim(value) == []
    case Input => false
  }
}
