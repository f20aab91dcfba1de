/** The wishlist entry forms (components/wishlist/WishItemForm.tsx): the
    dialog used to add or edit an entry and the inline add form. Both check
    the same rules: a title is needed, and in the default wishlist a reason
    is needed too; what is handed on is trimmed. */
module WishItemForm {
  import opened Common
  import opened Types

  const TitleRequired: string := "タイトルを入力してください"
  /** The dialog's message for a missing reason. */
  const ReasonRequiredDialog: string := "理由を入力してください（必須）"
  /** The inline form's message for a missing reason. */
  const ReasonRequiredInline: string := "理由を入力してください"

  /** The messages shown under each field. */
  datatype FormErrors = FormErrors(title: Option<string>, reason: Option<string>)

  const NoErrors: FormErrors := FormErrors(None, None)

  /** `onSubmit`'s argument. */
  datatype Submission = Submission(title: string, reason: string)

  /** `validate`: a blank title is an error; a blank reason is one only in
      the default wishlist. */
  function Validate(isDefaultList: bool, title: string, reason: string, reasonMessage: string): (r: FormErrors)
    ensures r.title.Some? <==> IsBlank(title)
    ensures r.title.Some? ==> r.title.value == TitleRequired
    ensures r.reason.Some? <==> isDefaultList && IsBlank(reason)
    ensures r.reason.Some? ==> r.reason.value == reasonMessage
  {
    FormErrors(if IsBlank(title) then Some(TitleRequired) else None,
               if isDefaultList && IsBlank(reason) then Some(reasonMessage) else None)
  }

  /** The dialog's fields. */
  datatype DialogForm = DialogForm(title: string, reason: string, errors: FormErrors)

  /** The effect run when the dialog opens or its entry changes: the
      entry's title and reason (an absent reason as ""), or empty fields;
      no messages. */
  function OpenDialog(editing: Option<WishItem>): (r: DialogForm)
    ensures r.errors == NoErrors
    ensures editing.None? ==> r.title == "" && r.reason == ""
    ensures editing.Some? ==> r.title == editing.value.title
    ensures editing.Some? && editing.value.reason.Some? ==> r.reason == editing.value.reason.value
    ensures editing.Some? && editing.value.reason.None? ==> r.reason == ""
  {
    match editing
    case None => DialogForm("", "", NoErrors)
    case Some(item) =>
      var reason := match item.reason case Some(s) => s case None => "";
      DialogForm(item.title, reason, NoErrors)
  }

  datatype DialogSubmitted = DialogSubmitted(form: DialogForm, submitted: Option<Submission>)

  /** The dialog's `handleSubmit`: when the check passes, the trimmed
      fields are handed on and both fields are cleared; otherwise the
      messages are shown and the fields stay. */
  function SubmitDialog(isDefaultList: bool, f: DialogForm): (r: DialogSubmitted)
    ensures r.submitted.Some? <==> !IsBlank(f.title) && !(isDefaultList && IsBlank(f.reason))
    ensures r.submitted.Some? ==> r.submitted.value == Submission(Trim(f.title), Trim(f.reason))
    ensures r.submitted.Some? ==> r.form == DialogForm("", "", NoErrors)
    ensures r.submitted.None? ==> r.form == DialogForm(f.title, f.reason, Validate(isDefaultList, f.title, f.reason, ReasonRequiredDialog))
  {
    var errors := Validate(isDefaultList, f.title, f.reason, ReasonRequiredDialog);
    if errors == NoErrors then DialogSubmitted(DialogForm("", "", errors), Some(Submission(Trim(f.title), Trim(f.reason))))
    else DialogSubmitted(DialogForm(f.title, f.reason, errors), None)
  }

  /** What is handed on has a title, has a reason in the default wishlist,
      and has no white space at either end. */
  lemma SubmissionIsClean(isDefaultList: bool, f: DialogForm)
    requires SubmitDialog(isDefaultList, f).submitted.Some?
    ensures var s := SubmitDialog(isDefaultList, f).submitted.value;
            s.title != "" && (isDefaultList ==> s.reason != "")
            && Trim(s.title) == s.title && Trim(s.reason) == s.reason
  {
    TrimIdempotent(f.title);
    TrimIdempotent(f.reason);
  }

  /** Submitting what was handed on again passes the check and hands on
      the same thing. */
  lemma ResubmitIsStable(isDefaultList: bool, f: DialogForm, errors: FormErrors)
    requires SubmitDialog(isDefaultList, f).submitted.Some?
    ensures var s := SubmitDialog(isDefaultList, f).submitted.value;
            SubmitDialog(isDefaultList, DialogForm(s.title, s.reason, errors)).submitted == Some(s)
  {
    TrimIdempotent(f.title);
    TrimIdempotent(f.reason);
  }

  /** The inline form: whether it is expanded, its fields and messages. */
  datatype InlineForm = InlineForm(expanded: bool, title: string, reason: string, errors: FormErrors)

  /** The collapsed button: expands the form, nothing else changes. */
  function ExpandInline(f: InlineForm): (r: InlineForm)
    ensures r.expanded && r.(expanded := f.expanded) == f
  {
    f.(expanded := true)
  }

  const ClosedInline: InlineForm := InlineForm(false, "", "", NoErrors)

  datatype InlineSubmitted = InlineSubmitted(form: InlineForm, submitted: Option<Submission>)

  /** The inline `handleSubmit`: like the dialog's, and on success the form
      also collapses with no messages. */
  function SubmitInline(isDefaultList: bool, f: InlineForm): (r: InlineSubmitted)
    ensures r.submitted.Some? <==> !IsBlank(f.title) && !(isDefaultList && IsBlank(f.reason))
    ensures r.submitted.Some? ==> r.submitted.value == Submission(Trim(f.title), Trim(f.reason)) && r.form == ClosedInline
    ensures r.submitted.None? ==> r.form == f.(errors := Validate(isDefaultList, f.title, f.reason, ReasonRequiredInline))
  {
    var errors := Validate(isDefaultList, f.title, f.reason, ReasonRequiredInline);
    if errors == NoErrors then InlineSubmitted(ClosedInline, Some(Submission(Trim(f.title), Trim(f.reason))))
    else InlineSubmitted(f.(errors := errors), None)
  }

  /** `handleCancel`: clears the fields and messages and collapses. */
  function CancelInline(f: InlineForm): (r: InlineForm)
    ensures !r.expanded && r.title == "" && r.reason == "" && r.errors == NoErrors
  {
    ClosedInline
  }

  /** The two forms accept the same input and hand on the same thing; they
      differ only in the wording of the missing-reason message. */
  lemma FormsAgree(isDefaultList: bool, title: string, reason: string, dialogErrors: FormErrors, inline: InlineForm)
    requires inline.title == title && inline.reason == reason
    ensures SubmitDialog(isDefaultList, DialogForm(title, reason, dialogErrors)).submitted == SubmitInline(isDefaultList, inline).submitted
    ensures Validate(isDefaultList, title, reason, ReasonRequiredDialog).title == Validate(isDefaultList, title, reason, ReasonRequiredInline).title
    ensures Validate(isDefaultList, title, reason, ReasonRequiredDialog).reason.Some?
            == Validate(isDefaultList, title, reason, ReasonRequiredInline).reason.Some?
  {
  }

  /** A title of white space only is refused with the title message, in
      either form. */
  lemma BlankTitleRefused(isDefaultList: bool, title: string, reason: string, errors: FormErrors)
    requires AllWhiteSpace(title)
    ensures SubmitDialog(isDefaultList, DialogForm(title, reason, errors)).submitted.None?
    ensures SubmitDialog(isDefaultList, DialogForm(title, reason, errors)).form.errors.title == Some(TitleRequired)
  {
    BlankIffAllWhiteSpace(title);
  }
}
