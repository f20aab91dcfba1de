/** The dialogs that create a wishlist and rename one
    (components/wishlist/CreateListModal.tsx and EditListModal.tsx). Both
    refuse a blank name and hand on the trimmed name. */
module ListModals {
  import opened Common
  import opened Types
  import opened WishLists

  const ListNameRequired: string := "リスト名を入力してください"

  /** A dialog's name field and its message ("" for none). */
  datatype ModalForm = ModalForm(title: string, error: string)

  /** The create dialog's effect: opening it clears the field and the
      message; closing it leaves them. */
  function OpenCreate(f: ModalForm, isOpen: bool): (r: ModalForm)
    ensures isOpen ==> r == ModalForm("", "")
    ensures !isOpen ==> r == f
  {
    if isOpen then ModalForm("", "") else f
  }

  /** Typing in the create dialog also clears the message. */
  function TypeCreate(f: ModalForm, text: string): (r: ModalForm)
    ensures r.title == text && r.error == ""
  {
    ModalForm(text, "")
  }

  datatype CreateSubmitted = CreateSubmitted(form: ModalForm, created: Option<string>, closed: bool)

  /** The create dialog's `handleSubmit`: a blank name shows the message
      and keeps the dialog open; otherwise `onCreate` gets the trimmed name
      and the dialog closes. */
  function SubmitCreate(f: ModalForm): (r: CreateSubmitted)
    ensures r.created.Some? <==> !IsBlank(f.title)
    ensures r.closed <==> r.created.Some?
    ensures r.created.Some? ==> r.created.value == Trim(f.title) && r.form == f
    ensures r.created.None? ==> r.form == ModalForm(f.title, ListNameRequired)
  {
    if IsBlank(f.title) then CreateSubmitted(f.(error := ListNameRequired), None, false)
    else CreateSubmitted(f, Some(Trim(f.title)), true)
  }

  /** The name the dialog hands on is the title the wishlists hook writes:
      never blank and trimmed. */
  lemma CreatedNameReachesHook(f: ModalForm, prev: seq<WishList>, uid: string, reply: Reply<WishList>)
    requires SubmitCreate(f).created.Some?
    ensures var name := SubmitCreate(f).created.value;
            var q := CreateWishList(prev, name, Some(uid), reply).request.value;
            q.title == Trim(f.title) && q.title != "" && Trim(q.title) == q.title && !q.isDefault
  {
    TrimIdempotent(f.title);
  }

  /** The rename dialog's effect: a list being given loads its name and
      clears the message; no list leaves the field as it is. */
  function SyncEdit(f: ModalForm, list: Option<WishList>): (r: ModalForm)
    ensures list.Some? ==> r == ModalForm(list.value.title, "")
    ensures list.None? ==> r == f
  {
    match list
    case Some(l) => ModalForm(l.title, "")
    case None => f
  }

  /** Typing in the rename dialog changes the name only; a message already
      shown stays. */
  function TypeEdit(f: ModalForm, text: string): (r: ModalForm)
    ensures r.title == text && r.error == f.error
  {
    f.(title := text)
  }

  /** The call `onSubmit(list.id, title)`. */
  datatype Rename = Rename(id: string, title: string)

  datatype EditSubmitted = EditSubmitted(form: ModalForm, renamed: Option<Rename>)

  /** The rename dialog's `handleSubmit`: a blank name shows the message;
      otherwise, with a list, `onSubmit` gets its id and the trimmed name.
      The dialog does not close itself. */
  function SubmitEdit(f: ModalForm, list: Option<WishList>): (r: EditSubmitted)
    ensures r.renamed.Some? <==> !IsBlank(f.title) && list.Some?
    ensures r.renamed.Some? ==> r.renamed.value == Rename(list.value.id, Trim(f.title))
    ensures IsBlank(f.title) ==> r.form == ModalForm(f.title, ListNameRequired)
    ensures !IsBlank(f.title) ==> r.form == f
  {
    if IsBlank(f.title) then EditSubmitted(f.(error := ListNameRequired), None)
    else if list.Some? then EditSubmitted(f, Some(Rename(list.value.id, Trim(f.title))))
    else EditSubmitted(f, None)
  }

  /** Loading a list and submitting without typing renames it to its own
      trimmed name; submitting that name again asks for the same rename. */
  lemma UntouchedRenameIsStable(f: ModalForm, l: WishList)
    requires !IsBlank(l.title)
    ensures var r := SubmitEdit(SyncEdit(f, Some(l)), Some(l)).renamed;
            r == Some(Rename(l.id, Trim(l.title)))
            && SubmitEdit(ModalForm(r.value.title, ""), Some(l)).renamed == r
  {
    TrimIdempotent(l.title);
  }

  /** After a refused name, typing clears the message in the create dialog
      but not in the rename dialog. */
  lemma TypingAfterRefusal(f: ModalForm, l: Option<WishList>, text: string)
    requires IsBlank(f.title)
    ensures TypeCreate(SubmitCreate(f).form, text).error == ""
    ensures TypeEdit(SubmitEdit(f, l).form, text).error == ListNameRequired
  {
  }
}
