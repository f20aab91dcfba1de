/** The dialog that turns a wishlist entry into a task
    (components/wishlist/ConvertToTaskModal.tsx): the day, priority and
    category chosen, the call it makes, and what the wishlist page does
    with that call (app/(main)/wishlist/page.tsx:131-149). The clock and date formatting
    are outside the model: the 'yyyy-MM-dd' keys for today, tomorrow and a
    week from today are given. */
module ConvertToTaskModal {
  import opened Common
  import opened Types
  import opened WishItems
  import Tasks

  /** The dialog's choices; "" is "no category". */
  datatype ConvertForm = ConvertForm(selectedDate: string, priority: Priority, categoryId: string)

  /** The effect run when the dialog opens: today, medium priority, no
      category. Closing it leaves the choices. */
  function OpenConvert(f: ConvertForm, isOpen: bool, today: string): (r: ConvertForm)
    ensures isOpen ==> r.selectedDate == today && r.priority == Medium && r.categoryId == ""
    ensures !isOpen ==> r == f
  {
    if isOpen then ConvertForm(today, Medium, "") else f
  }

  /** One of the quick day buttons. */
  datatype DateOption = DateOption(caption: string, value: string)

  /** `dateOptions`: today, tomorrow and a week from today, in that order. */
  function DateOptions(today: string, tomorrow: string, inAWeek: string): (r: seq<DateOption>)
    ensures |r| == 3
    ensures r[0] == DateOption("今日", today) && r[1] == DateOption("明日", tomorrow)
    ensures r[2] == DateOption("1週間後", inAWeek)
  {
    [DateOption("今日", today), DateOption("明日", tomorrow), DateOption("1週間後", inAWeek)]
  }

  /** Clicking a day button, or typing a day, selects it. */
  function PickDate(f: ConvertForm, value: string): (r: ConvertForm)
    ensures r.selectedDate == value && r.priority == f.priority && r.categoryId == f.categoryId
  {
    f.(selectedDate := value)
  }

  /** A day button is highlighted when its day is the one selected. */
  predicate Highlighted(f: ConvertForm, o: DateOption)
  {
    f.selectedDate == o.value
  }

  /** Just after opening, the "today" button is the highlighted one (the
      others too only if their keys are the same day's). */
  lemma OpenHighlightsToday(f: ConvertForm, today: string, tomorrow: string, inAWeek: string)
    ensures var opts := DateOptions(today, tomorrow, inAWeek);
            var g := OpenConvert(f, true, today);
            Highlighted(g, opts[0])
            && (Highlighted(g, opts[1]) <==> tomorrow == today)
            && (Highlighted(g, opts[2]) <==> inAWeek == today)
  {
  }

  /** The priority menu: one entry per key of `PRIORITY_CONFIG`, with its
      caption. */
  function PriorityChoices(): (r: seq<(Priority, PriorityStyle)>)
    ensures |r| == |AllPriorities|
    ensures forall i :: 0 <= i < |r| ==> r[i] == (AllPriorities[i], PriorityConfig(AllPriorities[i]))
  {
    Map(AllPriorities, (p: Priority) => (p, PriorityConfig(p)))
  }

  /** Every priority can be chosen, from exactly one entry. */
  lemma {:induction false} EveryPriorityOnce(p: Priority)
    ensures exists i :: 0 <= i < |PriorityChoices()| && PriorityChoices()[i].0 == p
    ensures forall i, j :: 0 <= i < j < |PriorityChoices()| ==> PriorityChoices()[i].0 != PriorityChoices()[j].0
  {
    PriorityConfigComplete();
    var k := if p.High? then 0 else if p.Medium? then 1 else 2;
    assert PriorityChoices()[k].0 == p;
  }

  /** Choosing from the menu. */
  function PickPriority(f: ConvertForm, p: Priority): (r: ConvertForm)
    ensures r.priority == p && r.selectedDate == f.selectedDate && r.categoryId == f.categoryId
  {
    f.(priority := p)
  }

  /** The call `onConvert({ itemId, date, priority, categoryId })`. */
  datatype ConvertCall = ConvertCall(itemId: string, date: string, priority: Priority, categoryId: Option<string>)

  datatype ConvertSubmitted = ConvertSubmitted(call: Option<ConvertCall>, closed: bool)

  /** `handleSubmit`: without an entry nothing happens; otherwise
      `onConvert` gets the entry's id and the choices (no category as null),
      then the dialog closes. */
  function SubmitConvert(item: Option<WishItem>, f: ConvertForm): (r: ConvertSubmitted)
    ensures r.call.Some? <==> item.Some?
    ensures r.closed <==> item.Some?
    ensures r.call.Some? ==> r.call.value.itemId == item.value.id && r.call.value.date == f.selectedDate
                             && r.call.value.priority == f.priority
    ensures r.call.Some? ==> (r.call.value.categoryId.None? <==> f.categoryId == "")
    ensures r.call.Some? && f.categoryId != "" ==> r.call.value.categoryId == Some(f.categoryId)
  {
    match item
    case None => ConvertSubmitted(None, false)
    case Some(it) =>
      ConvertSubmitted(Some(ConvertCall(it.id, f.selectedDate, f.priority, OrNull(Some(f.categoryId)))), true)
  }

  /** `x || undefined` for a field of `CreateTaskInput`: a missing value
      and the empty string leave the field out; anything else is sent. */
  function OrAbsent(o: Option<string>): (r: Option<Option<string>>)
    ensures r.None? <==> OrNull(o).None?
    ensures r.Some? ==> r.value == o && o.value != ""
  {
    if OrNull(o).None? then None else Some(o)
  }

  /** The wishlist page's `handleConvertToTask`, which is the dialog's
      `onConvert` (app/(main)/wishlist/page.tsx:247): it looks up the first
      entry with the id again and asks the task hook's `createTask` for a
      task with the entry's title, the chosen day, priority and category,
      and the reason as the memo when there is one; an unknown id asks
      nothing. The wishlist hook's `convertToTask` is not on this path. */
  function HandleConvertToTask(items: seq<WishItem>, call: ConvertCall): (r: Option<CreateTaskInput>)
    ensures r.None? <==> forall i :: 0 <= i < |items| ==> items[i].id != call.itemId
    ensures r.Some? ==> 0 <= IndexOf(items, WishItemId, call.itemId)
                        && var item := items[IndexOf(items, WishItemId, call.itemId)];
                           r.value.title == item.title && r.value.taskDate == call.date
                           && r.value.priority == Some(call.priority) && r.value.categoryId == Some(call.categoryId)
                           && r.value.routineId.None? && r.value.memo == OrAbsent(item.reason)
  {
    match Find(items, WishItemId, call.itemId)
    case None => None
    case Some(item) =>
      Some(CreateTaskInput(item.title, OrAbsent(item.reason), Some(call.priority), Some(call.categoryId), call.date, None))
  }

  /** The page's path and the wishlist hook's `convertToTask` describe the
      same task — title, day, priority and, for a call the dialog makes,
      category — except for the memo: the hook copies the reason as it is,
      null or "" included, while the page leaves the memo out for those. */
  lemma PageConvertMatchesHookExceptMemo(items: seq<WishItem>, item: Option<WishItem>, f: ConvertForm, uid: string)
    requires SubmitConvert(item, f).call.Some?
    ensures var call := SubmitConvert(item, f).call.value;
            var page := HandleConvertToTask(items, call);
            var hook := ConvertRequest(items, call.itemId, call.date, call.priority, call.categoryId, Some(uid));
            (page.Some? <==> hook.Some?)
            && (page.Some? ==>
                  page.value.title == hook.value.title && page.value.taskDate == hook.value.taskDate
                  && page.value.priority == Some(hook.value.priority)
                  && page.value.categoryId == Some(hook.value.categoryId)
                  && (page.value.memo.Some? ==> page.value.memo.value == hook.value.memo)
                  && (page.value.memo.None? <==> hook.value.memo.None? || hook.value.memo == Some("")))
  {
  }

  /** Opening the dialog and submitting at once has the page ask the task
      hook to insert, for the signed-in user at position 0, a task today of
      medium priority with no category, the entry's title, and its reason
      as the memo when it has one. */
  lemma QuickConvert(items: seq<WishItem>, k: nat, f: ConvertForm, today: string, uid: string,
                     tasks: seq<Task>, reply: Reply<Task>)
    requires k < |items| && UniqueIds(items, WishItemId)
    ensures var call := SubmitConvert(Some(items[k]), OpenConvert(f, true, today)).call.value;
            var input := HandleConvertToTask(items, call);
            input == Some(CreateTaskInput(items[k].title, OrAbsent(items[k].reason), Some(Medium), Some(None), today, None))
            && Tasks.CreateTask(tasks, input.value, Some(uid), reply).request == Some(Tasks.TaskInsert(input.value, uid, 0))
  {
    IndexOfUnique(items, WishItemId, k);
  }
}
