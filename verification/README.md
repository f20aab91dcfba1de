# Task and wishlist list logic, in Dafny

A model of the list logic behind a small to-do and wishlist web application.
The application keeps a day's tasks, recurring routines, task categories and
several wishlists (one of them the default list) in a hosted database and
shows them through React components. The model covers the part of it that
is plain logic over sequences and records:

- the orderings the hooks and components apply (`sortTasksByPriority`,
  `sortWishItems`, the tab order, the open/completed split), all modelled as
  stable sorts by a three-part lexicographic key (`Sorting`), since
  `Array.prototype.sort` is stable and every comparator used is the order of
  such a key (for the task order, as long as no stored priority is the name
  of an `Object.prototype` property: see "Left out");
- the list state each hook operation leaves behind (fetch, create, update,
  delete, toggle, reorder), with the backend's answer as a `Reply` parameter
  and the signed-in user as an `Option`;
- the "maximum position plus one" rule for new rows, and the reorder loop
  that writes position `i` to row `i` until the first rejected write;
- the drag-and-drop decisions of the task list, the wishlist tabs (default
  list pinned first), the wishlist entries and the week board;
- the wishlist search (case-insensitive substring match, untrimmed query);
- the forms' validation and trimming, the list dialogs, the convert-to-task
  dialog, and the routines page's formatting of weekdays and times.

Modules follow the source files: `Types` (types/index.ts), `Tasks`,
`WishItems`, `WishLists`, `Categories`, `Routines` (the five hooks),
`RoutinesPage` (components/routines/RoutineDialog.tsx, which holds the
routines page), `TaskList`, `WeekView`, `WishListTabs`, `WishListContent`,
`WishItemForm`, `ListModals` (CreateListModal.tsx and EditListModal.tsx) and
`ConvertToTaskModal`. `Common` holds the Array and String built-ins the code
relies on (`filter`, `find`, `findIndex`, `trim`, `toLowerCase`,
`includes`), the `arrayMove` of the drag-and-drop library, and the shared
reorder loop. `Sorting` holds the stable sort and its theory: stability,
idempotence, and that a sort depends only on the order inside each tie class.

Where the code and the surrounding documentation differ, the model follows
the code. The search query is not trimmed before matching (only the blank
test trims it). The routines fetch keeps the old list on an error instead
of clearing it. A failed categories fetch keeps the categories shown, while
a failed wishlist fetch empties the lists.

## Model

| member | source | states |
|---|---|---|
| Types.ParsePriority | types/index.ts:2 | reading a stored priority string gives a priority exactly when the string is the name of one, and that priority's name is the string |
| Types.PriorityNameRoundTrip | types/index.ts:2 | every priority reads back from its stored name |
| Types.PriorityConfig | types/index.ts:4-8 | each priority's label is a single character |
| Types.PriorityConfigComplete | types/index.ts:4-8 | the configuration has exactly the three priorities, each once, and no two share a label or a colour |
| Tasks.PriorityRank | lib/hooks/useTasks.ts:8-12 | the three known priorities rank from 1 to 3; any other stored string ranks 999 (names of `Object.prototype` properties excepted, see "Left out") |
| Tasks.PriorityRankOrder | lib/hooks/useTasks.ts:26-29 | high ranks before medium before low, and all three before any unknown priority |
| Tasks.SortTasksByPriority | lib/hooks/useTasks.ts:18-34 | the result is a permutation of the input with open tasks before completed ones, then ascending rank, then ascending creation time |
| Tasks.SortTasksStable | lib/hooks/useTasks.ts:18-34 | tasks that tie on completion, rank and creation time keep their input order |
| Tasks.SortTasksIdempotent | lib/hooks/useTasks.ts:18-34 | sorting the sorted list again changes nothing |
| Tasks.FetchTasks | lib/hooks/useTasks.ts:42-66 | a failed fetch keeps the list; otherwise the list is the day's rows, as a permutation in priority order |
| Tasks.CreateTask | lib/hooks/useTasks.ts:68-93 | without a user nothing is sent; the insert carries the input, the user and position 0; on success the list gains exactly the stored row, is in priority order, and the row is returned; on failure it stays and nothing is returned (the error reaches the caller) |
| Tasks.ApplyUpdateIdempotent | lib/hooks/useTasks.ts:95-103 | applying the same partial patch twice stores what applying it once stores |
| Tasks.EmptyPatchOnlyTouchesTimestamp | types/index.ts:58-66 | a patch with no fields changes only the update time |
| Tasks.UpdateTask | lib/hooks/useTasks.ts:95-114 | on success the list holds the rows with that id replaced by the returned row, in priority order; on failure it is unchanged |
| Tasks.UpdateUnknownIdKeepsTasks | lib/hooks/useTasks.ts:108 | updating an id the list does not hold keeps the same tasks |
| Tasks.DeleteTask | lib/hooks/useTasks.ts:116-130 | on success no task with that id is left, every other task keeps its count, and the order is kept; on failure the list is unchanged |
| Tasks.ToggleRequest | lib/hooks/useTasks.ts:132-137 | an id the list does not hold sends nothing; otherwise the patch is the negated completion of the first task with that id, and nothing else |
| Tasks.ToggleComplete | lib/hooks/useTasks.ts:132-137 | an unknown id or a failed write leaves the list unchanged; otherwise, as through `updateTask`, the returned row replaces the tasks with that id and the list is in priority order |
| Tasks.ToggleFlipsOnlyThatTask | lib/hooks/useTasks.ts:132-137 | when the backend returns the task with the sent patch applied, a toggle of a task with a unique id gives the same tasks with only that task's completion flipped (and its update time set), in priority order |
| Tasks.ToggleTwiceRestores | lib/hooks/useTasks.ts:136 | toggling twice restores the task apart from its update time |
| Tasks.ReorderTasks | lib/hooks/useTasks.ts:139-143 | the list after a reorder is the dragged tasks, as a permutation in priority order |
| Tasks.ReorderOnlyKeepsTieOrder | lib/hooks/useTasks.ts:139-143 | two dragged orders that agree inside every full tie give the same list |
| Tasks.ReorderUndoesCrossKeyDrag | lib/hooks/useTasks.ts:139-143 | a drag that keeps every full tie in its sorted order gives back the sorted list unchanged |
| TaskList.HandleDragEnd | components/tasks/TaskList.tsx:49-58 | no target or a drop onto itself does nothing; with both ids present the new order is exactly `arrayMove` of the tasks from the dragged task's index to the target's (a permutation with the dragged task at the target's index); an id not found is left to the library |
| TaskList.DragBackRestores | components/tasks/TaskList.tsx:52-56 | with unique ids, dragging the task back onto what took its place restores the list |
| TaskList.LoneKeyDragSnapsBack | components/tasks/TaskList.tsx:55-56 | a dragged task that ties with no other task snaps back to the sorted order once the hook re-sorts |
| WishItems.SortWishItems | lib/hooks/useWishItems.ts:8-15 | the result is a permutation with open entries before completed ones, each part by ascending position |
| WishItems.SortWishItemsStable | lib/hooks/useWishItems.ts:8-15 | entries tying on completion and position keep their input order |
| WishItems.SortWishItemsIdempotent | lib/hooks/useWishItems.ts:8-15 | sorting the sorted entries again changes nothing |
| WishItems.FetchWishItems | lib/hooks/useWishItems.ts:22-43 | no list selected, or an error, gives no entries; otherwise the list's rows, as a sorted permutation |
| WishItems.CreateWishItem | lib/hooks/useWishItems.ts:49-77 | without a user nothing is sent; the insert is an open entry whose position is above every existing one (0 for an empty list, else one more than the largest), with an empty reason sent as null; on success the entries gain exactly the stored row and stay sorted |
| WishItems.CreatedItemFollowsOpenItems | lib/hooks/useWishItems.ts:53-55 | a new entry stored as requested comes after every open entry already in the list |
| WishItems.UpdateWishItem | lib/hooks/useWishItems.ts:79-97 | on success the entries with that id are replaced by the returned row and the entries stay sorted; on failure nothing changes |
| WishItems.DeleteWishItem | lib/hooks/useWishItems.ts:99-112 | returns whether the delete succeeded; on success no entry with that id is left and the others keep their counts and order |
| WishItems.ToggleRequest | lib/hooks/useWishItems.ts:114-123 | an unknown id sends nothing; otherwise the patch sets the first matching entry's completion to its negation, at the time of the write |
| WishItems.ToggleWishItem | lib/hooks/useWishItems.ts:114-135 | returns true exactly for a known id and a successful write; then the returned row replaces the entries with that id and the entries are sorted; otherwise nothing changes |
| WishItems.ToggleFlipsOnlyThatEntry | lib/hooks/useWishItems.ts:114-135 | when the backend returns the entry with the sent patch applied, toggling an entry with a unique id returns true and gives the same entries with only that one's completion flipped (and its update time set), sorted |
| WishItems.ToggleTwiceRestores | lib/hooks/useWishItems.ts:120-123 | toggling an entry twice restores it apart from its update time |
| WishItems.ReorderWishItems | lib/hooks/useWishItems.ts:137-159 | the entries shown are the dragged order; entry `i` is written with position `i`, in order, up to the first rejected write; true exactly when all were written |
| WishItems.ReorderSurvivesRefetch | lib/hooks/useWishItems.ts:140-143 | a complete reorder that keeps open entries first is what sorting the stored positions gives back |
| WishItems.ConvertRequest | lib/hooks/useWishItems.ts:162-186 | without a user or for an unknown entry nothing is sent; otherwise an open task at position 0 with the title of the first entry with that id, its reason as memo, the chosen day and priority, and an empty category as null |
| WishItems.ConvertToTask | lib/hooks/useWishItems.ts:162-194 | returns true exactly when the insert was sent and succeeded; the entries are left as they are |
| WishItems.ConvertedMemoIsCreatedReason | lib/hooks/useWishItems.ts:63 | an entry created through the hook and converted gives a task whose memo is the typed reason, never the empty string |
| WishLists.FetchWishLists | lib/hooks/useWishLists.ts:12-26 | an error gives no lists; otherwise the rows as returned |
| WishLists.CreateWishList | lib/hooks/useWishLists.ts:32-58 | without a user nothing is sent; the insert is a non-default list at one more than the highest existing position (0 when none); on success the row is appended and the rest kept |
| WishLists.CreateKeepsOrderAndDefaults | lib/hooks/useWishLists.ts:36-56 | when the row is stored as requested, the lists stay in position order and the number of default lists is unchanged |
| WishLists.UpdateWishList | lib/hooks/useWishLists.ts:60-78 | on success exactly the lists with that id become the returned row; nothing moves |
| WishLists.DeleteWishList | lib/hooks/useWishLists.ts:80-100 | the delete is sent unless the first list with that id is the default one; on success no list with that id is left, the others keep their counts and their order |
| WishLists.DeleteKeepsDefaultLists | lib/hooks/useWishLists.ts:82-86 | with unique ids no delete removes a default list |
| WishLists.ReorderWishLists | lib/hooks/useWishLists.ts:102-124 | the lists shown are the dragged order; list `i` is written with position `i` up to the first rejected write; true exactly when all were written |
| WishLists.ReorderedPositionsAreSorted | lib/hooks/useWishLists.ts:105-108 | after a complete reorder, the stored positions list the lists in the dragged order |
| Categories.FetchCategories | lib/hooks/useCategories.ts:12-26 | an error keeps the categories shown; otherwise the rows as returned |
| Categories.AddCategory | lib/hooks/useCategories.ts:32-58 | without a user nothing is sent; the insert is a non-default category at one more than the highest existing position (0 when none); on success the row is appended |
| Categories.AddKeepsPositionOrder | lib/hooks/useCategories.ts:36-56 | when the row is stored as requested, the categories stay in position order |
| Categories.ApplyCategoryPatch | lib/hooks/useCategories.ts:63 | the patch sets the name and the update time and keeps every other field |
| Categories.UpdateCategory | lib/hooks/useCategories.ts:60-75 | on success exactly the categories with that id become the returned row; nothing moves |
| Categories.RenameChangesOnlyThatCategory | lib/hooks/useCategories.ts:60-75 | renaming a category with a unique id changes its name and no other category |
| Categories.DeleteCategory | lib/hooks/useCategories.ts:77-90 | on success no category with that id is left, the others keep counts and order; on failure nothing changes |
| Routines.StoredTime | lib/hooks/useRoutines.ts:51 | a time is stored exactly when the routine has one and the field is non-empty, as the typed value followed by ":00" |
| Routines.FieldsOf | lib/hooks/useRoutines.ts:47-51 | the written fields are the title, the memo and category with an empty value as null, the time flag and the stored time |
| Routines.FieldsIgnorePriorityAndDays | lib/hooks/useRoutines.ts:45-53 | the priority and weekdays chosen in the form are not written |
| Routines.ApplyFields | lib/hooks/useRoutines.ts:70-77 | the stored row takes the written fields and the update time and keeps its priority, weekdays, activity and identity |
| Routines.ApplyFormIdempotent | lib/hooks/useRoutines.ts:67-90 | saving the same form twice stores what saving it once stores |
| Routines.FetchRoutines | lib/hooks/useRoutines.ts:12-33 | without a user or on an error the routines shown stay; otherwise the rows as returned |
| Routines.AddRoutine | lib/hooks/useRoutines.ts:39-65 | without a user nothing is sent; the insert is an active routine with the form's written fields; on success the row goes in front of the rest |
| Routines.UpdateRoutine | lib/hooks/useRoutines.ts:67-90 | the patch is the form's written fields and the time; on success exactly the routines with that id become the returned row |
| Routines.ToggleRoutineActive | lib/hooks/useRoutines.ts:92-111 | the patch sets the activity asked for; on success exactly the routines with that id become the returned row |
| Routines.ApplyActive | lib/hooks/useRoutines.ts:95-98 | the stored row takes the activity and update time and keeps everything else |
| Routines.ToggleActiveSetsOnlyThatRoutine | lib/hooks/useRoutines.ts:92-107 | with a unique id, only that routine changes, and only in activity and update time |
| Routines.DeleteRoutine | lib/hooks/useRoutines.ts:113-124 | returns whether the delete succeeded; on success no routine with that id is left and the others keep counts and order |
| RoutinesPage.DayName | components/routines/RoutineDialog.tsx:13 | days 0 to 6 name Sunday to Saturday; any other index joins as nothing |
| RoutinesPage.FormatDaysOfWeek | components/routines/RoutineDialog.tsx:64-71 | "毎日" for missing, empty or seven days; otherwise the names of the days in ascending order, joined by ", " |
| RoutinesPage.FormatDaysOrderIndependent | components/routines/RoutineDialog.tsx:67-70 | the text does not depend on the order the days are stored in |
| RoutinesPage.FormatOneDay | components/routines/RoutineDialog.tsx:67-70 | a single valid day prints as its own name |
| RoutinesPage.FormatTwoDays | components/routines/RoutineDialog.tsx:67-70 | two days stored in reverse print in week order |
| RoutinesPage.FormatTime | components/routines/RoutineDialog.tsx:73-76 | nothing for a missing or empty time; otherwise a prefix of the time of at most five characters |
| RoutinesPage.FormatStoredTime | components/routines/RoutineDialog.tsx:75 | a five-character time typed into the form reads back unchanged once stored; a routine without a time reads back as nothing |
| RoutinesPage.HandleCreate | components/routines/RoutineDialog.tsx:34-37 | the dialog opens with nothing being edited |
| RoutinesPage.HandleEdit | components/routines/RoutineDialog.tsx:39-42 | the dialog opens on the routine given |
| RoutinesPage.HandleSubmit | components/routines/RoutineDialog.tsx:44-52 | the routine being edited is updated, otherwise one is added, with the form as given; the dialog then closes with nothing being edited |
| RoutinesPage.SubmitFollowsDialogMode | components/routines/RoutineDialog.tsx:34-52 | editing then submitting updates that routine; creating then submitting adds one |
| RoutinesPage.HandleToggleActive | components/routines/RoutineDialog.tsx:54-56 | the hook is asked for that routine with the opposite activity |
| RoutinesPage.ToggleActiveTwiceRestores | components/routines/RoutineDialog.tsx:54-56 | switching a routine twice, with the backend applying each patch, restores its activity |
| WishListTabs.SortedLists | components/wishlist/WishListTabs.tsx:193-198 | the tabs are a permutation of the lists with default lists first and the other lists by ascending position |
| WishListTabs.DefaultTabFirst | components/wishlist/WishListTabs.tsx:195 | whenever there is a default list, the first tab is a default list |
| WishListTabs.HandleDragEnd | components/wishlist/WishListTabs.tsx:163-184 | no target or a drop onto itself does nothing; with a default list the order handed on is the first default list followed by `arrayMove` of the other lists, from the dragged list's index to the target's among them; without one it is `arrayMove` of the lists in the order given; an id not found is left to the library |
| WishListTabs.DragKeepsDefaultPinned | components/wishlist/WishListTabs.tsx:170-179 | with exactly one default list, a drag gives a permutation of the lists with the default list first and no default list after it |
| WishListTabs.TabsShowPersistedOrder | components/wishlist/WishListTabs.tsx:194-198 | once a reorder with the default list first has been written, the tabs show exactly the dragged order |
| WishListContent.FilteredItems | components/wishlist/WishListContent.tsx:59-67 | a blank query shows every entry; otherwise exactly the matching entries, each as often as it occurs, in their order |
| WishListContent.MatchesIffOccurs | components/wishlist/WishListContent.tsx:61-66 | an entry matches exactly when the lower-cased query occurs in its lower-cased title or in its non-empty reason |
| WishListContent.SearchIgnoresCase | components/wishlist/WishListContent.tsx:61-64 | the case of the query and of a title does not change the result |
| WishListContent.PaddedQueryIsNotTrimmed | components/wishlist/WishListContent.tsx:60-61 | a query with a leading space is not blank and no longer finds an entry whose title is the rest |
| WishListContent.Partition | components/wishlist/WishListContent.tsx:69-77 | the open section holds exactly the shown open entries, the completed section exactly the completed ones, each by ascending position |
| WishListContent.Shown | components/wishlist/WishListContent.tsx:83 | the entries on screen are a permutation of the entries that pass the search |
| WishListContent.PartitionMatchesHookOrder | components/wishlist/WishListContent.tsx:70-77 | the two sections together are the order the entries hook sorts them in |
| WishListContent.HandleDragEnd | components/wishlist/WishListContent.tsx:79-92 | a reorder happens exactly when the target is another entry and both are on screen; the new order is the entries on screen with the dragged one moved to the target's place, and a permutation of the matching entries |
| WishListContent.DragWithinSectionKeepsSections | components/wishlist/WishListContent.tsx:83-89 | a drag inside one section keeps open entries before completed ones, so a complete reorder survives a re-fetch |
| WishListContent.SearchDragShowsOnlyMatches | components/wishlist/WishListContent.tsx:83-89 | under a search, a drag hands the hook only entries that match the query |
| WeekView.Holder | components/tasks/WeekView.tsx:240-246 | the first date entry that lists the task, or -1 when none does |
| WeekView.HandleDragStart | components/tasks/WeekView.tsx:218-227 | when some date lists the task, the overlay shows a task with that id from the board; otherwise it keeps what it showed |
| WeekView.CurrentDate | components/tasks/WeekView.tsx:240-246 | "" when no date lists the task, otherwise the date of an entry that lists it |
| WeekView.HandleDragEnd | components/tasks/WeekView.tsx:229-252 | the overlay is cleared; a move is asked for exactly when the drop is on a displayed date other than the task's current date, and then for that task and date |
| WeekView.DragStartAndEndAgree | components/tasks/WeekView.tsx:218-246 | the task shown while dragging and the date a drop is measured from come from the same date entry |
| WeekView.MovesIffOtherColumn | components/tasks/WeekView.tsx:237-250 | a task listed under one date moves exactly when dropped on another displayed date |
| WeekView.ColumnTasks | components/tasks/WeekView.tsx:268 | a column shows the tasks of its date, or none when the date has no entry |
| WeekView.Columns | components/tasks/WeekView.tsx:262-268 | one column per displayed date, in order, each with its date's tasks (the count shown is their number) |
| WeekView.MovedTaskComesFromItsColumn | components/tasks/WeekView.tsx:240-268 | with one entry per date, the column a drag is measured from lists the dragged task |
| WishItemForm.Validate | components/wishlist/WishItemForm.tsx:47-60 | a blank title is an error, and a blank reason is one exactly in the default wishlist, each with its message |
| WishItemForm.OpenDialog | components/wishlist/WishItemForm.tsx:36-45 | the dialog loads the entry's title and reason (a missing reason as empty), or empty fields, with no messages |
| WishItemForm.SubmitDialog | components/wishlist/WishItemForm.tsx:62-69 | the dialog hands on the trimmed fields exactly when the check passes, then clears them; otherwise it shows the messages and keeps the fields |
| WishItemForm.SubmissionIsClean | components/wishlist/WishItemForm.tsx:62-65 | what is handed on has a title, a reason in the default wishlist, and no surrounding white space |
| WishItemForm.ResubmitIsStable | components/wishlist/WishItemForm.tsx:62-65 | submitting what was handed on passes the check again and hands on the same |
| WishItemForm.ExpandInline | components/wishlist/WishItemForm.tsx:178 | the button expands the inline form and changes nothing else |
| WishItemForm.SubmitInline | components/wishlist/WishItemForm.tsx:142-166 | the inline form hands on the trimmed fields exactly when the check passes, then collapses with empty fields and no messages; otherwise it shows the messages |
| WishItemForm.CancelInline | components/wishlist/WishItemForm.tsx:168-173 | cancelling collapses the form with empty fields and no messages |
| WishItemForm.FormsAgree | components/wishlist/WishItemForm.tsx:47-60 | the dialog and the inline form accept the same input and hand on the same; they differ only in the reason message |
| WishItemForm.BlankTitleRefused | components/wishlist/WishItemForm.tsx:50-52 | a title of white space only is refused with the title message |
| ListModals.OpenCreate | components/wishlist/CreateListModal.tsx:28-33 | opening the create dialog clears the name and the message |
| ListModals.TypeCreate | components/wishlist/CreateListModal.tsx:61-63 | typing in the create dialog sets the name and clears the message |
| ListModals.SubmitCreate | components/wishlist/CreateListModal.tsx:35-45 | a blank name shows the message and keeps the dialog open; otherwise the trimmed name is handed on and the dialog closes |
| ListModals.CreatedNameReachesHook | components/wishlist/CreateListModal.tsx:43 | the name handed on becomes a non-blank, trimmed, non-default list title in the hook's insert |
| ListModals.SyncEdit | components/wishlist/EditListModal.tsx:26-31 | a list being given loads its name and clears the message; no list leaves the dialog as it is |
| ListModals.TypeEdit | components/wishlist/EditListModal.tsx:55-57 | typing in the rename dialog changes the name and keeps a message already shown |
| ListModals.SubmitEdit | components/wishlist/EditListModal.tsx:33-42 | a blank name shows the message; otherwise, with a list, its id and the trimmed name are handed on; the dialog does not close itself |
| ListModals.UntouchedRenameIsStable | components/wishlist/EditListModal.tsx:26-41 | loading a list and submitting renames it to its trimmed name, and submitting that again asks for the same rename |
| ListModals.TypingAfterRefusal | components/wishlist/CreateListModal.tsx:61-63 | after a refused name, typing clears the message in the create dialog but not in the rename dialog |
| ConvertToTaskModal.OpenConvert | components/wishlist/ConvertToTaskModal.tsx:50-56 | opening selects today, medium priority and no category; closing keeps the choices |
| ConvertToTaskModal.DateOptions | components/wishlist/ConvertToTaskModal.tsx:71-75 | the quick day buttons are today, tomorrow and a week from today, in that order, with their captions |
| ConvertToTaskModal.PickDate | components/wishlist/ConvertToTaskModal.tsx:102-114 | choosing a day selects it and keeps the other choices |
| ConvertToTaskModal.OpenHighlightsToday | components/wishlist/ConvertToTaskModal.tsx:100 | just after opening the "today" button is highlighted, and another only if its day is today's |
| ConvertToTaskModal.PriorityChoices | components/wishlist/ConvertToTaskModal.tsx:130-140 | the priority menu has one entry per configured priority, with its label and colour |
| ConvertToTaskModal.EveryPriorityOnce | components/wishlist/ConvertToTaskModal.tsx:130 | every priority can be chosen from exactly one menu entry |
| ConvertToTaskModal.PickPriority | components/wishlist/ConvertToTaskModal.tsx:125 | choosing a priority keeps the other choices |
| ConvertToTaskModal.SubmitConvert | components/wishlist/ConvertToTaskModal.tsx:58-68 | without an entry nothing happens; otherwise the call carries the entry's id, the day and the priority, no category as null, and the dialog closes |
| ConvertToTaskModal.OrAbsent | components/wishlist/ConvertToTaskModal.tsx:61-66 | the memo rule of the page handler that receives this call (`item.reason \|\| undefined`, line 145 of the wishlist page): a missing or empty value leaves the field out, anything else is sent as is |
| ConvertToTaskModal.HandleConvertToTask | components/wishlist/ConvertToTaskModal.tsx:61-67 | what the wishlist page does with the call it gets here (its `handleConvertToTask`, lines 131-149 of that page): an unknown id asks nothing; otherwise the task hook's create gets the first matching entry's title, the chosen day, priority and category, and the reason as memo only when it is non-empty |
| ConvertToTaskModal.PageConvertMatchesHookExceptMemo | lib/hooks/useWishItems.ts:162-186 | for a call the dialog makes, the wishlist page's request and this hook insert agree on whether anything is sent, title, day, priority and category; the memos agree for a non-empty reason, and the page leaves it out exactly when the hook would write null or "" |
| ConvertToTaskModal.QuickConvert | components/wishlist/ConvertToTaskModal.tsx:50-68 | opening and submitting at once has the page ask the task hook's create for a task today, of medium priority, with no category, the entry's title and its reason as memo when it has one, inserted for the user at position 0 |
| Common.OrNull | lib/hooks/useRoutines.ts:48-49 | a missing or empty string becomes null; any other string is kept |
| Common.NextSortOrder | lib/hooks/useWishItems.ts:53-55 | the new position is above every existing one, 0 when there are none, and otherwise one more than an existing position |
| Common.WritePositions | lib/hooks/useWishItems.ts:140-156 | row `i` is written with position `i`, in order, stopping at the first rejected write; complete exactly when every row was written |
| Common.MoveById | components/tasks/TaskList.tsx:52-55 | no target or a drop onto itself does nothing; an id not found leaves the outcome to the library; otherwise the order is a permutation with the dragged record at the target's index and the others in their order |
| Common.MoveByIdUndo | components/tasks/TaskList.tsx:52-55 | with unique ids, a second drag back onto the displaced record restores the original order |
| Common.BlankIffAllWhiteSpace | components/wishlist/WishItemForm.tsx:50 | a string is blank after trimming exactly when every character is white space |
| Common.TrimIdempotent | components/wishlist/WishItemForm.tsx:65 | trimming twice is trimming once |
| Common.ContainsIffOccurs | components/wishlist/WishListContent.tsx:64-65 | the substring test holds exactly when the needle occurs at some position |
| Sorting.SortByStable | lib/hooks/useTasks.ts:19 | the sort keeps every tie class in its input order |
| Sorting.SortByPermutationInvariant | components/routines/RoutineDialog.tsx:68 | by a key that tells every two different values apart, two permutations of each other sort to the same sequence |

## Left out

- Database access, sign-in and network errors: every backend call that returns rows is a `Reply` parameter (the returned row or rows, or a failure), a call that returns no row (a delete, a position write, the convert insert) is a success flag or a rejection predicate, the signed-in user is an `Option`, and the error and loading flags the hooks keep are not modelled.
- Tasks.UpdateTask, Tasks.DeleteTask: `updateTask` returns the stored row and both rethrow the backend's error to their caller; the model returns only the list, since what the caller receives is exactly the `Reply` (or success flag) passed in. Tasks.CreateTask does model its returned row.
- Tasks.PriorityRank: `priorityOrder` is a plain object, so a stored priority that names an `Object.prototype` property (`"toString"`, `"constructor"`, `"__proto__"` and the like) looks up an inherited value that `?? 999` does not replace; the comparator then yields NaN, which `sort` reads as a tie, and the `created_at` tie-break is skipped. The model ranks every string other than the three priorities 999; the stored priority is typed as one of the three.
- The server-side `.order(...)` of each fetch: the rows arrive in the order given.
- `created_at` and `updated_at` are integers; parsing ISO timestamps and reading the clock are left out, and the time of an update is a parameter.
- Dates are their 'yyyy-MM-dd' keys: turning a `Date` into its key, the calendar arithmetic behind "tomorrow" and "in a week", and the week's dates are parameters.
- React state, effects, memoisation and stale closures are left out. In particular `createWishItem`, `createWishList` and `addCategory` compute the new position from the list the component last rendered; the model uses the same list as the state they append to.
- `arrayMove` comes from the drag-and-drop library and is modelled for indices inside the array only; a handler that passes index -1 is reported as `LibraryDefined`.
- Sensors, collision detection, drag overlays and CSS transforms of the drag-and-drop library are left out; the library is taken to report the dragged and target ids.
- `toLowerCase` is modelled on the ASCII letters only; other case mappings of Unicode are left out.
- `formatDaysOfWeek` sorts the routine's stored array in place; the model returns the text and does not model the mutation.
- WishListTabs.SortedLists: the source comparator is not a consistent order when two lists are both default (it answers -1 both ways). The model sorts by the key "default first, then position", which is what the comparator means whenever at most one list is default.
- Tasks.ToggleFlipsOnlyThatTask: stated for a task whose id is unique in the list; with duplicate ids every copy is replaced by the one returned row.
- WishListTabs.DragKeepsDefaultPinned: stated for exactly one default list; with several, only the first found is kept and the others are dropped from the order handed on.
- WeekView.HandleDragStart: states that the overlay shows a task with the dragged id taken from the board; that it is the one in the first listing entry is stated by WeekView.DragStartAndEndAgree.
- ListModals.CreatedNameReachesHook, ConvertToTaskModal.QuickConvert: these compose a dialog with a hook through the wishlist page and assume its evident wiring. As written, app/(main)/wishlist/page.tsx destructures names the hooks do not return (`lists`, `createList`, … from the wishlists hook, which returns `wishLists`, `createWishList`, …; `items`, `createItem`, … from the wish items hook, which returns `wishItems`, `createWishItem`, …), and it passes `onSubmit` to the create dialog, whose prop is `onCreate`. Taken literally, the create dialog would call an undefined `onCreate` and the page's handlers would call undefined functions.
- WishItems.ConvertToTask: the hook's `convertToTask` is modelled, but nothing in the source calls it; the convert dialog's host goes through the task hook's `createTask` instead (ConvertToTaskModal.HandleConvertToTask). Its `is_completed` is left to the database default, and the task list on the page is the tasks hook's state, which the page never fetches.
- The category list the convert dialog fetches, the search box component and the entry card component are presentation only.
- The week, search, settings and login pages, the wishlist page apart from its convert handler, and lib/utils.ts are not part of this model.
- Generating tasks from routines and carrying over unfinished tasks do not appear in the source and are not modelled.
