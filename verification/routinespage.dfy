/** The routines page (components/routines/RoutineDialog.tsx): how a
    routine's weekdays and time are shown, and how the page drives the
    routines hook when the dialog is submitted or a routine is switched on
    or off. */
module RoutinesPage {
  import opened Common
  import opened Sorting
  import opened Types
  import opened Routines

  /** `DAYS_OF_WEEK`: Sunday first. */
  const DaysOfWeek: seq<string> := ["日", "月", "火", "水", "木", "金", "土"]

  /** What `.join` prints for `DAYS_OF_WEEK[d]`: the day's name, or nothing
      for an index outside the table (`undefined` joins as ""). */
  function DayName(d: int): (r: string)
    ensures 0 <= d < 7 ==> r == DaysOfWeek[d]
    ensures !(0 <= d < 7) ==> r == ""
  {
    if 0 <= d < |DaysOfWeek| then DaysOfWeek[d] else ""
  }

  /** `Array.prototype.join`. */
  function Join(parts: seq<string>, sep: string): string
  {
    if |parts| == 0 then ""
    else if |parts| == 1 then parts[0]
    else parts[0] + sep + Join(parts[1..], sep)
  }

  /** The comparator `(a, b) => a - b` as a key. */
  function DayKey(d: int): Key
  {
    Key(d, 0, 0)
  }

  predicate Ascending(s: seq<int>)
  {
    forall i, j :: 0 <= i < j < |s| ==> s[i] <= s[j]
  }

  function DayNames(days: seq<int>): (r: seq<string>)
    ensures |r| == |days|
    ensures forall i :: 0 <= i < |days| ==> r[i] == DayName(days[i])
  {
    Map(days, DayName)
  }

  /** `formatDaysOfWeek`: "毎日" (every day) when the days are missing,
      empty, or seven in number (duplicates are not looked at); otherwise
      the days' names in ascending order, separated by ", ". */
  function FormatDaysOfWeek(days: Option<seq<int>>): (r: string)
    ensures days.None? || |days.value| == 0 || |days.value| == 7 ==> r == "毎日"
    ensures days.Some? && 0 < |days.value| && |days.value| != 7 ==>
              exists s :: multiset(s) == multiset(days.value) && Ascending(s) && r == Join(DayNames(s), ", ")
  {
    match days
    case None => "毎日"
    case Some(ds) =>
      if |ds| == 0 || |ds| == 7 then "毎日"
      else
        var s := SortBy(ds, DayKey);
        assert Ascending(s) by {
          forall i, j | 0 <= i < j < |s| ensures s[i] <= s[j] {
            assert KeyLe(DayKey(s[i]), DayKey(s[j]));
          }
        }
        Join(DayNames(s), ", ")
  }

  /** The text does not depend on the order the days are stored in. */
  lemma FormatDaysOrderIndependent(a: seq<int>, b: seq<int>)
    requires multiset(a) == multiset(b)
    ensures FormatDaysOfWeek(Some(a)) == FormatDaysOfWeek(Some(b))
  {
    assert |a| == |multiset(a)| == |multiset(b)| == |b|;
    SortByPermutationInvariant(a, b, DayKey);
  }

  /** A single valid day prints as its own name. */
  lemma FormatOneDay(d: int)
    requires 0 <= d < 7
    ensures FormatDaysOfWeek(Some([d])) == DaysOfWeek[d]
  {
    var s := SortBy([d], DayKey);
    assert multiset(s) == multiset{d};
    assert |s| == 1 && s[0] in multiset(s);
  }

  /** Two days print in week order whichever order they are stored in. */
  lemma FormatTwoDays(d1: int, d2: int)
    requires 0 <= d1 < d2 < 7
    ensures FormatDaysOfWeek(Some([d2, d1])) == DaysOfWeek[d1] + ", " + DaysOfWeek[d2]
  {
    var s := SortBy([d2, d1], DayKey);
    assert multiset(s) == multiset{d1, d2};
    assert |s| == 2 && s == [s[0], s[1]];
    assert s[0] in multiset(s) && s[1] in multiset(s) && d1 in multiset(s);
    assert KeyLe(DayKey(s[0]), DayKey(s[1]));
    assert s == [d1, d2];
    var names := DayNames(s);
    assert names == [DaysOfWeek[d1], DaysOfWeek[d2]];
    assert names[1..] == [DaysOfWeek[d2]];
    assert Join(names[1..], ", ") == DaysOfWeek[d2];
    assert Join(names, ", ") == DaysOfWeek[d1] + ", " + DaysOfWeek[d2];
    assert FormatDaysOfWeek(Some([d2, d1])) == Join(names, ", ");
  }

  /** `formatTime`: nothing for a missing or empty time, otherwise its
      first five characters. */
  function FormatTime(time: Option<string>): (r: string)
    ensures time.None? || time.value == "" ==> r == ""
    ensures time.Some? ==> IsPrefix(r, time.value) && |r| == if |time.value| < 5 then |time.value| else 5
  {
    match time
    case None => ""
    case Some(t) => if t == "" then "" else if |t| < 5 then t else t[..5]
  }

  /** The stored time reads back as the `'HH:MM'` that was typed, and as
      nothing when the routine has no time. */
  lemma FormatStoredTime(hasTime: bool, time: Option<string>)
    ensures hasTime && time.Some? && |time.value| == 5 ==> FormatTime(StoredTime(hasTime, time)) == time.value
    ensures !hasTime || time.None? || time.value == "" ==> FormatTime(StoredTime(hasTime, time)) == ""
  {
    if hasTime && time.Some? && |time.value| == 5 {
      var t := time.value;
      assert (t + ":00")[..5] == t;
    }
  }

  /** The page's dialog state: whether it is open and the routine being
      edited, if any. */
  datatype PageState = PageState(dialogOpen: bool, editing: Option<Routine>)

  /** The hook call the page makes. */
  datatype RoutineCall = AddCall(form: RoutineFormData) | UpdateCall(id: string, form: RoutineFormData)

  /** `handleCreate`: opens the dialog with nothing being edited. */
  function HandleCreate(s: PageState): (r: PageState)
    ensures r.dialogOpen && r.editing.None?
  {
    PageState(true, None)
  }

  /** `handleEdit`: opens the dialog on `routine`. */
  function HandleEdit(s: PageState, routine: Routine): (r: PageState)
    ensures r.dialogOpen && r.editing == Some(routine)
  {
    PageState(true, Some(routine))
  }

  /** `handleSubmit`: updates the routine being edited, adds a new one
      otherwise; either way the dialog then closes with nothing being
      edited, whatever the hook returned. */
  function HandleSubmit(s: PageState, form: RoutineFormData): (r: (RoutineCall, PageState))
    ensures r.0.form == form
    ensures r.0.UpdateCall? <==> s.editing.Some?
    ensures r.0.UpdateCall? ==> r.0.id == s.editing.value.id
    ensures !r.1.dialogOpen && r.1.editing.None?
  {
    match s.editing
    case Some(routine) => (UpdateCall(routine.id, form), PageState(false, None))
    case None => (AddCall(form), PageState(false, None))
  }

  /** Editing then submitting updates that routine; creating then
      submitting adds one. */
  lemma SubmitFollowsDialogMode(s: PageState, routine: Routine, form: RoutineFormData)
    ensures HandleSubmit(HandleEdit(s, routine), form).0 == UpdateCall(routine.id, form)
    ensures HandleSubmit(HandleCreate(s), form).0 == AddCall(form)
  {
  }

  /** `handleToggleActive`: asks the hook to set the opposite activity. */
  function HandleToggleActive(routine: Routine): (r: (string, bool))
    ensures r.0 == routine.id
    ensures r.1 != routine.isActive
  {
    (routine.id, !routine.isActive)
  }

  /** Switching a routine twice, with the backend applying each patch,
      brings back its original activity. */
  lemma ToggleActiveTwiceRestores(routine: Routine, now1: int, now2: int)
    ensures var once := ApplyActive(routine, ActivePatch(HandleToggleActive(routine).1, now1));
            var twice := ApplyActive(once, ActivePatch(HandleToggleActive(once).1, now2));
            twice == routine.(updatedAt := now2)
  {
  }
}
