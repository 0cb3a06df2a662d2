/** The scheduler's state as one record, and each user action as a function
    from the state before to the state after.  `Valid` is the shape every
    action keeps: a conflict-free class list with unique ids and valid
    times, strictly ascending hour rows within 7..19, and a canonical day
    selection. */
module App {
  import opened Seqs
  import opened TimeStrings
  import opened Days
  import opened Classes
  import opened Hours
  import opened Devices
  import opened Modals

  datatype AppState = AppState(
    device: Option<Device>,
    visibleHours: seq<int>,
    selectedDays: seq<DayId>,
    showModal: bool,
    classes: seq<ClassEntry>,
    showEdit: bool,
    editClass: Option<ClassEntry>)

  /** Monday to Friday, selected when the app starts. */
  const Weekdays: seq<DayId> := ["M0", "T1", "W2", "T3", "F4"]

  /** The state the app starts in. */
  function Init(): (s: AppState)
    ensures Valid(s)
    ensures s.visibleHours == InitialHours && s.classes == [] && s.device.None?
    ensures s.selectedDays == Weekdays && !s.showModal && !s.showEdit && s.editClass.None?
  {
    InitialHoursOk();
    assert Rank("M0") == 0 && Rank("T1") == 1 && Rank("W2") == 2 && Rank("T3") == 3 && Rank("F4") == 4;
    AppState(None, InitialHours, Weekdays, false, [], false, None)
  }

  predicate Valid(s: AppState) {
    && NoOverlaps(s.classes)
    && UniqueIds(s.classes)
    && AllWellFormed(s.classes)
    && HoursOk(s.visibleHours)
    && IsCanonical(s.selectedDays)
  }

  /** Both times of a form are valid time strings, as the time inputs give. */
  predicate FormTimesOk(f: ClassForm) {
    IsTimeString(f.startTime) && IsTimeString(f.endTime)
  }

  /** The clock reading is not the id of a class already in the list. */
  predicate FreshId(s: AppState, now: int) {
    forall c :: c in s.classes ==> c.id != now
  }

  /** The days picker hands the app a new selection, which the app
      canonicalises once more. */
  function SetSelectedDays(s: AppState, days: seq<DayId>): (r: AppState)
    ensures IsCanonical(r.selectedDays)
    ensures forall x :: x in r.selectedDays <==> x in DayOrder && x in days
    ensures r == s.(selectedDays := r.selectedDays)
  {
    s.(selectedDays := SortDays(days))
  }

  /** A click on a day of the picker. */
  function PickDay(s: AppState, day: DayId): (r: AppState)
    ensures r.selectedDays == ToggleDay(s.selectedDays, day)
    ensures r == s.(selectedDays := r.selectedDays)
  {
    AppResortsToggle(s.selectedDays, day);
    SetSelectedDays(s, ToggleDay(s.selectedDays, day))
  }

  /** A click on an hour chip: the row goes only when no class on a shown day
      meets that hour. */
  function ClickHourChip(s: AppState, hour: int): (r: AppState)
    requires AllWellFormed(s.classes)
    ensures r.visibleHours != s.visibleHours ==> CanDeleteHour(s.classes, s.selectedDays, hour)
    ensures CanDeleteHour(s.classes, s.selectedDays, hour) ==> hour !in r.visibleHours
    ensures forall h :: h in r.visibleHours <==> h in s.visibleHours && (h != hour || !CanDeleteHour(s.classes, s.selectedDays, hour))
    ensures r == s.(visibleHours := r.visibleHours)
  {
    if CanDeleteHour(s.classes, s.selectedDays, hour) then s.(visibleHours := RemoveHour(s.visibleHours, hour))
    else s
  }

  /** A choice in the "add row" list; `Number` of the chosen value, where 0
      (the empty placeholder) adds nothing. */
  function SelectAddRow(s: AppState, val: int): (r: AppState)
    ensures val == 0 ==> r == s
    ensures val != 0 ==> Sorted(r.visibleHours) && multiset(r.visibleHours) == multiset(s.visibleHours) + multiset{val}
    ensures r == s.(visibleHours := r.visibleHours)
  {
    if val != 0 then s.(visibleHours := AddHour(s.visibleHours, val)) else s
  }

  /** Opening the add form. */
  function OpenAdd(s: AppState): (r: AppState)
    ensures r.showModal && r == s.(showModal := true)
  {
    s.(showModal := true)
  }

  /** The add form's button: the gate, then `handleAddClass` with the clock
      reading `now`, then the form closes, even when the add was refused for
      a conflict. */
  function SubmitAdd(s: AppState, form: ClassForm, now: int): (r: AppState)
    ensures HandleAdd(form).None? ==> r == s
    ensures HandleAdd(form).Some? ==> !r.showModal
    ensures HandleAdd(form).Some? ==>
      r.classes == (if CheckOverlap(s.classes, WithId(form, now)) then s.classes
                    else s.classes + [WithId(form, now)])
    ensures r == s.(classes := r.classes, showModal := r.showModal)
  {
    match HandleAdd(form)
    case None => s
    case Some(f) =>
      var o := AddClass(s.classes, f, now);
      s.(classes := o.classes, showModal := false)
  }

  /** A click on a drawn class opens the edit form on it. */
  function OpenEdit(s: AppState, c: ClassEntry): (r: AppState)
    ensures r.showEdit && r.editClass == Some(c)
    ensures r == s.(showEdit := true, editClass := Some(c))
  {
    s.(editClass := Some(c), showEdit := true)
  }

  /** The edit form's save button: the gate, then `handleEditClass` on the
      merged class; the form closes only when the edit was applied. */
  function SubmitEdit(s: AppState, form: ClassForm, initial: ClassEntry): (r: AppState)
    ensures HandleSave(form, initial).None? ==> r == s
    ensures HandleSave(form, initial).Some? ==>
      var u := Merge(initial, form);
      if EditClass(s.classes, u).ok
      then r == s.(classes := EditClass(s.classes, u).classes, showEdit := false)
      else r == s
  {
    match HandleSave(form, initial)
    case None => s
    case Some(u) =>
      var o := EditClass(s.classes, u);
      if o.ok then s.(classes := o.classes, showEdit := false) else s
  }

  /** The edit form's delete button, after the confirmation question. */
  function SubmitDelete(s: AppState, confirmed: bool, initial: ClassEntry): (r: AppState)
    ensures !confirmed ==> r == s
    ensures confirmed ==> !r.showEdit && forall c :: c in r.classes <==> c in s.classes && c.id != initial.id
    ensures r == s.(classes := r.classes, showEdit := r.showEdit)
  {
    match HandleDelete(confirmed, initial)
    case None => s
    case Some(id) => s.(classes := DeleteClass(s.classes, id), showEdit := false)
  }

  // Every action keeps the state valid.

  lemma SetSelectedDaysKeepsValid(s: AppState, days: seq<DayId>)
    requires Valid(s)
    ensures Valid(SetSelectedDays(s, days))
  {
  }

  lemma ClickHourChipKeepsValid(s: AppState, hour: int)
    requires Valid(s)
    ensures Valid(ClickHourChip(s, hour))
  {
    RemoveKeepsHoursOk(s.visibleHours, hour);
  }

  /** The list offers only the missing hours, so a choice keeps the rows
      strictly ascending within 7..19. */
  lemma SelectAddRowKeepsValid(s: AppState, val: int)
    requires Valid(s)
    requires val == 0 || val in MissingHours(s.visibleHours)
    ensures Valid(SelectAddRow(s, val))
  {
    if val != 0 {
      AddMissingKeepsHoursOk(s.visibleHours, val);
    }
  }

  lemma SubmitAddKeepsValid(s: AppState, form: ClassForm, now: int)
    requires Valid(s) && FormTimesOk(form) && FreshId(s, now)
    ensures Valid(SubmitAdd(s, form, now))
  {
    if HandleAdd(form).Some? {
      AddKeepsNoOverlaps(s.classes, form, now);
      AddKeepsUniqueIds(s.classes, form, now);
      var r := AddClass(s.classes, form, now);
      forall i | 0 <= i < |r.classes| ensures WellFormed(r.classes[i]) {
        if i < |s.classes| {
          assert r.classes[i] == s.classes[i];
        }
      }
    }
  }

  lemma SubmitEditKeepsValid(s: AppState, form: ClassForm, initial: ClassEntry)
    requires Valid(s) && FormTimesOk(form)
    ensures Valid(SubmitEdit(s, form, initial))
  {
    if HandleSave(form, initial).Some? {
      var u := Merge(initial, form);
      EditKeepsNoOverlaps(s.classes, u);
      EditKeepsUniqueIds(s.classes, u);
    }
  }

  lemma SubmitDeleteKeepsValid(s: AppState, confirmed: bool, initial: ClassEntry)
    requires Valid(s)
    ensures Valid(SubmitDelete(s, confirmed, initial))
  {
    if confirmed {
      DeleteKeepsNoOverlaps(s.classes, initial.id);
      WithoutIdKeepsUniqueIds(s.classes, initial.id);
      WithoutIdKeepsWellFormed(s.classes, initial.id);
    }
  }

  /** Clicking a listed class, leaving the synced form as it is and saving
      is accepted, leaves the classes as they were, and closes the form. */
  lemma SaveUnchangedEdit(s: AppState, i: nat)
    requires Valid(s) && i < |s.classes|
    requires s.classes[i].className != [] && s.classes[i].days != []
    requires s.classes[i].cellColor != []
    ensures var t := OpenEdit(s, s.classes[i]);
      var form := SyncFromInitial(EmptyForm, t.showEdit, t.editClass);
      SubmitEdit(t, form, t.editClass.value) == s.(showEdit := false, editClass := Some(s.classes[i]))
  {
    var c := s.classes[i];
    SyncOfEntry(EmptyForm, c);
    MergeOwnFields(c);
    ResaveSucceeds(s.classes, i);
  }

  /** Opening the add form and pressing its button at once changes nothing:
      the reset form does not pass the gate and the form stays open. */
  lemma SubmitFreshAddForm(s: AppState, form: ClassForm, now: int)
    ensures var t := OpenAdd(s);
      SubmitAdd(t, ResetOnOpen(form, t.showModal), now) == t
  {
    FreshAddFormRejected(form);
  }

  /** A class added after a conflict-free check is drawn: it sits in the list
      and conflicts with nothing else there. */
  lemma AddedClassIsConflictFree(s: AppState, form: ClassForm, now: int)
    requires HandleAdd(form).Some? && !CheckOverlap(s.classes, WithId(form, now))
    ensures WithId(form, now) in SubmitAdd(s, form, now).classes
    ensures forall c :: c in s.classes ==> !Conflicts(WithId(form, now), c)
  {
    forall c | c in s.classes ensures !Conflicts(WithId(form, now), c) {
      ConflictsSymmetric(WithId(form, now), c);
    }
  }
}
