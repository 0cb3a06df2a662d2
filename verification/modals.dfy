/** The two class forms: the add form (reset on opening, its own day
    checkboxes, a required-field gate) and the edit form (filled from the
    class being edited, the days picker, a gate, and a save that keeps the
    class's id). */
module Modals {
  import opened Seqs
  import opened TimeStrings
  import opened Days
  import opened Classes

  /** The form's values when it opens empty. */
  const DefaultStart: string := "09:00"
  const DefaultEnd: string := "10:00"
  const DefaultColor: string := "#c2d3f3"
  const EmptyForm: ClassForm := ClassForm("", "", [], DefaultStart, DefaultEnd, DefaultColor)

  /** The half-hour option label for hour `h` and minute `m` (0 or 30): the
      hour padded below 10, the minute "00" for 0 and its digits otherwise. */
  function OptionLabel(h: nat, m: nat): (s: string)
    requires 7 <= h <= 22 && (m == 0 || m == 30)
    ensures s == FormatTime(60 * h + m)
  {
    assert (60 * h + m) / 60 == h && (60 * h + m) % 60 == m;
    assert Pad2(0) == "00" && Pad2(30) == Decimal(30);
    Pad2(h) + ":" + (if m == 0 then "00" else Decimal(m))
  }

  /** `timeOptions`: every half hour from 07:00 to 22:30. */
  method TimeOptions() returns (opts: seq<string>)
    ensures |opts| == 32
    ensures forall i :: 0 <= i < |opts| ==> IsTimeString(opts[i]) && ToMins(opts[i]) == 420 + 30 * i
    ensures forall i, j :: 0 <= i < j < |opts| ==> LexLess(opts[i], opts[j])
  {
    opts := [];
    var h := 7;
    while h <= 22
      invariant 7 <= h <= 23
      invariant |opts| == 2 * (h - 7)
      invariant forall i :: 0 <= i < |opts| ==> IsTimeString(opts[i]) && ToMins(opts[i]) == 420 + 30 * i
    {
      var m := 0;
      while m < 60
        invariant m == 0 || m == 30 || m == 60
        invariant |opts| == 2 * (h - 7) + m / 30
        invariant forall i :: 0 <= i < |opts| ==> IsTimeString(opts[i]) && ToMins(opts[i]) == 420 + 30 * i
      {
        opts := opts + [OptionLabel(h, m)];
        m := m + 30;
      }
      h := h + 1;
    }
    forall i, j | 0 <= i < j < |opts| ensures LexLess(opts[i], opts[j]) {
      LexLessIsMinutesLess(opts[i], opts[j]);
    }
  }

  /** The first option is 07:00 and the last 22:30. */
  lemma TimeOptionEnds()
    ensures OptionLabel(7, 0) == "07:00" && OptionLabel(22, 30) == "22:30"
  {
    FormatAfterParse("07:00");
    FormatAfterParse("22:30");
  }

  /** The add form's reaction to `visible`: opening clears every field. */
  function ResetOnOpen(form: ClassForm, visible: bool): (f: ClassForm)
    ensures visible ==> f.className == [] && f.location == [] && f.days == []
    ensures visible ==> f.startTime == "09:00" && f.endTime == "10:00" && f.cellColor == "#c2d3f3"
    ensures !visible ==> f == form
  {
    if visible then EmptyForm else form
  }

  /** The add form's day checkbox: unticking drops the day, ticking appends
      it at the end; the order is not canonicalised. */
  function CheckboxToggle(selected: seq<DayId>, d: DayId): (r: seq<DayId>)
    ensures forall x :: x in r <==> (if x == d then d !in selected else x in selected)
    ensures d !in selected ==> r == selected + [d]
  {
    if d in selected then Without(selected, d) else selected + [d]
  }

  /** Ticking then unticking an unticked day gives the selection back. */
  lemma CheckboxTickUntick(selected: seq<DayId>, d: DayId)
    requires d !in selected
    ensures CheckboxToggle(CheckboxToggle(selected, d), d) == selected
  {
    assert d in selected + [d];
    WithoutAbsent(selected, d);
    WithoutAppend(selected, d);
  }

  lemma WithoutAppend(s: seq<DayId>, d: DayId)
    ensures Without(s + [d], d) == Without(s, d)
  {
    WithoutConcat(s, [d], d);
    WithoutSingle(d, d);
  }

  /** Unticking then ticking a ticked day moves it to the end: the add form
      keeps the order in which days were ticked. */
  lemma CheckboxUntickTickMovesToEnd(selected: seq<DayId>, d: DayId)
    requires d in selected
    ensures CheckboxToggle(CheckboxToggle(selected, d), d) == Without(selected, d) + [d]
  {
  }

  /** Up to order, the add form's checkbox and the days picker agree: both
      make the same set of days. */
  lemma CheckboxAgreesWithPicker(selected: seq<DayId>, d: DayId)
    ensures SortDays(CheckboxToggle(selected, d)) == ToggleDay(selected, d)
  {
    CanonicalUnique(SortDays(CheckboxToggle(selected, d)), ToggleDay(selected, d));
  }

  /** `handleAdd`: the six fields are handed on only when the gate passes. */
  function HandleAdd(form: ClassForm): (payload: Option<ClassForm>)
    ensures payload.Some? <==> form.className != [] && form.days != []
    ensures payload.Some? ==> payload.value == form
  {
    if form.className == [] || |form.days| == 0 then None else Some(form)
  }

  /** A freshly opened add form cannot be submitted. */
  lemma FreshAddFormRejected(form: ClassForm)
    ensures HandleAdd(ResetOnOpen(form, true)).None?
  {
  }

  /** `x || fallback` on a string field: the empty string is falsy. */
  function OrDefault(s: string, fallback: string): (r: string)
    ensures s != [] ==> r == s
    ensures s == [] ==> r == fallback
  {
    if s == [] then fallback else s
  }

  /** The edit form's sync: when the form is visible and there is a class to
      edit, every field is taken from that class, times and colour falling
      back to the defaults when empty; otherwise the form is left as it is. */
  function SyncFromInitial(form: ClassForm, visible: bool, initial: Option<ClassEntry>): (f: ClassForm)
    ensures !visible || initial.None? ==> f == form
    ensures visible && initial.Some? ==>
      && f.className == initial.value.className
      && f.location == initial.value.location
      && f.days == initial.value.days
      && f.startTime == (if initial.value.startTime == [] then DefaultStart else initial.value.startTime)
      && f.endTime == (if initial.value.endTime == [] then DefaultEnd else initial.value.endTime)
      && f.cellColor == (if initial.value.cellColor == [] then DefaultColor else initial.value.cellColor)
  {
    if !visible || initial.None? then form
    else
      var c := initial.value;
      ClassForm(OrDefault(c.className, ""), OrDefault(c.location, ""), c.days,
                OrDefault(c.startTime, DefaultStart), OrDefault(c.endTime, DefaultEnd),
                OrDefault(c.cellColor, DefaultColor))
  }

  /** An entry whose times are valid and whose colour is set syncs into
      exactly its own six fields. */
  lemma SyncOfEntry(form: ClassForm, c: ClassEntry)
    requires WellFormed(c) && c.cellColor != []
    ensures SyncFromInitial(form, true, Some(c)) == FormOf(c)
  {
  }

  /** `{ ...initialData, six form fields }`: the id comes from the class being
      edited and every other field from the form. */
  function Merge(initial: ClassEntry, form: ClassForm): (u: ClassEntry)
    ensures u.id == initial.id && FormOf(u) == form
  {
    WithId(form, initial.id)
  }

  /** Merging an entry's own fields back gives the entry. */
  lemma MergeOwnFields(c: ClassEntry)
    ensures Merge(c, FormOf(c)) == c
  {
  }

  /** `handleSave`'s gate and merge: the updated class, or `None` when the
      name or the days are missing. */
  function HandleSave(form: ClassForm, initial: ClassEntry): (u: Option<ClassEntry>)
    ensures u.Some? <==> form.className != [] && form.days != []
    ensures u.Some? ==> u.value.id == initial.id && FormOf(u.value) == form
  {
    if form.className == [] || |form.days| == 0 then None else Some(Merge(initial, form))
  }

  /** `handleDelete`: the id of the class being edited, passed on unchanged
      when the user confirms. */
  function HandleDelete(confirmed: bool, initial: ClassEntry): (id: Option<int>)
    ensures id.Some? <==> confirmed
    ensures id.Some? ==> id.value == initial.id
  {
    if confirmed then Some(initial.id) else None
  }
}
