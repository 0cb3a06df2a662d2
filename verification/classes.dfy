/** Class entries, the overlap test, and the three updates of the class list
    (add, edit, delete).  The conflict test compares the time strings as
    strings, exactly as the app does; `ConflictIsNumericOverlap` shows that on
    well-formed entries this is the half-open interval test on minutes. */
module Classes {
  import opened TimeStrings
  import opened Days

  /** The six fields the class forms hand to the app. */
  datatype ClassForm = ClassForm(
    className: string,
    location: string,
    days: seq<DayId>,
    startTime: string,
    endTime: string,
    cellColor: string)

  /** A class in the schedule: the form fields plus the id given at creation. */
  datatype ClassEntry = ClassEntry(
    id: int,
    className: string,
    location: string,
    days: seq<DayId>,
    startTime: string,
    endTime: string,
    cellColor: string)

  /** `{ ...form, id }`. */
  function WithId(f: ClassForm, id: int): (c: ClassEntry)
    ensures c.id == id && FormOf(c) == f
  {
    ClassEntry(id, f.className, f.location, f.days, f.startTime, f.endTime, f.cellColor)
  }

  /** The six form fields of an entry. */
  function FormOf(c: ClassEntry): ClassForm {
    ClassForm(c.className, c.location, c.days, c.startTime, c.endTime, c.cellColor)
  }

  /** Both times are HH:MM strings; nothing requires start before end. */
  predicate WellFormed(c: ClassEntry) {
    IsTimeString(c.startTime) && IsTimeString(c.endTime)
  }

  predicate AllWellFormed(cs: seq<ClassEntry>) {
    forall i :: 0 <= i < |cs| ==> WellFormed(cs[i])
  }

  function StartMins(c: ClassEntry): int
    requires WellFormed(c)
  {
    ToMins(c.startTime)
  }

  function EndMins(c: ClassEntry): int
    requires WellFormed(c)
  {
    ToMins(c.endTime)
  }

  /** `a.some(d => b.includes(d))`. */
  predicate SharesDay(a: seq<DayId>, b: seq<DayId>) {
    exists d :: d in a && d in b
  }

  /** Half-open intervals [s1, e1) and [s2, e2) overlap. */
  predicate Overlaps(s1: int, e1: int, s2: int, e2: int) {
    !(e1 <= s2 || s1 >= e2)
  }

  /** The test `checkOverlap` applies to an existing class `c` and a candidate
      `n`: a shared day, and neither time span ends (as a string) before the
      other begins. */
  function Conflicts(c: ClassEntry, n: ClassEntry): (r: bool)
    ensures r ==> SharesDay(c.days, n.days)
    ensures WellFormed(c) && WellFormed(n) ==>
      (r <==> SharesDay(c.days, n.days) && Overlaps(StartMins(n), EndMins(n), StartMins(c), EndMins(c)))
  {
    if WellFormed(c) && WellFormed(n) then
      StrLeIsMinutesLe(n.endTime, c.startTime);
      StrLeIsMinutesLe(c.endTime, n.startTime);
      SharesDay(c.days, n.days) && !(StrLe(n.endTime, c.startTime) || StrLe(c.endTime, n.startTime))
    else
      SharesDay(c.days, n.days) && !(StrLe(n.endTime, c.startTime) || StrLe(c.endTime, n.startTime))
  }

  lemma ConflictsSymmetric(a: ClassEntry, b: ClassEntry)
    ensures Conflicts(a, b) <==> Conflicts(b, a)
  {
    if SharesDay(a.days, b.days) {
      var d :| d in a.days && d in b.days;
      assert d in b.days && d in a.days;
    }
    if SharesDay(b.days, a.days) {
      var d :| d in b.days && d in a.days;
      assert d in a.days && d in b.days;
    }
  }

  /** On well-formed entries the string test is the numeric half-open test. */
  lemma ConflictIsNumericOverlap(c: ClassEntry, n: ClassEntry)
    requires WellFormed(c) && WellFormed(n)
    ensures Conflicts(c, n) <==>
      SharesDay(c.days, n.days) &&
      Overlaps(StartMins(n), EndMins(n), StartMins(c), EndMins(c))
  {
    StrLeIsMinutesLe(n.endTime, c.startTime);
    StrLeIsMinutesLe(c.endTime, n.startTime);
  }

  /** Back-to-back classes never conflict, whatever their days. */
  lemma TouchingDoNotConflict(a: ClassEntry, b: ClassEntry)
    requires WellFormed(a) && WellFormed(b)
    requires EndMins(a) == StartMins(b)
    ensures !Conflicts(a, b) && !Conflicts(b, a)
  {
    ConflictIsNumericOverlap(a, b);
    ConflictIsNumericOverlap(b, a);
  }

  /** `checkOverlap`: some class in the list conflicts with the candidate. */
  function CheckOverlap(classes: seq<ClassEntry>, n: ClassEntry): (r: bool)
    ensures classes == [] ==> !r
    ensures AllWellFormed(classes) && WellFormed(n) ==>
      (r <==> exists c :: c in classes && SharesDay(c.days, n.days) &&
                Overlaps(StartMins(n), EndMins(n), StartMins(c), EndMins(c)))
  {
    exists c :: c in classes && Conflicts(c, n)
  }

  /** `classes.filter(c => c.id !== id)`. */
  function WithoutId(classes: seq<ClassEntry>, id: int): (r: seq<ClassEntry>)
    ensures forall c :: c in r <==> c in classes && c.id != id
    ensures |r| <= |classes|
    ensures (forall i :: 0 <= i < |classes| ==> classes[i].id != id) ==> r == classes
  {
    if |classes| == 0 then []
    else if classes[0].id == id then WithoutId(classes[1..], id)
    else [classes[0]] + WithoutId(classes[1..], id)
  }

  /** The id filter works entry by entry, so the kept entries stay in their
      order. */
  lemma {:induction false} WithoutIdConcat(a: seq<ClassEntry>, b: seq<ClassEntry>, id: int)
    ensures WithoutId(a + b, id) == WithoutId(a, id) + WithoutId(b, id)
    decreases |a|
  {
    if |a| == 0 {
      assert a + b == b;
    } else {
      var h, t := a[0], a[1..];
      assert a == [h] + t;
      assert a + b == [h] + (t + b);
      WithoutIdCons(h, t + b, id);
      WithoutIdCons(h, t, id);
      WithoutIdConcat(t, b, id);
      ConcatAssoc(if h.id == id then [] else [h], WithoutId(t, id), WithoutId(b, id));
    }
  }

  lemma ConcatAssoc(x: seq<ClassEntry>, y: seq<ClassEntry>, z: seq<ClassEntry>)
    ensures x + (y + z) == (x + y) + z
  {
  }

  lemma WithoutIdCons(h: ClassEntry, t: seq<ClassEntry>, id: int)
    ensures WithoutId([h] + t, id) == (if h.id == id then [] else [h]) + WithoutId(t, id)
  {
    assert ([h] + t)[0] == h && ([h] + t)[1..] == t;
  }

  /** On one entry the filter keeps it exactly when its id differs. */
  lemma WithoutIdSingle(c: ClassEntry, id: int)
    ensures WithoutId([c], id) == if c.id == id then [] else [c]
  {
    assert [c][1..] == [];
  }

  /** `classes.map(c => c.id === u.id ? u : c)`. */
  function ReplaceId(classes: seq<ClassEntry>, u: ClassEntry): (r: seq<ClassEntry>)
    ensures |r| == |classes|
    ensures forall i :: 0 <= i < |r| ==>
      (classes[i].id == u.id ==> r[i] == u) && (classes[i].id != u.id ==> r[i] == classes[i])
  {
    if |classes| == 0 then []
    else [if classes[0].id == u.id then u else classes[0]] + ReplaceId(classes[1..], u)
  }

  /** The result of a list update: whether it was applied, and the list. */
  datatype Outcome = Outcome(ok: bool, classes: seq<ClassEntry>)

  /** `handleAddClass` on the class list, with the clock reading `now` as the
      new id: refused on a conflict (list untouched), otherwise appended. */
  function AddClass(classes: seq<ClassEntry>, f: ClassForm, now: int): (r: Outcome)
    ensures r.ok <==> forall c :: c in classes ==> !Conflicts(c, WithId(f, now))
    ensures !r.ok ==> r.classes == classes
    ensures r.ok ==> r.classes == classes + [WithId(f, now)]
  {
    var withId := WithId(f, now);
    if CheckOverlap(classes, withId) then Outcome(false, classes)
    else Outcome(true, classes + [withId])
  }

  /** `handleEditClass`: the candidate is checked against every class with a
      different id; on a conflict the list is untouched, otherwise every entry
      carrying the candidate's id is replaced by it. */
  function EditClass(classes: seq<ClassEntry>, u: ClassEntry): (r: Outcome)
    ensures r.ok <==> forall c :: c in classes && c.id != u.id ==> !Conflicts(c, u)
    ensures !r.ok ==> r.classes == classes
    ensures |r.classes| == |classes|
    ensures r.ok ==> forall i :: 0 <= i < |classes| ==>
      r.classes[i] == (if classes[i].id == u.id then u else classes[i])
  {
    var overlap := CheckOverlap(WithoutId(classes, u.id), u);
    if overlap then Outcome(false, classes)
    else Outcome(true, ReplaceId(classes, u))
  }

  /** `handleDeleteClass`. */
  function DeleteClass(classes: seq<ClassEntry>, id: int): (r: seq<ClassEntry>)
    ensures forall c :: c in r <==> c in classes && c.id != id
  {
    WithoutId(classes, id)
  }

  /** No two different positions of the list hold conflicting classes. */
  predicate NoOverlaps(cs: seq<ClassEntry>) {
    forall i, j :: 0 <= i < |cs| && 0 <= j < |cs| && i != j ==> !Conflicts(cs[i], cs[j])
  }

  predicate UniqueIds(cs: seq<ClassEntry>) {
    forall i, j :: 0 <= i < j < |cs| ==> cs[i].id != cs[j].id
  }

  lemma AddKeepsNoOverlaps(classes: seq<ClassEntry>, f: ClassForm, now: int)
    requires NoOverlaps(classes)
    ensures NoOverlaps(AddClass(classes, f, now).classes)
  {
    var r := AddClass(classes, f, now);
    if r.ok {
      var n := WithId(f, now);
      assert r.classes == classes + [n];
      forall i | 0 <= i < |classes| ensures !Conflicts(n, classes[i]) {
        assert classes[i] in classes;
        ConflictsSymmetric(n, classes[i]);
      }
    }
  }

  /** A fresh clock reading keeps the ids unique. */
  lemma AddKeepsUniqueIds(classes: seq<ClassEntry>, f: ClassForm, now: int)
    requires UniqueIds(classes)
    requires forall c :: c in classes ==> c.id != now
    ensures UniqueIds(AddClass(classes, f, now).classes)
  {
    var r := AddClass(classes, f, now);
    if r.ok {
      assert r.classes == classes + [WithId(f, now)];
      forall i | 0 <= i < |classes| ensures classes[i].id != now {
        assert classes[i] in classes;
      }
    }
  }

  lemma EditKeepsNoOverlaps(classes: seq<ClassEntry>, u: ClassEntry)
    requires NoOverlaps(classes) && UniqueIds(classes)
    ensures NoOverlaps(EditClass(classes, u).classes)
  {
    var r := EditClass(classes, u);
    if r.ok {
      var cs := r.classes;
      forall i, j | 0 <= i < |cs| && 0 <= j < |cs| && i != j
        ensures !Conflicts(cs[i], cs[j])
      {
        assert classes[i] in classes && classes[j] in classes;
        if classes[i].id == u.id && classes[j].id != u.id {
          ConflictsSymmetric(u, classes[j]);
        }
      }
    }
  }

  /** The edit keeps every id in its place. */
  lemma EditKeepsIds(classes: seq<ClassEntry>, u: ClassEntry)
    ensures forall i :: 0 <= i < |classes| ==> EditClass(classes, u).classes[i].id == classes[i].id
  {
  }

  lemma EditKeepsUniqueIds(classes: seq<ClassEntry>, u: ClassEntry)
    requires UniqueIds(classes)
    ensures UniqueIds(EditClass(classes, u).classes)
  {
    EditKeepsIds(classes, u);
  }

  /** Removing entries keeps a conflict-free list conflict-free. */
  lemma {:induction false} WithoutIdKeepsNoOverlaps(classes: seq<ClassEntry>, id: int)
    requires NoOverlaps(classes)
    ensures NoOverlaps(WithoutId(classes, id))
    decreases |classes|
  {
    if |classes| > 0 {
      var tail := classes[1..];
      TailNoOverlaps(classes);
      WithoutIdKeepsNoOverlaps(tail, id);
      if classes[0].id != id {
        HeadAgreesWithKept(classes, id);
        ConsNoOverlaps(classes[0], WithoutId(tail, id));
      }
    }
  }

  lemma TailNoOverlaps(classes: seq<ClassEntry>)
    requires |classes| > 0 && NoOverlaps(classes)
    ensures NoOverlaps(classes[1..])
  {
    var tail := classes[1..];
    forall i, j | 0 <= i < |tail| && 0 <= j < |tail| && i != j
      ensures !Conflicts(tail[i], tail[j])
    {
      assert tail[i] == classes[i + 1] && tail[j] == classes[j + 1];
    }
  }

  /** The head of a conflict-free list conflicts with none of the kept tail. */
  lemma HeadAgreesWithKept(classes: seq<ClassEntry>, id: int)
    requires |classes| > 0 && NoOverlaps(classes)
    ensures forall k :: 0 <= k < |WithoutId(classes[1..], id)| ==>
      !Conflicts(classes[0], WithoutId(classes[1..], id)[k]) && !Conflicts(WithoutId(classes[1..], id)[k], classes[0])
  {
    var tail := classes[1..];
    var rest := WithoutId(tail, id);
    forall k | 0 <= k < |rest|
      ensures !Conflicts(classes[0], rest[k]) && !Conflicts(rest[k], classes[0])
    {
      assert rest[k] in tail;
      var m :| 0 <= m < |tail| && tail[m] == rest[k];
      assert classes[m + 1] == rest[k];
    }
  }

  /** A conflict-free list with a head that conflicts with none of it. */
  lemma ConsNoOverlaps(h: ClassEntry, rest: seq<ClassEntry>)
    requires NoOverlaps(rest)
    requires forall k :: 0 <= k < |rest| ==> !Conflicts(h, rest[k]) && !Conflicts(rest[k], h)
    ensures NoOverlaps([h] + rest)
  {
    var r := [h] + rest;
    forall i, j | 0 <= i < |r| && 0 <= j < |r| && i != j
      ensures !Conflicts(r[i], r[j])
    {
      if i > 0 && j > 0 {
        assert r[i] == rest[i - 1] && r[j] == rest[j - 1];
      } else if i == 0 {
        assert r[j] == rest[j - 1];
      } else {
        assert r[i] == rest[i - 1];
      }
    }
  }

  /** Removing entries keeps the ids unique. */
  lemma {:induction false} WithoutIdKeepsUniqueIds(classes: seq<ClassEntry>, id: int)
    requires UniqueIds(classes)
    ensures UniqueIds(WithoutId(classes, id))
    decreases |classes|
  {
    if |classes| > 0 {
      var tail := classes[1..];
      HeadIdNotInTail(classes);
      WithoutIdKeepsUniqueIds(tail, id);
      if classes[0].id != id {
        ConsUniqueIds(classes[0], WithoutId(tail, id));
      }
    }
  }

  /** The tail of a list with unique ids has unique ids, none of them the
      head's. */
  lemma HeadIdNotInTail(cs: seq<ClassEntry>)
    requires UniqueIds(cs) && |cs| > 0
    ensures UniqueIds(cs[1..])
    ensures forall c :: c in cs[1..] ==> c.id != cs[0].id
  {
    var tail := cs[1..];
    forall i, j | 0 <= i < j < |tail| ensures tail[i].id != tail[j].id {
      assert tail[i] == cs[i + 1] && tail[j] == cs[j + 1];
    }
    forall c | c in tail ensures c.id != cs[0].id {
      var m :| 0 <= m < |tail| && tail[m] == c;
      assert cs[m + 1] == c;
    }
  }

  /** A class whose id is not in a list with unique ids can go in front. */
  lemma ConsUniqueIds(h: ClassEntry, rest: seq<ClassEntry>)
    requires UniqueIds(rest)
    requires forall c :: c in rest ==> c.id != h.id
    ensures UniqueIds([h] + rest)
  {
    var r := [h] + rest;
    forall i, j | 0 <= i < j < |r| ensures r[i].id != r[j].id {
      assert r[j] == rest[j - 1];
      if i > 0 {
        assert r[i] == rest[i - 1];
      } else {
        assert rest[j - 1] in rest;
      }
    }
  }

  /** Every entry left after a removal was in the list. */
  lemma WithoutIdKeepsWellFormed(classes: seq<ClassEntry>, id: int)
    requires AllWellFormed(classes)
    ensures AllWellFormed(WithoutId(classes, id))
  {
    var r := WithoutId(classes, id);
    forall i | 0 <= i < |r| ensures WellFormed(r[i]) {
      assert r[i] in r;
      var k :| 0 <= k < |classes| && classes[k] == r[i];
    }
  }

  lemma DeleteKeepsNoOverlaps(classes: seq<ClassEntry>, id: int)
    requires NoOverlaps(classes)
    ensures NoOverlaps(DeleteClass(classes, id))
  {
    WithoutIdKeepsNoOverlaps(classes, id);
  }

  /** Saving an entry back unchanged is accepted and changes nothing: the edit
      check never compares an entry with itself. */
  lemma ResaveSucceeds(classes: seq<ClassEntry>, i: nat)
    requires i < |classes|
    requires NoOverlaps(classes) && UniqueIds(classes)
    ensures EditClass(classes, classes[i]) == Outcome(true, classes)
  {
    var u := classes[i];
    forall c | c in classes && c.id != u.id ensures !Conflicts(c, u) {
      var k :| 0 <= k < |classes| && classes[k] == c;
      assert k != i;
    }
    var r := EditClass(classes, u);
    forall k | 0 <= k < |classes| ensures r.classes[k] == classes[k] {
    }
  }

  /** Example: on a shared Monday, 09:00-10:00 then 10:00-11:00 do not
      conflict, while 09:00-10:30 against 10:00-11:00 does. */
  lemma ConflictExamples()
    ensures !Conflicts(ClassEntry(1, "A", "", ["M0"], "09:00", "10:00", "#c2d3f3"),
                       ClassEntry(2, "B", "", ["M0"], "10:00", "11:00", "#c2d3f3"))
    ensures Conflicts(ClassEntry(1, "A", "", ["M0"], "09:00", "10:30", "#c2d3f3"),
                      ClassEntry(2, "B", "", ["M0", "W2"], "10:00", "11:00", "#c2d3f3"))
  {
    var a := ClassEntry(1, "A", "", ["M0"], "09:00", "10:00", "#c2d3f3");
    var b := ClassEntry(2, "B", "", ["M0"], "10:00", "11:00", "#c2d3f3");
    var c := ClassEntry(1, "A", "", ["M0"], "09:00", "10:30", "#c2d3f3");
    var d := ClassEntry(2, "B", "", ["M0", "W2"], "10:00", "11:00", "#c2d3f3");
    TimeFacts();
    assert "M0" in c.days && "M0" in d.days;
    ConflictIsNumericOverlap(a, b);
    ConflictIsNumericOverlap(c, d);
  }

  lemma TimeFacts()
    ensures IsTimeString("09:00") && ToMins("09:00") == 540
    ensures IsTimeString("10:00") && ToMins("10:00") == 600
    ensures IsTimeString("10:30") && ToMins("10:30") == 630
    ensures IsTimeString("11:00") && ToMins("11:00") == 660
  {
  }
}
