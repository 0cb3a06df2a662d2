/** The hour-row manager: which hour rows of the grid are shown, when a row
    may be hidden, and how rows are added back.  Rows are kept as a sequence
    of hours; the app sorts with a numeric comparator. */
module Hours {
  import opened Seqs
  import opened TimeStrings
  import opened Days
  import opened Classes

  /** `Array.from({ length: 13 }, (_, i) => 7 + i)`: hours 7 to 19. */
  const InitialHours: seq<int> := [7, 8, 9, 10, 11, 12, 13, 14, 15, 16, 17, 18, 19]

  predicate Sorted(s: seq<int>) {
    forall i, j :: 0 <= i < j < |s| ==> s[i] <= s[j]
  }

  predicate StrictlySorted(s: seq<int>) {
    forall i, j :: 0 <= i < j < |s| ==> s[i] < s[j]
  }

  /** Inserts `x` before the first element not below it. */
  function Insert(x: int, s: seq<int>): (r: seq<int>)
    requires Sorted(s)
    ensures Sorted(r)
    ensures multiset(r) == multiset(s) + multiset{x}
    ensures |r| == |s| + 1
  {
    if |s| == 0 || x <= s[0] then
      ConsSorted(x, s);
      [x] + s
    else
      assert s == [s[0]] + s[1..];
      var t := Insert(x, s[1..]);
      HeadBelow(s, x, t);
      ConsSorted(s[0], t);
      [s[0]] + t
  }

  /** A value no greater than the head of a sorted list can go in front. */
  lemma ConsSorted(h: int, t: seq<int>)
    requires Sorted(t) && (|t| == 0 || h <= t[0])
    ensures Sorted([h] + t)
  {
    var r := [h] + t;
    assert forall k :: 0 < k < |r| ==> r[k] == t[k - 1];
  }

  /** The head of a sorted list is no greater than anything that `x` (which
      is above it) and the rest of the list hold. */
  lemma HeadBelow(s: seq<int>, x: int, t: seq<int>)
    requires Sorted(s) && |s| > 0 && s[0] < x
    requires multiset(t) == multiset(s[1..]) + multiset{x}
    ensures |t| == 0 || s[0] <= t[0]
  {
    if |t| > 0 {
      assert t[0] in multiset(t);
      if t[0] != x {
        assert t[0] in multiset(s[1..]);
        var m :| 0 <= m < |s[1..]| && s[1..][m] == t[0];
        assert s[m + 1] == t[0];
      }
    }
  }

  /** `[...s].sort((a, b) => a - b)`: ascending numeric order. */
  function SortAsc(s: seq<int>): (r: seq<int>)
    ensures Sorted(r)
    ensures multiset(r) == multiset(s)
    ensures |r| == |s|
  {
    if |s| == 0 then []
    else
      assert s == [s[0]] + s[1..];
      Insert(s[0], SortAsc(s[1..]))
  }

  /** The head of a sorted sequence is its least element. */
  lemma SortedHeadIsLeast(a: seq<int>, y: int)
    requires Sorted(a) && y in multiset(a)
    ensures |a| > 0 && a[0] <= y
  {
    var m :| 0 <= m < |a| && a[m] == y;
  }

  /** A sorted sequence is determined by its multiset of elements. */
  lemma {:induction false} SortedUnique(a: seq<int>, b: seq<int>)
    requires Sorted(a) && Sorted(b)
    requires multiset(a) == multiset(b)
    ensures a == b
    decreases |a|
  {
    if |a| == 0 {
      assert |multiset(b)| == 0;
    } else {
      assert a[0] in multiset(a);
      SortedHeadIsLeast(b, a[0]);
      assert b[0] in multiset(b);
      SortedHeadIsLeast(a, b[0]);
      assert a[0] == b[0];
      assert a == [a[0]] + a[1..];
      assert b == [b[0]] + b[1..];
      assert multiset(a) == multiset{a[0]} + multiset(a[1..]);
      assert multiset(b) == multiset{b[0]} + multiset(b[1..]);
      assert multiset(a[1..]) == multiset(a) - multiset{a[0]};
      assert multiset(b[1..]) == multiset(b) - multiset{b[0]};
      SortedUnique(a[1..], b[1..]);
    }
  }

  lemma {:induction false} InsertKeepsStrict(x: int, s: seq<int>)
    requires StrictlySorted(s) && x !in s
    ensures StrictlySorted(Insert(x, s))
    decreases |s|
  {
    if |s| > 0 && x > s[0] {
      InsertKeepsStrict(x, s[1..]);
      var r := Insert(x, s);
      var t := Insert(x, s[1..]);
      assert r == [s[0]] + t;
      forall k | 0 <= k < |t| ensures s[0] < t[k] {
        assert t[k] in multiset(t);
        assert t[k] in multiset(s[1..]) + multiset{x};
        if t[k] != x {
          assert t[k] in s[1..];
          var m :| 0 <= m < |s[1..]| && s[1..][m] == t[k];
          assert s[m + 1] == t[k];
        }
      }
    }
  }

  /** `canDeleteHour`: no class on a selected day meets the hour
      [60h, 60(h+1)), under the same half-open rule as the conflict test. */
  function CanDeleteHour(classes: seq<ClassEntry>, selectedDays: seq<DayId>, hour: int): (ok: bool)
    requires AllWellFormed(classes)
    ensures ok <==> forall i :: 0 <= i < |classes| && SharesDay(classes[i].days, selectedDays) ==>
      !Overlaps(StartMins(classes[i]), EndMins(classes[i]), hour * 60, (hour + 1) * 60)
  {
    var hourStart := hour * 60;
    var hourEnd := (hour + 1) * 60;
    !exists i :: 0 <= i < |classes| &&
      SharesDay(classes[i].days, selectedDays) &&
      StartMins(classes[i]) < hourEnd && EndMins(classes[i]) > hourStart
  }

  /** The hour h, seen as a class on the selected days from h:00 to (h+1):00. */
  function HourBlock(selectedDays: seq<DayId>, hour: int): (c: ClassEntry)
    requires 0 <= hour <= 22
    ensures WellFormed(c)
    ensures StartMins(c) == hour * 60 && EndMins(c) == (hour + 1) * 60
  {
    ClassEntry(0, "", "", selectedDays, FormatTime(hour * 60), FormatTime((hour + 1) * 60), "")
  }

  /** The numeric occupancy test of the hour manager and the string test of
      the conflict detector agree: an hour may be hidden exactly when a class
      spanning that hour on the selected days would be accepted. */
  lemma CanDeleteHourIsNoConflict(classes: seq<ClassEntry>, selectedDays: seq<DayId>, hour: int)
    requires AllWellFormed(classes)
    requires 0 <= hour <= 22
    ensures CanDeleteHour(classes, selectedDays, hour) <==> !CheckOverlap(classes, HourBlock(selectedDays, hour))
  {
    var b := HourBlock(selectedDays, hour);
    forall i | 0 <= i < |classes|
      ensures Conflicts(classes[i], b) <==>
        SharesDay(classes[i].days, selectedDays) &&
        Overlaps(StartMins(classes[i]), EndMins(classes[i]), hour * 60, (hour + 1) * 60)
    {
      ConflictIsNumericOverlap(classes[i], b);
    }
    if CheckOverlap(classes, b) {
      var c :| c in classes && Conflicts(c, b);
      var i :| 0 <= i < |classes| && classes[i] == c;
    }
    if !CanDeleteHour(classes, selectedDays, hour) {
      var i :| 0 <= i < |classes| && SharesDay(classes[i].days, selectedDays) &&
        Overlaps(StartMins(classes[i]), EndMins(classes[i]), hour * 60, (hour + 1) * 60);
      assert classes[i] in classes;
    }
  }

  /** Classes none of whose days is selected never block an hour. */
  lemma UnselectedClassesIgnored(classes: seq<ClassEntry>, c: ClassEntry, selectedDays: seq<DayId>, hour: int)
    requires AllWellFormed(classes) && WellFormed(c)
    requires forall d :: d in c.days ==> d !in selectedDays
    ensures CanDeleteHour(classes + [c], selectedDays, hour) == CanDeleteHour(classes, selectedDays, hour)
  {
    var cs := classes + [c];
    assert !SharesDay(c.days, selectedDays);
    forall i | 0 <= i < |classes| ensures cs[i] == classes[i] { }
  }

  /** Example: a Monday class 09:30-10:00 blocks hour 9 but not hour 10. */
  lemma CanDeleteHourExample()
    ensures !CanDeleteHour([ClassEntry(1, "A", "", ["M0"], "09:30", "10:00", "#c2d3f3")], ["M0", "T1"], 9)
    ensures CanDeleteHour([ClassEntry(1, "A", "", ["M0"], "09:30", "10:00", "#c2d3f3")], ["M0", "T1"], 10)
  {
    var c := ClassEntry(1, "A", "", ["M0"], "09:30", "10:00", "#c2d3f3");
    assert IsTimeString("09:30") && ToMins("09:30") == 570;
    assert IsTimeString("10:00") && ToMins("10:00") == 600;
    assert "M0" in c.days && "M0" in ["M0", "T1"];
    assert [c][0] == c;
  }

  /** `addHour`: the hours with `h` added, in ascending order; duplicates are
      not removed. */
  function AddHour(hours: seq<int>, h: int): (r: seq<int>)
    ensures Sorted(r)
    ensures multiset(r) == multiset(hours) + multiset{h}
  {
    SortAsc(hours + [h])
  }

  /** `removeHour`: every copy of `h` goes, the rest stays in order. */
  function RemoveHour(hours: seq<int>, h: int): (r: seq<int>)
    ensures h !in r
    ensures multiset(r) == multiset(hours)[h := 0]
  {
    Without(hours, h)
  }

  lemma {:induction false} RemoveHourKeepsOrder(hours: seq<int>, h: int)
    requires StrictlySorted(hours)
    ensures StrictlySorted(RemoveHour(hours, h))
    decreases |hours|
  {
    if |hours| > 0 {
      var tail := hours[1..];
      RemoveHourKeepsOrder(tail, h);
      var rest := RemoveHour(tail, h);
      if hours[0] != h {
        assert RemoveHour(hours, h) == [hours[0]] + rest;
        forall k | 0 <= k < |rest| ensures hours[0] < rest[k] {
          assert rest[k] in rest;
          var m :| 0 <= m < |tail| && tail[m] == rest[k];
          assert hours[m + 1] == rest[k];
        }
      }
    }
  }

  /** `missingHours`: the initial hours not shown, ascending. */
  function MissingHours(hours: seq<int>): (r: seq<int>)
    ensures StrictlySorted(r)
    ensures forall x :: x in r <==> x in InitialHours && x !in hours
  {
    MissingFrom(InitialHours, hours)
  }

  function MissingFrom(candidates: seq<int>, hours: seq<int>): (r: seq<int>)
    requires StrictlySorted(candidates)
    ensures StrictlySorted(r)
    ensures forall x :: x in r <==> x in candidates && x !in hours
  {
    if |candidates| == 0 then []
    else
      var rest := MissingFrom(candidates[1..], hours);
      assert forall k :: 0 <= k < |rest| ==> candidates[0] < rest[k] by {
        forall k | 0 <= k < |rest| ensures candidates[0] < rest[k] {
          assert rest[k] in rest;
          var m :| 0 <= m < |candidates[1..]| && candidates[1..][m] == rest[k];
          assert candidates[m + 1] == rest[k];
        }
      }
      assert candidates == [candidates[0]] + candidates[1..];
      if candidates[0] !in hours then [candidates[0]] + rest else rest
  }

  /** `sortedHours`. */
  function SortedHours(hours: seq<int>): (r: seq<int>)
    ensures Sorted(r)
    ensures multiset(r) == multiset(hours)
  {
    SortAsc(hours)
  }

  /** The shape the shown hours keep: strictly ascending, within 7..19. */
  predicate HoursOk(hs: seq<int>) {
    StrictlySorted(hs) && forall i :: 0 <= i < |hs| ==> 7 <= hs[i] <= 19
  }

  lemma InitialHoursOk()
    ensures HoursOk(InitialHours)
  {
  }

  /** On sorted hours, adding is inserting. */
  lemma {:induction false} AddHourIsInsert(hours: seq<int>, h: int)
    requires Sorted(hours)
    ensures AddHour(hours, h) == Insert(h, hours)
  {
    SortedUnique(AddHour(hours, h), Insert(h, hours));
  }

  /** Adding back a missing hour keeps the shape. */
  lemma AddMissingKeepsHoursOk(hours: seq<int>, h: int)
    requires HoursOk(hours)
    requires h in MissingHours(hours)
    ensures HoursOk(AddHour(hours, h))
  {
    assert h in InitialHours && h !in hours;
    assert 7 <= h <= 19;
    AddHourIsInsert(hours, h);
    InsertKeepsStrict(h, hours);
    var r := AddHour(hours, h);
    forall i | 0 <= i < |r| ensures 7 <= r[i] <= 19 {
      assert r[i] in multiset(r);
      InRange(hours, h, r[i]);
    }
  }

  lemma InRange(hours: seq<int>, h: int, y: int)
    requires HoursOk(hours) && 7 <= h <= 19
    requires y in multiset(hours) + multiset{h}
    ensures 7 <= y <= 19
  {
    if y != h {
      var m :| 0 <= m < |hours| && hours[m] == y;
    }
  }

  lemma RemoveKeepsHoursOk(hours: seq<int>, h: int)
    requires HoursOk(hours)
    ensures HoursOk(RemoveHour(hours, h))
  {
    RemoveHourKeepsOrder(hours, h);
    var r := RemoveHour(hours, h);
    forall i | 0 <= i < |r| ensures 7 <= r[i] <= 19 {
      assert r[i] in multiset(r);
      assert r[i] in multiset(hours);
      var m :| 0 <= m < |hours| && hours[m] == r[i];
    }
  }

  /** Re-adding a row that was just removed restores the hours. */
  lemma RemoveThenAdd(hours: seq<int>, h: int)
    requires HoursOk(hours) && h in hours
    ensures AddHour(RemoveHour(hours, h), h) == hours
  {
    var r := RemoveHour(hours, h);
    RemoveHourKeepsOrder(hours, h);
    var i :| 0 <= i < |hours| && hours[i] == h;
    assert multiset(hours)[h] == 1 by {
      HoursOkCountsOne(hours, h);
    }
    assert multiset(AddHour(r, h)) == multiset(hours);
    SortedUnique(AddHour(r, h), hours);
  }

  lemma {:induction false} HoursOkCountsOne(hours: seq<int>, h: int)
    requires StrictlySorted(hours)
    ensures multiset(hours)[h] <= 1
    decreases |hours|
  {
    if |hours| > 0 {
      assert hours == [hours[0]] + hours[1..];
      HoursOkCountsOne(hours[1..], h);
      if hours[0] == h {
        forall m | 0 <= m < |hours[1..]| ensures hours[1..][m] != h {
          assert hours[1..][m] == hours[m + 1];
        }
        assert h !in hours[1..];
      }
    }
  }
}
