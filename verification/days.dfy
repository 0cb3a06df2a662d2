/** Weekday ids and their canonical Monday-to-Sunday order.  A day id is the
    one-letter label of the day followed by its position, so Tuesday and
    Thursday ("T1", "T3") and the two weekend days ("S5", "S6") stay apart. */
module Days {
  import opened TimeStrings
  import opened Seqs

  type DayId = string

  /** The display labels, one per weekday, Monday first. */
  const DayLabels: seq<string> := ["M", "T", "W", "T", "F", "S", "S"]

  /** The canonical order of day ids. */
  const DayOrder: seq<DayId> := ["M0", "T1", "W2", "T3", "F4", "S5", "S6"]

  /** The id of the checkbox at position `i`: its label followed by `i`. */
  function CheckboxId(i: nat): DayId
    requires i < 7
  {
    DayLabels[i] + [Digit(i)]
  }

  /** The ids the seven day checkboxes carry are exactly the canonical order. */
  function CheckboxIds(): (ids: seq<DayId>)
    ensures ids == DayOrder
  {
    assert CheckboxId(0) == "M0" && CheckboxId(1) == "T1" && CheckboxId(2) == "W2";
    assert CheckboxId(3) == "T3" && CheckboxId(4) == "F4";
    assert CheckboxId(5) == "S5" && CheckboxId(6) == "S6";
    [CheckboxId(0), CheckboxId(1), CheckboxId(2), CheckboxId(3),
     CheckboxId(4), CheckboxId(5), CheckboxId(6)]
  }

  /** Position of a day in the canonical order; 7 for a string that is not a
      day id. */
  function Rank(d: DayId): (k: nat)
    ensures k <= 7
    ensures k < 7 <==> d in DayOrder
    ensures k < 7 ==> DayOrder[k] == d
  {
    if d == "M0" then 0
    else if d == "T1" then 1
    else if d == "W2" then 2
    else if d == "T3" then 3
    else if d == "F4" then 4
    else if d == "S5" then 5
    else if d == "S6" then 6
    else 7
  }

  lemma RankOfDayOrder(i: nat)
    requires i < 7
    ensures Rank(DayOrder[i]) == i
  {
  }

  /** A canonical selection: day ids only, in strictly increasing canonical
      position (hence without duplicates). */
  predicate IsCanonical(r: seq<DayId>) {
    && (forall i :: 0 <= i < |r| ==> Rank(r[i]) < 7)
    && (forall i, j :: 0 <= i < j < |r| ==> Rank(r[i]) < Rank(r[j]))
  }

  /** `dayOrder.slice(k).filter(d => days.includes(d))`. */
  function Keep(k: nat, days: seq<DayId>): (r: seq<DayId>)
    requires k <= 7
    ensures IsCanonical(r)
    ensures forall i :: 0 <= i < |r| ==> k <= Rank(r[i])
    ensures forall x :: x in r <==> x in DayOrder[k..] && x in days
    decreases 7 - k
  {
    if k == 7 then []
    else
      var rest := Keep(k + 1, days);
      KeepStep(k, rest, days);
      if DayOrder[k] in days then [DayOrder[k]] + rest else rest
  }

  /** One step of the filter: the day at position `k` goes in front of the
      kept later days exactly when it is among the given days. */
  lemma KeepStep(k: nat, rest: seq<DayId>, days: seq<DayId>)
    requires k < 7
    requires IsCanonical(rest)
    requires forall i :: 0 <= i < |rest| ==> k + 1 <= Rank(rest[i])
    requires forall x :: x in rest <==> x in DayOrder[k + 1..] && x in days
    ensures DayOrder[k] in days ==> KeptFrom(k, [DayOrder[k]] + rest, days)
    ensures DayOrder[k] !in days ==> KeptFrom(k, rest, days)
  {
    RankOfDayOrder(k);
    DayOrderSplit(k);
    if DayOrder[k] in days {
      ConsCanonical(DayOrder[k], rest, k);
    }
  }

  /** What `Keep(k, days)` promises of its result `r`. */
  ghost predicate KeptFrom(k: nat, r: seq<DayId>, days: seq<DayId>)
    requires k <= 7
  {
    && IsCanonical(r)
    && (forall i :: 0 <= i < |r| ==> k <= Rank(r[i]))
    && (forall x :: x in r <==> x in DayOrder[k..] && x in days)
  }

  lemma DayOrderSplit(k: nat)
    requires k < 7
    ensures forall x :: x in DayOrder[k..] <==> x == DayOrder[k] || x in DayOrder[k + 1..]
  {
    assert DayOrder[k..] == [DayOrder[k]] + DayOrder[k + 1..];
  }

  /** A day ranked `k` in front of canonical days ranked above `k`. */
  lemma ConsCanonical(d: DayId, rest: seq<DayId>, k: nat)
    requires k < 7 && Rank(d) == k
    requires IsCanonical(rest)
    requires forall i :: 0 <= i < |rest| ==> k + 1 <= Rank(rest[i])
    ensures IsCanonical([d] + rest)
    ensures forall i :: 0 <= i < |[d] + rest| ==> k <= Rank(([d] + rest)[i])
  {
    var r := [d] + rest;
    forall i | 0 <= i < |r| ensures Rank(r[i]) < 7 && k <= Rank(r[i]) {
      if i > 0 { assert r[i] == rest[i - 1]; }
    }
    forall i, j | 0 <= i < j < |r| ensures Rank(r[i]) < Rank(r[j]) {
      if i > 0 { assert r[i] == rest[i - 1]; }
      assert r[j] == rest[j - 1];
    }
  }

  /** `sortDays`: the canonical order filtered to the given days.  The result
      is canonical whatever the order of or the duplicates in the input, and
      holds exactly the input's members that are day ids. */
  function SortDays(days: seq<DayId>): (r: seq<DayId>)
    ensures IsCanonical(r)
    ensures forall x :: x in r <==> x in DayOrder && x in days
  {
    Keep(0, days)
  }

  /** A canonical sequence is determined by its members. */
  lemma {:induction false} CanonicalUnique(a: seq<DayId>, b: seq<DayId>)
    requires IsCanonical(a) && IsCanonical(b)
    requires forall x :: x in a <==> x in b
    ensures a == b
    decreases |a| + |b|
  {
    if |a| == 0 || |b| == 0 {
      NoMembersIsEmpty(a);
      NoMembersIsEmpty(b);
    } else {
      CanonicalHeads(a, b);
      forall x
        ensures x in a[1..] <==> x in b[1..]
      {
        if x in a[1..] {
          TailMember(a, b, x);
        }
        if x in b[1..] {
          TailMember(b, a, x);
        }
      }
      CanonicalTail(a);
      CanonicalTail(b);
      CanonicalUnique(a[1..], b[1..]);
      assert a == [a[0]] + a[1..] && b == [b[0]] + b[1..];
    }
  }

  /** Two canonical sequences with the same members start alike: each head
      has the least rank of the members. */
  lemma CanonicalHeads(a: seq<DayId>, b: seq<DayId>)
    requires IsCanonical(a) && IsCanonical(b) && |a| > 0 && |b| > 0
    requires forall x :: x in a <==> x in b
    ensures a[0] == b[0]
  {
    assert b[0] in a;
    var i :| 0 <= i < |a| && a[i] == b[0];
    assert a[0] in b;
    var j :| 0 <= j < |b| && b[j] == a[0];
    assert Rank(a[0]) <= Rank(a[i]);
    assert Rank(b[0]) <= Rank(b[j]);
  }

  /** A member of `a`'s tail is in `b`'s tail when the heads agree. */
  lemma TailMember(a: seq<DayId>, b: seq<DayId>, x: DayId)
    requires IsCanonical(a) && IsCanonical(b) && |a| > 0 && |b| > 0 && a[0] == b[0]
    requires forall y :: y in a <==> y in b
    requires x in a[1..]
    ensures x in b[1..]
  {
    var p :| 1 <= p < |a| && a[p] == x;
    assert Rank(a[0]) < Rank(x);
    assert x in b;
    var q :| 0 <= q < |b| && b[q] == x;
    assert q != 0;
    assert b[q] == b[1..][q - 1];
  }

  lemma CanonicalTail(a: seq<DayId>)
    requires IsCanonical(a) && |a| > 0
    ensures IsCanonical(a[1..])
  {
    var t := a[1..];
    forall i, j | 0 <= i < j < |t| ensures Rank(t[i]) < Rank(t[j]) {
      assert t[i] == a[i + 1] && t[j] == a[j + 1];
    }
  }

  lemma NoMembersIsEmpty<T>(s: seq<T>)
    ensures (forall x :: x !in s) ==> |s| == 0
  {
    if |s| > 0 {
      assert s[0] in s;
    }
  }

  /** A canonical selection is left as it is. */
  lemma {:induction false} SortDaysOfCanonical(d: seq<DayId>)
    requires IsCanonical(d)
    ensures SortDays(d) == d
  {
    forall x | x in d ensures x in DayOrder {
      var i :| 0 <= i < |d| && d[i] == x;
    }
    CanonicalUnique(SortDays(d), d);
  }

  lemma {:induction false} SortDaysIdempotent(d: seq<DayId>)
    ensures SortDays(SortDays(d)) == SortDays(d)
  {
    SortDaysOfCanonical(SortDays(d));
  }

  /** `toggleDay` of the days picker: remove the day when present, append it
      otherwise, and canonicalise either way. */
  function ToggleDay(selected: seq<DayId>, day: DayId): (r: seq<DayId>)
    ensures IsCanonical(r)
    ensures forall x :: x in r <==>
      x in DayOrder && (if x == day then day !in selected else x in selected)
  {
    if day in selected then SortDays(Without(selected, day))
    else SortDays(selected + [day])
  }

  /** Toggling the same day twice brings a canonical selection back. */
  lemma {:induction false} ToggleTwice(selected: seq<DayId>, day: DayId)
    requires IsCanonical(selected)
    ensures ToggleDay(ToggleDay(selected, day), day) == selected
  {
    var once := ToggleDay(selected, day);
    var twice := ToggleDay(once, day);
    forall x ensures x in twice <==> x in selected {
      if x in selected {
        var i :| 0 <= i < |selected| && selected[i] == x;
      }
    }
    CanonicalUnique(twice, selected);
  }

  /** The app canonicalises what the picker hands it once more, which
      changes nothing. */
  lemma {:induction false} AppResortsToggle(selected: seq<DayId>, day: DayId)
    ensures SortDays(ToggleDay(selected, day)) == ToggleDay(selected, day)
  {
    SortDaysOfCanonical(ToggleDay(selected, day));
  }
}
