/** Reading-plan progress: `plan id → day → true`. Unlike the tracker, a
    plan whose last day is un-ticked keeps its (now empty) entry. */
module Plans {
  import opened Wrappers
  import opened Progress

  /** The day list's toggle: a truthy day is removed, any other is set to
      `true`, and the plan's map is stored back even when empty. */
  function ToggleDay(p: ProgressMap, plan: string, day: int): (r: ProgressMap)
    ensures Marked(r, plan, day) <==> !Marked(p, plan, day)
    ensures plan in r
    ensures SameOtherKeys(ChaptersOf(p, plan), r[plan], day)
    ensures SameOtherBooks(p, r, plan)
    ensures |r[plan]| == |ChaptersOf(p, plan)| +
      (if Marked(p, plan, day) then -1 else if day in ChaptersOf(p, plan) then 0 else 1)
    ensures AllTrue(p) ==> AllTrue(r)
  {
    var pp := ChaptersOf(p, plan);
    assert AllTrue(p) ==> AllTrueIn(pp);
    p[plan := if Marked(p, plan, day) then ClearFlag(pp, day) else SetFlag(pp, day)]
  }

  /** "Complete today" on a day's page: sets the day to `true` when both a
      plan and a day are selected, and does nothing otherwise. */
  function CompleteDay(p: ProgressMap, plan: Option<string>, day: Option<int>): (r: ProgressMap)
    ensures plan.None? || day.None? ==> r == p
    ensures plan.Some? && day.Some? ==>
      plan.value in r && Marked(r, plan.value, day.value)
      && SameOtherKeys(ChaptersOf(p, plan.value), r[plan.value], day.value)
      && SameOtherBooks(p, r, plan.value)
      && |r[plan.value]| == |ChaptersOf(p, plan.value)| + (if day.value in ChaptersOf(p, plan.value) then 0 else 1)
    ensures AllTrue(p) ==> AllTrue(r)
  {
    if plan.None? || day.None? then p
    else
      var pp := ChaptersOf(p, plan.value);
      assert AllTrue(p) ==> AllTrueIn(pp);
      p[plan.value := SetFlag(pp, day.value)]
  }

  /** `isCompleted` on both the day list and a day's page: the day is
      stored with a truthy flag. */
  predicate IsDayCompleted(p: ProgressMap, plan: string, day: int): (r: bool)
    ensures r <==> plan in p && day in p[plan] && p[plan][day]
  {
    Marked(p, plan, day)
  }

  /** `Object.keys(progress[plan.id] || {}).length`: every stored day counts,
      whatever its flag; when only `true` is stored, that is the number of
      completed days. */
  function CompletedDays(p: ProgressMap, plan: string): (r: nat)
    ensures r == |ChaptersOf(p, plan).Keys|
    ensures r == 0 <==> ChaptersOf(p, plan) == map[]
    ensures AllTrue(p) ==> r == |set d | d in ChaptersOf(p, plan) && IsDayCompleted(p, plan, d)|
  {
    var m := ChaptersOf(p, plan);
    assert AllTrue(p) ==> (set d | d in m && IsDayCompleted(p, plan, d)) == m.Keys by {
      if AllTrue(p) && plan in p { assert AllTrueIn(p[plan]); }
    }
    |m|
  }

  /** A toggle moves the plan's count by one day at most: down when the day
      was completed, up when it was not stored, not at all for a stored
      `false`. With only `true` stored it always moves by exactly one, and
      other plans keep their count. */
  lemma CompletedDaysAfterToggle(p: ProgressMap, plan: string, day: int, other: string)
    ensures CompletedDays(ToggleDay(p, plan, day), plan) == CompletedDays(p, plan) +
      (if IsDayCompleted(p, plan, day) then -1 else if day in ChaptersOf(p, plan) then 0 else 1)
    ensures AllTrue(p) ==>
      CompletedDays(ToggleDay(p, plan, day), plan) == CompletedDays(p, plan) + (if IsDayCompleted(p, plan, day) then -1 else 1)
    ensures other != plan ==> CompletedDays(ToggleDay(p, plan, day), other) == CompletedDays(p, other)
  {
    var r := ToggleDay(p, plan, day);
    assert ChaptersOf(r, plan) == r[plan];
    if AllTrue(p) && day in ChaptersOf(p, plan) {
      assert plan in p && AllTrueIn(p[plan]);
    }
    if other != plan {
      assert ChaptersOf(r, other) == ChaptersOf(p, other);
    }
  }

  /** "Complete today" never lowers a plan's count and raises it by at most
      one day; it raises it exactly when the day was not stored. */
  lemma CompletedDaysAfterComplete(p: ProgressMap, plan: Option<string>, day: Option<int>, q: string)
    ensures var n, n' := CompletedDays(p, q), CompletedDays(CompleteDay(p, plan, day), q);
      n <= n' <= n + 1
    ensures plan.Some? && day.Some? && plan.value == q ==>
      (CompletedDays(CompleteDay(p, plan, day), q) == CompletedDays(p, q) + 1 <==> day.value !in ChaptersOf(p, q))
  {
    var r := CompleteDay(p, plan, day);
    if plan.Some? && day.Some? {
      if plan.value == q {
        assert ChaptersOf(r, q) == r[q];
      } else {
        assert ChaptersOf(r, q) == ChaptersOf(p, q);
      }
    }
  }

  /** Completing a day twice is the same as completing it once. */
  lemma CompleteDayIdempotent(p: ProgressMap, plan: Option<string>, day: Option<int>)
    ensures CompleteDay(CompleteDay(p, plan, day), plan, day) == CompleteDay(p, plan, day)
  {
    if plan.Some? && day.Some? {
      var r := CompleteDay(p, plan, day);
      assert SetFlag(r[plan.value], day.value) == r[plan.value];
    }
  }

  /** Toggling the same day twice restores every day's completed status. */
  lemma ToggleDayTwiceStatus(p: ProgressMap, plan: string, day: int)
    ensures forall b, d :: Marked(ToggleDay(ToggleDay(p, plan, day), plan, day), b, d) <==> Marked(p, b, d)
  {
    var p1 := ToggleDay(p, plan, day);
    var p2 := ToggleDay(p1, plan, day);
    forall b, d ensures Marked(p2, b, d) <==> Marked(p, b, d) {
      if b == plan && d != day {
        assert ChaptersOf(p2, b) == p2[plan] && ChaptersOf(p1, b) == p1[plan];
      }
    }
  }

  /** With only `true` flags stored and the plan already present, toggling
      the same day twice restores the map itself. */
  lemma ToggleDayTwice(p: ProgressMap, plan: string, day: int)
    requires AllTrue(p) && plan in p
    ensures ToggleDay(ToggleDay(p, plan, day), plan, day) == p
  {
    var p1 := ToggleDay(p, plan, day);
    var p2 := ToggleDay(p1, plan, day);
    var m, m2 := p[plan], p2[plan];
    assert AllTrueIn(m) && AllTrueIn(m2);
    forall k | k != day ensures (k in m2 <==> k in m) && (k in m2 ==> m2[k] == m[k]) {
      assert k in p1[plan] <==> k in m;
    }
    forall k | k in m ensures k in m2 && m2[k] == m[k] {
      if k == day { assert Marked(p, plan, day); }
    }
    forall k | k in m2 ensures k in m {
      if k == day { assert Marked(p2, plan, day); }
    }
    assert m.Keys == m2.Keys;
    assert m2 == m;
    forall b | b in p ensures b in p2 && p2[b] == p[b] {
      if b != plan { assert b in p1; }
    }
    forall b | b in p2 ensures b in p {
      if b != plan { assert b in p1; }
    }
    assert p.Keys == p2.Keys;
  }

  /** For a plan with no entry yet the double toggle leaves an empty entry
      behind, so the map is not restored. */
  lemma ToggleDayTwiceLeavesEmptyPlan()
    ensures ToggleDay(ToggleDay(map[], "plan", 1), "plan", 1) == map["plan" := map[]]
  {
    var p1 := ToggleDay(map[], "plan", 1);
    assert p1 == map["plan" := map[1 := true]];
    assert Marked(p1, "plan", 1);
    assert map[1 := true] - {1} == map[];
  }
}
