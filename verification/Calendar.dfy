/** Calendar schedules and how often they can fire in a day (config/schedules.py). */
module Calendar {
  import opened Wrappers

  const SECONDS_IN_A_DAY := 86_400

  datatype DeclaredRange = Range(start: int, end: Option<int>, step: int)

  /** Field bounds and validate_order. */
  predicate Ordered(r: DeclaredRange) {
    && r.step >= 1
    && (r.end.Some? ==> r.end.value >= r.start)
    && (r.end.None? ==> r.step == 1)
  }

  type CalendarRange = r: DeclaredRange | Ordered(r) witness Range(0, None, 1)

  function Last(r: CalendarRange): int {
    if r.end.Some? then r.end.value else r.start
  }

  /** `v` is one of Python's range(start, last + 1, step). */
  predicate InProgression(start: int, last: int, step: int, v: int)
    requires step >= 1
  {
    start <= v <= last && (v - start) % step == 0
  }

  predicate Matches(r: CalendarRange, v: int) {
    InProgression(r.start, Last(r), r.step, v)
  }

  function Values(r: CalendarRange): set<int> {
    Progression(r.start, Last(r), r.step)
  }

  function Progression(start: int, last: int, step: int): set<int>
    requires step >= 1
  {
    set v | start <= v <= last && InProgression(start, last, step, v)
  }

  function Count(r: CalendarRange): int {
    (Last(r) - r.start) / r.step + 1
  }

  // ---------------------------------------------------------------- one range

  lemma MultipleIsBounded(k: int, step: int)
    requires step >= 1
    ensures k >= 1 ==> k * step >= step
    ensures k <= -1 ==> k * step <= -step
  {
    if k >= 1 {
      assert k * step == (k - 1) * step + step;
    } else if k <= -1 {
      assert -k * step == (-k - 1) * step + step;
    }
  }

  lemma StepBack(a: int, step: int)
    requires step >= 1
    ensures (a - step) % step == a % step && (a - step) / step == a / step - 1
  {
    var q, r, q', r' := a / step, a % step, (a - step) / step, (a - step) % step;
    assert a == q * step + r && a - step == q' * step + r';
    assert (q - 1 - q') * step == r' - r;
    MultipleIsBounded(q - 1 - q', step);
  }

  lemma SmallDividend(a: int, step: int)
    requires 0 <= a < step
    ensures a / step == 0 && a % step == a
  {
  }

  lemma {:induction false} ProgressionIsCounted(start: int, last: int, step: int)
    requires step >= 1 && start <= last
    ensures |Progression(start, last, step)| == (last - start) / step + 1
    decreases last - start
  {
    var rest := Progression(start + step, last, step);
    forall v | start < v <= last ensures v in rest <==> InProgression(start, last, step, v) {
      StepBack(v - start, step);
      if v - start < step {
        SmallDividend(v - start, step);
      }
    }
    assert Progression(start, last, step) == {start} + rest by {
      SmallDividend(0, step);
    }
    StepBack(last - start, step);
    if start + step <= last {
      ProgressionIsCounted(start + step, last, step);
    } else {
      assert rest == {};
      SmallDividend(last - start, step);
    }
  }

  // ---------------------------------------------------------------- one field

  ghost predicate FieldMatches(ranges: seq<CalendarRange>, v: int) {
    exists i :: 0 <= i < |ranges| && Matches(ranges[i], v)
  }

  function FieldValues(ranges: seq<CalendarRange>): set<int>
    decreases |ranges|
  {
    if ranges == [] then {} else FieldValues(ranges[..|ranges| - 1]) + Values(ranges[|ranges| - 1])
  }

  /** The sum over the ranges of a field. */
  function ValueCount(ranges: seq<CalendarRange>): int
    decreases |ranges|
  {
    if ranges == [] then 0 else ValueCount(ranges[..|ranges| - 1]) + Count(ranges[|ranges| - 1])
  }

  ghost predicate Disjoint(ranges: seq<CalendarRange>) {
    forall i, j :: 0 <= i < j < |ranges| ==> Values(ranges[i]) !! Values(ranges[j])
  }

  predicate Within(ranges: seq<CalendarRange>, minimum: int, maximum: int) {
    forall i :: 0 <= i < |ranges| ==> minimum <= ranges[i].start && Last(ranges[i]) <= maximum
  }

  lemma {:induction false} FieldValuesMatch(ranges: seq<CalendarRange>)
    ensures forall v :: v in FieldValues(ranges) <==> FieldMatches(ranges, v)
    decreases |ranges|
  {
    if ranges != [] {
      var front, last := ranges[..|ranges| - 1], ranges[|ranges| - 1];
      FieldValuesMatch(front);
      forall v ensures v in FieldValues(ranges) <==> FieldMatches(ranges, v) {
        assert v in Values(last) <==> Matches(last, v);
        if FieldMatches(front, v) {
          var i :| 0 <= i < |front| && Matches(front[i], v);
          assert Matches(ranges[i], v);
        }
        if Matches(last, v) {
          assert Matches(ranges[|ranges| - 1], v);
        }
        if FieldMatches(ranges, v) {
          var i :| 0 <= i < |ranges| && Matches(ranges[i], v);
          assert i == |front| || Matches(front[i], v);
        }
      }
    }
  }

  lemma DisjointNext(ranges: seq<CalendarRange>, i: nat)
    requires i < |ranges|
    ensures Disjoint(ranges[..i + 1]) <==> Disjoint(ranges[..i]) && FieldValues(ranges[..i]) !! Values(ranges[i])
  {
    var front, all := ranges[..i], ranges[..i + 1];
    FieldValuesMatch(front);
    if Disjoint(all) {
      forall k, j | 0 <= k < j < i ensures Values(front[k]) !! Values(front[j]) {
        assert all[k] == front[k] && all[j] == front[j];
      }
      forall v | v in FieldValues(front) ensures v !in Values(ranges[i]) {
        var k :| 0 <= k < |front| && Matches(front[k], v);
        assert all[k] == front[k] && all[i] == ranges[i];
        assert v in Values(all[k]);
      }
    }
    if Disjoint(front) && FieldValues(front) !! Values(ranges[i]) {
      forall k, j | 0 <= k < j < |all| ensures Values(all[k]) !! Values(all[j]) {
        if j < i {
          assert all[k] == front[k] && all[j] == front[j];
        } else {
          forall v | v in Values(all[k]) ensures v !in Values(ranges[i]) {
            assert Matches(front[k], v);
            assert FieldMatches(front, v);
          }
        }
      }
    }
  }

  lemma UnionSize(a: set<int>, b: set<int>)
    ensures |a + b| <= |a| + |b|
    ensures |a + b| == |a| + |b| <==> a !! b
  {
    assert |a + b| == |a| + |b| - |a * b|;
    DisjointIffNothingCommon(a, b);
  }

  lemma DisjointIffNothingCommon(a: set<int>, b: set<int>)
    ensures a !! b <==> a * b == {}
  {
    if a * b == {} {
      forall x | x in a ensures x !in b {
        assert x !in a * b;
      }
    }
    if a !! b {
      assert forall x :: x !in a * b;
    }
  }

  /**
    The summed counts are the number of values that the field matches exactly
    when no two ranges overlap; otherwise they are larger.
   */
  lemma {:induction false} CountIsExactIffDisjoint(ranges: seq<CalendarRange>)
    ensures |FieldValues(ranges)| <= ValueCount(ranges)
    ensures |FieldValues(ranges)| == ValueCount(ranges) <==> Disjoint(ranges)
    decreases |ranges|
  {
    if ranges != [] {
      var front, last := ranges[..|ranges| - 1], ranges[|ranges| - 1];
      CountIsExactIffDisjoint(front);
      assert ranges[..|ranges|] == ranges;
      DisjointNext(ranges, |ranges| - 1);
      UnionSize(FieldValues(front), Values(last));
      ProgressionIsCounted(last.start, Last(last), last.step);
    }
  }

  lemma SubsetIsSmaller<T>(small: set<T>, large: set<T>)
    requires small <= large
    ensures |small| <= |large|
  {
    assert large == small + (large - small);
  }

  lemma FieldValuesAreWithin(ranges: seq<CalendarRange>, minimum: int, maximum: int)
    requires Within(ranges, minimum, maximum)
    ensures FieldValues(ranges) <= Progression(minimum, maximum, 1)
  {
    FieldValuesMatch(ranges);
    forall v | v in FieldValues(ranges) ensures InProgression(minimum, maximum, 1, v) {
      var i :| 0 <= i < |ranges| && Matches(ranges[i], v);
    }
  }

  ghost predicate ValidField(ranges: seq<CalendarRange>, minimum: int, maximum: int) {
    Within(ranges, minimum, maximum) && Disjoint(ranges)
  }

  /** An accepted field counts exactly its values, of which there are at most as many as the field is wide. */
  lemma ValidFieldIsCounted(ranges: seq<CalendarRange>, minimum: int, maximum: int)
    requires ValidField(ranges, minimum, maximum) && minimum <= maximum
    ensures ValueCount(ranges) == |FieldValues(ranges)| <= maximum - minimum + 1
  {
    CountIsExactIffDisjoint(ranges);
    FieldValuesAreWithin(ranges, minimum, maximum);
    SubsetIsSmaller(FieldValues(ranges), Progression(minimum, maximum, 1));
    ProgressionIsCounted(minimum, maximum, 1);
  }

  /** The loop over the ranges of one field. */
  method ValidateField(ranges: seq<CalendarRange>, minimum: int, maximum: int) returns (valid: bool)
    ensures valid <==> ValidField(ranges, minimum, maximum)
  {
    var seen: set<int> := {};
    for i := 0 to |ranges|
      invariant seen == FieldValues(ranges[..i])
      invariant Disjoint(ranges[..i])
      invariant forall k :: 0 <= k < i ==> minimum <= ranges[k].start && Last(ranges[k]) <= maximum
    {
      var r := ranges[i];
      DisjointNext(ranges, i);
      assert ranges[..i + 1][..i] == ranges[..i];
      if r.start < minimum || Last(r) > maximum {
        return false;
      }
      var values := Values(r);
      DisjointIffNothingCommon(seen, values);
      if seen * values != {} {
        DisjointPrefix(ranges, i + 1);
        return false;
      }
      seen := seen + values;
    }
    assert ranges[..|ranges|] == ranges;
    valid := true;
  }

  lemma DisjointPrefix(ranges: seq<CalendarRange>, i: nat)
    requires i <= |ranges|
    ensures Disjoint(ranges) ==> Disjoint(ranges[..i])
  {
    if Disjoint(ranges) {
      forall k, j | 0 <= k < j < i ensures Values(ranges[..i][k]) !! Values(ranges[..i][j]) {
        assert ranges[..i][k] == ranges[k] && ranges[..i][j] == ranges[j];
      }
    }
  }

  // ---------------------------------------------------------------- the whole calendar

  /** The declared bounds on the number of ranges of a field play no part in what follows. */
  datatype CalendarSpec = CalendarSpec(
    second: seq<CalendarRange>,
    minute: seq<CalendarRange>,
    hour: seq<CalendarRange>,
    dayOfMonth: seq<CalendarRange>,
    month: seq<CalendarRange>,
    year: seq<CalendarRange>,
    dayOfWeek: seq<CalendarRange>)

  const MIN_YEAR := 2000
  const MAX_YEAR := 2100

  ghost predicate ValidCalendar(c: CalendarSpec) {
    && ValidField(c.second, 0, 59)
    && ValidField(c.minute, 0, 59)
    && ValidField(c.hour, 0, 23)
    && ValidField(c.dayOfMonth, 1, 31)
    && ValidField(c.month, 1, 12)
    && ValidField(c.year, MIN_YEAR, MAX_YEAR)
    && ValidField(c.dayOfWeek, 0, 6)
  }

  function FieldBounds(c: CalendarSpec): seq<(seq<CalendarRange>, int, int)> {
    [(c.second, 0, 59), (c.minute, 0, 59), (c.hour, 0, 23), (c.dayOfMonth, 1, 31), (c.month, 1, 12),
     (c.year, MIN_YEAR, MAX_YEAR), (c.dayOfWeek, 0, 6)]
  }

  lemma FieldBoundsCoverCalendar(c: CalendarSpec)
    ensures ValidCalendar(c) <==>
      forall k :: 0 <= k < |FieldBounds(c)| ==>
        ValidField(FieldBounds(c)[k].0, FieldBounds(c)[k].1, FieldBounds(c)[k].2)
  {
    var bounds := FieldBounds(c);
    assert |bounds| == 7;
    assert bounds[0].0 == c.second && bounds[1].0 == c.minute && bounds[2].0 == c.hour && bounds[3].0 == c.dayOfMonth;
    assert bounds[4].0 == c.month && bounds[5].0 == c.year && bounds[6].0 == c.dayOfWeek;
  }

  method ValidateFieldBounds(c: CalendarSpec) returns (valid: bool)
    ensures valid <==> ValidCalendar(c)
  {
    var bounds := FieldBounds(c);
    FieldBoundsCoverCalendar(c);
    for i := 0 to |bounds|
      invariant forall k :: 0 <= k < i ==> ValidField(bounds[k].0, bounds[k].1, bounds[k].2)
    {
      var fieldIsValid := ValidateField(bounds[i].0, bounds[i].1, bounds[i].2);
      if !fieldIsValid {
        return false;
      }
    }
    valid := true;
  }

  function MaximumDailyActions(c: CalendarSpec): int {
    ValueCount(c.second) * ValueCount(c.minute) * ValueCount(c.hour)
  }

  function Pairs<A, B>(a: set<A>, b: set<B>): set<(A, B)> {
    set x, y | x in a && y in b :: (x, y)
  }

  lemma {:induction false} RowSize<A, B>(x: A, b: set<B>)
    ensures |Pairs({x}, b)| == |b|
    decreases b
  {
    if b == {} {
      assert Pairs({x}, b) == {};
    } else {
      var y :| y in b;
      RowSize(x, b - {y});
      assert Pairs({x}, b) == Pairs({x}, b - {y}) + {(x, y)};
    }
  }

  lemma SplitRow<A, B>(a: set<A>, b: set<B>, x: A)
    requires x in a
    ensures |Pairs(a, b)| == |Pairs(a - {x}, b)| + |Pairs({x}, b)|
  {
    assert Pairs(a, b) == Pairs(a - {x}, b) + Pairs({x}, b);
    assert Pairs(a - {x}, b) * Pairs({x}, b) == {};
  }

  lemma {:induction false} PairsSize<A, B>(a: set<A>, b: set<B>)
    ensures |Pairs(a, b)| == |a| * |b|
    decreases a
  {
    if a == {} {
      assert Pairs(a, b) == {};
    } else {
      var x :| x in a;
      PairsSize(a - {x}, b);
      RowSize(x, b);
      SplitRow(a, b, x);
      assert |a| * |b| == |a - {x}| * |b| + |b|;
    }
  }

  /** The times of day at which a calendar fires, as (hour, (minute, second)). */
  function FiringTimes(c: CalendarSpec): set<(int, (int, int))> {
    Pairs(FieldValues(c.hour), Pairs(FieldValues(c.minute), FieldValues(c.second)))
  }

  lemma FiringTimesMatch(c: CalendarSpec, hour: int, minute: int, second: int)
    ensures (hour, (minute, second)) in FiringTimes(c) <==>
      FieldMatches(c.hour, hour) && FieldMatches(c.minute, minute) && FieldMatches(c.second, second)
  {
    FieldValuesMatch(c.hour);
    FieldValuesMatch(c.minute);
    FieldValuesMatch(c.second);
  }

  lemma ProductIsBounded(s: nat, m: nat, h: nat)
    requires s <= 60 && m <= 60 && h <= 24
    ensures s * m * h <= SECONDS_IN_A_DAY
    ensures s * m * h == h * (m * s)
  {
    assert s * m <= 60 * m <= 3600;
    assert s * m * h <= 3600 * h;
  }

  /** For an accepted calendar the bound is the exact number of its times of day, and at most one per second. */
  lemma MaximumDailyActionsIsExact(c: CalendarSpec)
    requires ValidCalendar(c)
    ensures MaximumDailyActions(c) == |FiringTimes(c)| <= SECONDS_IN_A_DAY
  {
    ValidFieldIsCounted(c.second, 0, 59);
    ValidFieldIsCounted(c.minute, 0, 59);
    ValidFieldIsCounted(c.hour, 0, 23);
    PairsSize(FieldValues(c.minute), FieldValues(c.second));
    PairsSize(FieldValues(c.hour), Pairs(FieldValues(c.minute), FieldValues(c.second)));
    ProductIsBounded(|FieldValues(c.second)|, |FieldValues(c.minute)|, |FieldValues(c.hour)|);
  }
}
