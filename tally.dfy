/**
  Custom attendance counters of one student in one classroom: how many of the
  classroom's sessions the student attended, attended late, or missed, kept
  consistent with an externally supplied number of sessions.

  Setting the present count recomputes the absent count from what is left;
  setting the absent count splits what is left between present and late in
  their former proportion; a final clamp lowers the absent count when the three
  counters together exceed the number of sessions.
 */
module AttendanceTally {

  /** present_count, late_count and absent_count of a custom attendance record. */
  datatype Tally = Tally(present: int, late: int, absent: int) {

    function Sum(): int {
      present + late + absent
    }

    predicate NonNegative() {
      present >= 0 && late >= 0 && absent >= 0
    }
  }

  /** Python's max(0, x). */
  function Max0(x: int): (r: int)
    ensures r >= 0 && r >= x
    ensures r == x || r == 0
  {
    if x < 0 then 0 else x
  }

  /**
    Python's int() applied to the exact quotient n / d (d > 0): the quotient
    rounded toward zero, which for negative n is not Dafny's Euclidean division.
   */
  function TruncDiv(n: int, d: int): (q: int)
    requires d > 0
    ensures n >= 0 ==> q >= 0 && d * q <= n < d * (q + 1)
    ensures n < 0 ==> q <= 0 && d * (q - 1) < n <= d * q
  {
    if n >= 0 then
      DivBounds(n, d);
      n / d
    else
      DivBounds(-n, d);
      assert d * (-((-n) / d)) == -(d * ((-n) / d));
      assert d * (-((-n) / d) - 1) == -(d * ((-n) / d + 1));
      -((-n) / d)
  }

  /** Euclidean division of a non-negative n by a positive d, bounded on both sides. */
  lemma DivBounds(n: int, d: int)
    requires n >= 0 && d > 0
    ensures n / d >= 0 && d * (n / d) <= n < d * (n / d + 1)
  {
    var q, r := n / d, n % d;
    assert n == d * q + r && 0 <= r < d;
    assert d * (q + 1) == d * q + d;
    if q < 0 {
      MulMonotone(d, q, -1);
    }
  }

  /**
    The counters after present_count is set to v: late is kept and absent
    becomes whatever the sessions leave over, never below zero.
   */
  function WithPresent(t: Tally, v: int, total: int): (r: Tally)
    ensures r.present == v && r.late == t.late
    ensures r.absent >= 0
    ensures v + t.late <= total ==> r.Sum() == total
    ensures v + t.late >= total ==> r.absent == 0
  {
    Tally(v, t.late, Max0(total - v - t.late))
  }

  /**
    The counters after absent_count is set to a: the sessions left over are
    shared between present and late in their former ratio, truncating the
    present share; everything goes to present when there was no present or
    late before, and nothing is left when a reaches the number of sessions.
   */
  function WithAbsent(t: Tally, a: int, total: int): (r: Tally)
    ensures r.absent == a
    ensures a >= total ==> r.present == 0 && r.late == 0
    ensures a < total ==> r.present + r.late == total - a
    ensures a < total && t.present + t.late <= 0 ==> r.present == total - a && r.late == 0
  {
    var remaining := Max0(total - a);
    if remaining > 0 then
      var priorTotal := t.present + t.late;
      if priorTotal > 0 then
        var present := TruncDiv(remaining * t.present, priorTotal);
        Tally(present, remaining - present, a)
      else
        Tally(remaining, 0, a)
    else
      Tally(0, 0, a)
  }

  /**
    The final validation: when the counters exceed the number of sessions,
    absent is lowered to what present and late leave over (never below zero).
   */
  function Clamped(t: Tally, total: int): (r: Tally)
    ensures r.present == t.present && r.late == t.late
    ensures t.Sum() <= total ==> r == t
    ensures t.Sum() > total ==> r.absent >= 0 && r.Sum() == if t.present + t.late <= total then total else t.present + t.late
    ensures t.absent >= 0 ==> r.absent <= t.absent
    ensures t.present + t.late <= total ==> r.Sum() <= total
  {
    if t.Sum() > total then t.(absent := Max0(total - t.present - t.late)) else t
  }

  /** q * d <= n together with n < (q + 1) * d and n <= m * d gives q <= m. */
  lemma QuotientBound(q: int, n: int, d: int, m: int)
    requires d > 0 && d * q <= n && n <= d * m
    ensures q <= m
  {
    if q > m {
      MulMonotone(d, m + 1, q);
    }
  }

  lemma MulMonotone(d: int, x: int, y: int)
    requires d >= 0 && x <= y
    ensures d * x <= d * y
  {
    assert d * y - d * x == d * (y - x);
  }

  /**
    With non-negative former present and late counts, setting absent below the
    number of sessions gives present the truncated share
    (total - a) * present / (present + late) and late the rest: late is never
    given less than its exact share.
   */
  lemma WithAbsentSplitsByRatio(t: Tally, a: int, total: int)
    requires t.present >= 0 && t.late >= 0 && t.present + t.late > 0
    requires a < total
    ensures var r := WithAbsent(t, a, total);
      && r.present >= 0 && r.late >= 0
      && r.present * (t.present + t.late) <= (total - a) * t.present < (r.present + 1) * (t.present + t.late)
      && (total - a) * t.late <= r.late * (t.present + t.late)
  {
    var r := WithAbsent(t, a, total);
    var remaining, d := total - a, t.present + t.late;
    var q := TruncDiv(remaining * t.present, d);
    assert r.present == q && r.late == remaining - q;
    MulMonotone(remaining, t.present, d);
    assert remaining * t.present <= d * remaining;
    QuotientBound(q, remaining * t.present, d, remaining);
    assert (remaining - q) * d == remaining * t.present + remaining * t.late - q * d;
  }

  /**
    The counts stay non-negative under each operation, as long as the value a
    caller sets is itself non-negative.
   */
  lemma OperationsKeepNonNegative(t: Tally, v: int, total: int)
    requires t.NonNegative() && v >= 0
    ensures WithPresent(t, v, total).NonNegative()
    ensures WithAbsent(t, v, total).NonNegative()
    ensures Clamped(t, total).NonNegative()
  {
    if v < total && t.present + t.late > 0 {
      WithAbsentSplitsByRatio(t, v, total);
    }
  }

  /**
    An absent update followed by the final clamp accounts for exactly the
    number of sessions, whatever absent value was requested.
   */
  lemma AbsentThenClampMatchesTotal(t: Tally, a: int, total: int)
    requires total >= 0
    ensures Clamped(WithAbsent(t, a, total), total).Sum() == total
  {
  }

  /** Truncated division undoes multiplication by the same positive factor. */
  lemma TruncDivCancels(d: int, x: int)
    requires d > 0
    ensures TruncDiv(d * x, d) == x
  {
    var q := TruncDiv(d * x, d);
    if x >= 0 {
      MulMonotone(d, 0, x);
      QuotientBound(q, d * x, d, x);
      QuotientBound(x, d * x, d, q + 1);
      if x < q + 1 && x != q { MulMonotone(d, x + 1, q); }
    } else {
      MulMonotone(d, x, 0);
      if q < x { MulMonotone(d, q, x - 1); }
      if q > x { MulMonotone(d, x + 1, q); }
    }
  }

  /**
    Applying the same update twice in a row gives the same counters as
    applying it once.
   */
  lemma UpdatesAreIdempotent(t: Tally, v: int, total: int)
    ensures WithPresent(WithPresent(t, v, total), v, total) == WithPresent(t, v, total)
    ensures WithAbsent(WithAbsent(t, v, total), v, total) == WithAbsent(t, v, total)
    ensures Clamped(Clamped(t, total), total) == Clamped(t, total)
  {
    var once := WithAbsent(t, v, total);
    if v < total {
      var remaining := total - v;
      assert once.present + once.late == remaining;
      TruncDivCancels(remaining, once.present);
      assert remaining * once.present == once.present * remaining;
    }
  }

  /**
    A present update alone does not keep the counters within the sessions: with
    30 sessions and 5 late, setting present to 28 gives 33 in all, and only the
    final clamp cannot bring that down, since it lowers absent alone.
   */
  lemma PresentUpdateCanExceedTotal()
    ensures WithPresent(Tally(20, 5, 5), 28, 30) == Tally(28, 5, 0)
    ensures Clamped(WithPresent(Tally(20, 5, 5), 28, 30), 30).Sum() == 33
  {
  }

  /** A student's custom attendance record, whose counters the updates reassign. */
  class CustomAttendance {
    var presentCount: int
    var lateCount: int
    var absentCount: int

    function Counts(): Tally
      reads this
    {
      Tally(presentCount, lateCount, absentCount)
    }

    constructor (present: int, late: int, absent: int)
      ensures Counts() == Tally(present, late, absent)
    {
      presentCount, lateCount, absentCount := present, late, absent;
    }

    /** Sets present_count to v and recalculates absent_count as total - present - late. */
    method SetPresent(v: int, total: int)
      modifies this
      ensures Counts() == WithPresent(old(Counts()), v, total)
      ensures lateCount == old(lateCount)
    {
      presentCount := v;
      absentCount := Max0(total - v - lateCount);
    }

    /** Sets absent_count to a and redistributes the remaining sessions. */
    method SetAbsent(a: int, total: int)
      modifies this
      ensures Counts() == WithAbsent(old(Counts()), a, total)
      ensures a < total ==> presentCount + lateCount + absentCount == total
    {
      var currentPresent, currentLate := presentCount, lateCount;
      absentCount := a;
      var remaining := Max0(total - a);
      if remaining > 0 {
        var currentPresentLateTotal := currentPresent + currentLate;
        if currentPresentLateTotal > 0 {
          presentCount := TruncDiv(remaining * currentPresent, currentPresentLateTotal);
          lateCount := remaining - presentCount;
        } else {
          presentCount := remaining;
          lateCount := 0;
        }
      } else {
        presentCount := 0;
        lateCount := 0;
      }
    }

    /** The final validation: lowers absent_count when the total exceeds the sessions. */
    method Clamp(total: int)
      modifies this
      ensures Counts() == Clamped(old(Counts()), total)
      ensures presentCount == old(presentCount) && lateCount == old(lateCount)
    {
      var calculatedTotal := presentCount + lateCount + absentCount;
      if calculatedTotal > total {
        absentCount := Max0(total - presentCount - lateCount);
      }
    }
  }

  /**
    The scenario of the script: 30 sessions, starting from 20 present, 5 late
    and 5 absent; present is raised to 25, then absent is set to 15, then to 35
    followed by the final clamp.
   */
  method WorkedScenario() returns (afterPresent: Tally, afterAbsent: Tally, afterOverflow: Tally, afterClamp: Tally)
    ensures afterPresent == Tally(25, 5, 0)
    ensures afterAbsent == Tally(12, 3, 15)
    ensures afterOverflow == Tally(0, 0, 35)
    ensures afterClamp == Tally(0, 0, 30)
  {
    var totalSessions := 30;
    var record := new CustomAttendance(20, 5, 5);
    record.SetPresent(25, totalSessions);
    afterPresent := record.Counts();
    record.SetAbsent(15, totalSessions);
    afterAbsent := record.Counts();
    record.SetAbsent(35, totalSessions);
    afterOverflow := record.Counts();
    record.Clamp(totalSessions);
    afterClamp := record.Counts();
  }
}
