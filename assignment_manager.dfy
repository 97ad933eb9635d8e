/**
 * The assignment record of the slash-command bot, its backing file, and the
 * pure helpers of `AssignmentManager`: loading, the priority clamp, the star
 * string and the RELATIVE deadline style.
 *
 * Time is an integer count of microseconds (the resolution of Python's
 * `datetime`); the model fixes no epoch, since only differences matter.
 */
module AssignmentManager {
  import opened PyDict
  import opened Text

  /** `timedelta(days=1)` in microseconds. */
  const MicrosPerDay: int := 86_400_000_000

  /** One stored assignment: its deadline, details, clamped priority, author id and creation time. */
  datatype Assignment = Assignment(deadline: int, details: string, priority: int, addedBy: int, addedAt: int)

  /** The backing file `data/assignments.json`: absent, not decodable as JSON, or a JSON object. */
  datatype StoredFile = Missing | Corrupt | Json(items: Dict<string, Assignment>)

  predicate WellFormed(f: StoredFile) {
    f.Json? ==> UniqueKeys(f.items)
  }

  /** `load_assignments`: the stored dict, or `{}` when the file is missing or fails to decode. */
  function LoadAssignments(f: StoredFile): (d: Dict<string, Assignment>)
    ensures WellFormed(f) ==> UniqueKeys(d)
    ensures f.Json? ==> d == f.items
    ensures !f.Json? ==> d == []
  {
    match f
    case Json(items) => items
    case _ => []
  }

  /** `min(max(1, priority), 5)`. */
  function ClampPriority(priority: int): (r: int)
    ensures 1 <= r <= 5
    ensures 1 <= priority <= 5 ==> r == priority
    ensures priority < 1 ==> r == 1
    ensures priority > 5 ==> r == 5
  {
    var atLeastOne := if priority < 1 then 1 else priority;
    if atLeastOne > 5 then 5 else atLeastOne
  }

  const Star: char := '\U{2B50}'

  /** `"⭐" * priority`: Python repeats a string zero times for a count below one. */
  function PriorityStars(priority: int): (r: string)
    ensures |r| == if priority < 0 then 0 else priority
    ensures forall i :: 0 <= i < |r| ==> r[i] == Star
    decreases if priority < 0 then 0 else priority
  {
    if priority <= 0 then "" else PriorityStars(priority - 1) + [Star]
  }

  /**
   * The confirmation shows as many stars as the priority the user typed, not
   * the clamped one that is stored; they agree exactly when it was in range.
   */
  lemma StarsMatchStoredPriority(priority: int)
    ensures |PriorityStars(priority)| == ClampPriority(priority) <==> 1 <= priority <= 5
  {
  }

  /** `abs(x)`. */
  function Abs(x: int): (r: nat)
    ensures r == x || r == -x
  {
    if x < 0 then -x else x
  }

  /**
   * `format_deadline(deadline, TimeFormat.RELATIVE)` with the clock reading
   * `now`: `delta.days` is the floor of the difference in days, which is
   * Dafny's division by the positive day length.
   */
  function FormatRelative(deadline: int, now: int): (r: string)
    ensures r == "Today" <==> 0 <= deadline - now < MicrosPerDay
    ensures r == "Tomorrow" <==> MicrosPerDay <= deadline - now < 2 * MicrosPerDay
  {
    var delta := deadline - now;
    if delta < 0 then DecimalString(Abs(delta / MicrosPerDay)) + " days ago"
    else if delta < MicrosPerDay then "Today"
    else if delta < 2 * MicrosPerDay then "Tomorrow"
    else "In " + DecimalString(delta / MicrosPerDay) + " days"
  }

  /** Euclidean division by the day length brackets its dividend. */
  lemma DayCount(delta: int, n: int)
    requires n * MicrosPerDay <= delta < (n + 1) * MicrosPerDay
    ensures delta / MicrosPerDay == n
  {
  }

  /**
   * A deadline that lies more than n-1 and at most n days in the past is
   * shown as "n days ago": the elapsed days are rounded up, so two hours ago
   * reads "1 days ago".
   */
  lemma RelativePast(deadline: int, now: int, n: nat)
    requires 1 <= n
    requires (n - 1) * MicrosPerDay < now - deadline <= n * MicrosPerDay
    ensures FormatRelative(deadline, now) == DecimalString(n) + " days ago"
  {
    DayCount(deadline - now, -(n as int));
  }

  /** A deadline at least n and less than n+1 days ahead, n >= 2, is shown as "In n days". */
  lemma RelativeFuture(deadline: int, now: int, n: nat)
    requires 2 <= n
    requires n * MicrosPerDay <= deadline - now < (n + 1) * MicrosPerDay
    ensures FormatRelative(deadline, now) == "In " + DecimalString(n) + " days"
  {
    DayCount(deadline - now, n);
  }

  /**
   * Read back, the text for a past deadline ends in " days ago" after a
   * number n >= 1 with the deadline more than n-1 and at most n days ago.
   */
  lemma RelativePastText(deadline: int, now: int)
    requires deadline < now
    ensures var r := FormatRelative(deadline, now);
      && |r| > 9 && r[|r| - 9..] == " days ago" && AllDigits(r[..|r| - 9])
      && var n := DigitsValue(r[..|r| - 9]);
         1 <= n && (n - 1) * MicrosPerDay < now - deadline <= n * MicrosPerDay
  {
    var delta := deadline - now;
    var n := Abs(delta / MicrosPerDay);
    var r := FormatRelative(deadline, now);
    assert r == DecimalString(n) + " days ago";
    assert r[..|r| - 9] == DecimalString(n);
    DecimalRoundTrip(n);
  }

  /**
   * Read back, the text for a deadline two or more days ahead is "In n days"
   * with n >= 2 and the deadline at least n and less than n+1 days away.
   */
  lemma RelativeFutureText(deadline: int, now: int)
    requires deadline - now >= 2 * MicrosPerDay
    ensures var r := FormatRelative(deadline, now);
      && |r| > 8 && r[..3] == "In " && r[|r| - 5..] == " days" && AllDigits(r[3..|r| - 5])
      && var n := DigitsValue(r[3..|r| - 5]);
         2 <= n && n * MicrosPerDay <= deadline - now < (n + 1) * MicrosPerDay
  {
    var n := (deadline - now) / MicrosPerDay;
    var r := FormatRelative(deadline, now);
    assert r == "In " + DecimalString(n) + " days";
    assert r[3..|r| - 5] == DecimalString(n);
    DecimalRoundTrip(n);
  }

  /** The four buckets on sample distances from a fixed clock reading. */
  lemma RelativeExamples(now: int)
    ensures FormatRelative(now - 2 * MicrosPerDay, now) == "2 days ago"
    ensures FormatRelative(now - 7_200_000_000, now) == "1 days ago"
    ensures FormatRelative(now + 21_600_000_000, now) == "Today"
    ensures FormatRelative(now + MicrosPerDay, now) == "Tomorrow"
    ensures FormatRelative(now + 9 * MicrosPerDay, now) == "In 9 days"
  {
    RelativePast(now - 2 * MicrosPerDay, now, 2);
    RelativePast(now - 7_200_000_000, now, 1);
    RelativeFuture(now + 9 * MicrosPerDay, now, 9);
  }
}
