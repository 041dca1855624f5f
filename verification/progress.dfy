/**
 * The statistics of progress.php (and the calculateProgress helper it
 * shares with index.php and profile.php). Nothing here changes the tasks
 * table; every figure is computed from a snapshot of it.
 */
module Progress {
  import opened Php
  import opened Rows
  import opened Tasks
  import opened TaskQuery

  // ---------------------------------------------------------------------------
  // Percentages

  /** `total > 0 ? (completed / total) * 100 : 0` */
  function Percentage(completed: nat, total: nat): (r: real)
    ensures total == 0 ==> r == 0.0
    ensures completed <= total ==> 0.0 <= r <= 100.0
  {
    if total > 0 then (completed as real / total as real) * 100.0 else 0.0
  }

  /**
   * With at least one task, the percentage is the completed share scaled to
   * 100: it is 100 exactly when all are completed and 0 exactly when none is.
   */
  lemma PercentageExtremes(completed: nat, total: nat)
    requires total > 0
    ensures Percentage(completed, total) * (total as real) == (completed as real) * 100.0
    ensures Percentage(completed, total) == 100.0 <==> completed == total
    ensures Percentage(completed, total) == 0.0 <==> completed == 0
  {
    var r := Percentage(completed, total);
    assert r * (total as real) == (completed as real) * 100.0;
  }

  /**
   * calculateProgress: 0 for a user without tasks, otherwise the share of
   * the user's tasks that are completed, in percent.
   */
  function OverallProgress(rows: seq<Task>, owner: int): (r: real)
    ensures (forall t :: t in rows ==> t.owner != owner) ==> r == 0.0
    ensures 0.0 <= r <= 100.0
    ensures r == 100.0 <==> (exists t :: t in rows && t.owner == owner) && forall t :: t in rows && t.owner == owner ==> t.completed
    ensures r == 0.0 <==> forall t :: t in rows && t.owner == owner ==> !t.completed
  {
    var c := StatusCounts(rows, owner);
    if c.total == 0 then 0.0
    else
      PercentageExtremes(c.completed, c.total);
      Percentage(c.completed, c.total)
  }

  /** The pending figure of the completion chart, `total - completed`, is the number of pending tasks. */
  function ChartPending(rows: seq<Task>, owner: int): (r: int)
    ensures r >= 0
    ensures r == |Select(rows, WithStatus(owner, false))|
    ensures r == 0 <==> forall t :: t in rows && t.owner == owner ==> t.completed
  {
    var c := StatusCounts(rows, owner);
    c.total - c.completed
  }

  // ---------------------------------------------------------------------------
  // Buckets by priority

  /** The figures shown for one priority, week or month. */
  datatype Bucket = Bucket(total: nat, completed: nat, percentage: real)

  function BucketOf(total: nat, completed: nat): Bucket
  {
    Bucket(total, completed, Percentage(completed, total))
  }

  function WithPriority(owner: int, p: Priority): Task -> bool
  {
    (t: Task) => t.owner == owner && t.priority == p
  }

  function DoneWithPriority(owner: int, p: Priority): Task -> bool
  {
    (t: Task) => t.owner == owner && t.priority == p && t.completed
  }

  /** `COUNT(*)` of the user's tasks with priority p. */
  function PriorityTotal(rows: seq<Task>, owner: int, p: Priority): nat
  {
    |Select(rows, WithPriority(owner, p))|
  }

  /** `SUM(completed = 1)` over the user's tasks with priority p. */
  function PriorityDone(rows: seq<Task>, owner: int, p: Priority): nat
  {
    |Select(rows, DoneWithPriority(owner, p))|
  }

  /** The figures of priority p: no more completed tasks than tasks, a percentage between 0 and 100, all zero without tasks. */
  function PriorityBucket(rows: seq<Task>, owner: int, p: Priority): (b: Bucket)
    ensures b.total == PriorityTotal(rows, owner, p) && b.completed == PriorityDone(rows, owner, p)
    ensures b.completed <= b.total
    ensures 0.0 <= b.percentage <= 100.0
    ensures b.total == 0 ==> b == Bucket(0, 0, 0.0)
  {
    SelectMonotone(rows, DoneWithPriority(owner, p), WithPriority(owner, p));
    BucketOf(PriorityTotal(rows, owner, p), PriorityDone(rows, owner, p))
  }

  /** One row of the `GROUP BY priority` result. */
  datatype PriorityRow = PriorityRow(priority: Priority, total: nat, completed: nat)

  function PriorityRowOf(rows: seq<Task>, owner: int, p: Priority): PriorityRow
  {
    PriorityRow(p, PriorityTotal(rows, owner, p), PriorityDone(rows, owner, p))
  }

  /**
   * The result of `GROUP BY priority`: a row for each priority that has at
   * least one of the user's tasks. The order of the rows is not specified
   * by the query; this one lists them low, medium, high.
   */
  function PriorityGroups(rows: seq<Task>, owner: int): (r: seq<PriorityRow>)
    ensures forall g :: g in r ==> g.total > 0 && g.total == PriorityTotal(rows, owner, g.priority)
                                   && g.completed == PriorityDone(rows, owner, g.priority)
    ensures PriorityTotal(rows, owner, Low) > 0 ==> PriorityRowOf(rows, owner, Low) in r
    ensures PriorityTotal(rows, owner, Medium) > 0 ==> PriorityRowOf(rows, owner, Medium) in r
    ensures PriorityTotal(rows, owner, High) > 0 ==> PriorityRowOf(rows, owner, High) in r
  {
    (if PriorityTotal(rows, owner, Low) > 0 then [PriorityRowOf(rows, owner, Low)] else [])
    + (if PriorityTotal(rows, owner, Medium) > 0 then [PriorityRowOf(rows, owner, Medium)] else [])
    + (if PriorityTotal(rows, owner, High) > 0 then [PriorityRowOf(rows, owner, High)] else [])
  }

  /**
   * `$priorityCounts`: filled from the grouped rows, then completed with a
   * zero entry for every priority that had none. Every priority has an
   * entry, and each entry holds the figures of its tasks.
   */
  method PriorityProgress(rows: seq<Task>, owner: int) returns (counts: map<Priority, Bucket>)
    ensures forall p: Priority :: p in counts
    ensures forall p :: p in counts ==> counts[p] == PriorityBucket(rows, owner, p)
  {
    var groups := PriorityGroups(rows, owner);
    counts := BucketsOfGroups(rows, owner, groups);
    forall p | PriorityTotal(rows, owner, p) > 0
      ensures p in counts
    {
      assert PriorityRowOf(rows, owner, p) in groups by {
        match p
        case Low =>
        case Medium =>
        case High =>
      }
    }
    counts := WithDefaults(counts);
  }

  /** The loop over the grouped rows: `$priorityCounts[$row['priority']] = [...]`. */
  method BucketsOfGroups(rows: seq<Task>, owner: int, groups: seq<PriorityRow>) returns (counts: map<Priority, Bucket>)
    requires forall g :: g in groups ==> g.total == PriorityTotal(rows, owner, g.priority)
                                         && g.completed == PriorityDone(rows, owner, g.priority)
    ensures forall p :: p in counts ==> counts[p] == PriorityBucket(rows, owner, p)
    ensures forall g :: g in groups ==> g.priority in counts
  {
    counts := map[];
    for i := 0 to |groups|
      invariant forall p :: p in counts ==> counts[p] == PriorityBucket(rows, owner, p)
      invariant forall g :: g in groups[..i] ==> g.priority in counts
    {
      var g := groups[i];
      assert g in groups;
      assert groups[..i + 1] == groups[..i] + [g];
      counts := counts[g.priority := BucketOf(g.total, g.completed)];
    }
    assert groups[..|groups|] == groups;
  }

  /**
   * The loop over 'low', 'medium', 'high' that gives every priority
   * without an entry the entry {total 0, completed 0, percentage 0}.
   */
  method WithDefaults(counts: map<Priority, Bucket>) returns (filled: map<Priority, Bucket>)
    ensures forall p: Priority :: p in filled
    ensures forall p :: p in counts ==> filled[p] == counts[p]
    ensures forall p :: p !in counts ==> filled[p] == Bucket(0, 0, 0.0)
  {
    filled := counts;
    var all := [Low, Medium, High];
    for i := 0 to 3
      invariant forall p :: p in counts ==> p in filled && filled[p] == counts[p]
      invariant forall p :: p in filled && p !in counts ==> filled[p] == Bucket(0, 0, 0.0)
      invariant forall j :: 0 <= j < i ==> all[j] in filled
    {
      if all[i] !in filled {
        filled := filled[all[i] := Bucket(0, 0, 0.0)];
      }
    }
    forall p: Priority
      ensures p in filled
    {
      var k := if p == Low then 0 else if p == Medium then 1 else 2;
      assert all[k] == p;
    }
  }

  /** The priority buckets partition the user's tasks. */
  lemma {:induction false} PriorityTotals(rows: seq<Task>, owner: int)
    ensures PriorityTotal(rows, owner, Low) + PriorityTotal(rows, owner, Medium) + PriorityTotal(rows, owner, High)
            == |OwnedBy(rows, owner)|
  {
    if rows != [] {
      var init, last := rows[..|rows| - 1], rows[|rows| - 1];
      PriorityTotals(init, owner);
      SplitLast(rows);
      SelectAppend(init, last, OfOwner(owner));
      SelectAppend(init, last, WithPriority(owner, Low));
      SelectAppend(init, last, WithPriority(owner, Medium));
      SelectAppend(init, last, WithPriority(owner, High));
    }
  }

  /** The completed counts of the priority buckets add up to the user's completed tasks. */
  lemma {:induction false} PriorityDoneCounts(rows: seq<Task>, owner: int)
    ensures PriorityDone(rows, owner, Low) + PriorityDone(rows, owner, Medium) + PriorityDone(rows, owner, High)
            == |Select(rows, WithStatus(owner, true))|
  {
    if rows != [] {
      var init, last := rows[..|rows| - 1], rows[|rows| - 1];
      PriorityDoneCounts(init, owner);
      SplitLast(rows);
      SelectAppend(init, last, WithStatus(owner, true));
      SelectAppend(init, last, DoneWithPriority(owner, Low));
      SelectAppend(init, last, DoneWithPriority(owner, Medium));
      SelectAppend(init, last, DoneWithPriority(owner, High));
    }
  }

  /** Summed over the three buckets, the totals and completed counts are those of calculateProgress. */
  lemma PriorityPartition(rows: seq<Task>, owner: int)
    ensures PriorityTotal(rows, owner, Low) + PriorityTotal(rows, owner, Medium) + PriorityTotal(rows, owner, High)
            == StatusCounts(rows, owner).total
    ensures PriorityDone(rows, owner, Low) + PriorityDone(rows, owner, Medium) + PriorityDone(rows, owner, High)
            == StatusCounts(rows, owner).completed
  {
    PriorityTotals(rows, owner);
    PriorityDoneCounts(rows, owner);
  }

  // ---------------------------------------------------------------------------
  // Grouping by calendar period

  /** A (year, week) or (year, month) pair: what the weekly and monthly queries group by. */
  datatype Period = Period(year: int, number: int)

  /** `ORDER BY year ASC, week ASC` (and the '%Y-%m' order of months). */
  predicate Before(a: Period, b: Period)
  {
    a.year < b.year || (a.year == b.year && a.number < b.number)
  }

  /** One row of a grouped query: a period and the counts of its tasks. */
  datatype Group = Group(period: Period, total: nat, completed: nat)

  ghost predicate Ascending(gs: seq<Group>)
  {
    forall i, j :: 0 <= i < j < |gs| ==> Before(gs[i].period, gs[j].period)
  }

  /** Every group counts at least one task and no more completed tasks than tasks. */
  ghost predicate WellCounted(gs: seq<Group>)
  {
    forall g :: g in gs ==> 1 <= g.total && g.completed <= g.total
  }

  /** The tasks counted for period q. */
  function TotalAt(gs: seq<Group>, q: Period): nat
  {
    if gs == [] then 0 else (if gs[0].period == q then gs[0].total else 0) + TotalAt(gs[1..], q)
  }

  /** The completed tasks counted for period q. */
  function DoneAt(gs: seq<Group>, q: Period): nat
  {
    if gs == [] then 0 else (if gs[0].period == q then gs[0].completed else 0) + DoneAt(gs[1..], q)
  }

  lemma {:induction false} AbsentPeriod(gs: seq<Group>, q: Period)
    requires forall g :: g in gs ==> g.period != q
    ensures TotalAt(gs, q) == 0 && DoneAt(gs, q) == 0
  {
    if gs != [] {
      assert gs[0] in gs;
      AbsentPeriod(gs[1..], q);
    }
  }

  /** In an ascending list a group's own counts are all that is counted for its period. */
  lemma {:induction false} GroupCounts(gs: seq<Group>, i: int)
    requires Ascending(gs) && 0 <= i < |gs|
    ensures TotalAt(gs, gs[i].period) == gs[i].total && DoneAt(gs, gs[i].period) == gs[i].completed
  {
    if i == 0 {
      AbsentPeriod(gs[1..], gs[0].period);
    } else {
      assert gs[0].period != gs[i].period;
      GroupCounts(gs[1..], i - 1);
    }
  }

  /** Counting one more task of period p, done or not, into an ascending list of groups. */
  function AddTo(gs: seq<Group>, p: Period, done: bool): (r: seq<Group>)
    requires Ascending(gs)
    ensures Ascending(r)
    ensures forall g :: g in r ==> g in gs || g.period == p
    ensures WellCounted(gs) ==> WellCounted(r)
  {
    var one := if done then 1 else 0;
    if gs == [] then
      [Group(p, 1, one)]
    else if gs[0].period == p then
      [Group(p, gs[0].total + 1, gs[0].completed + one)] + gs[1..]
    else if Before(p, gs[0].period) then
      [Group(p, 1, one)] + gs
    else
      var rest := AddTo(gs[1..], p, done);
      [gs[0]] + rest
  }

  /** Adding a task of period p adds one to p's count (and to its completed count when it is done), and nothing elsewhere. */
  lemma {:induction false} AddToCounts(gs: seq<Group>, p: Period, done: bool, q: Period)
    requires Ascending(gs)
    ensures TotalAt(AddTo(gs, p, done), q) == TotalAt(gs, q) + (if q == p then 1 else 0)
    ensures DoneAt(AddTo(gs, p, done), q) == DoneAt(gs, q) + (if q == p && done then 1 else 0)
  {
    var r := AddTo(gs, p, done);
    if gs == [] {
    } else if gs[0].period == p {
      assert r[1..] == gs[1..];
    } else if Before(p, gs[0].period) {
      assert r[1..] == gs;
    } else {
      AddToCounts(gs[1..], p, done, q);
      assert r[1..] == AddTo(gs[1..], p, done);
    }
  }

  /** The tasks kept by the WHERE clause whose period is q. */
  function InPeriod(keep: Task -> bool, period: Task -> Period, q: Period): Task -> bool
  {
    (t: Task) => keep(t) && period(t) == q
  }

  function DoneInPeriod(keep: Task -> bool, period: Task -> Period, q: Period): Task -> bool
  {
    (t: Task) => keep(t) && period(t) == q && t.completed
  }

  /** `COUNT(*)` of the kept tasks of period q. */
  function CountIn(rows: seq<Task>, keep: Task -> bool, period: Task -> Period, q: Period): nat
  {
    |Select(rows, InPeriod(keep, period, q))|
  }

  /** `SUM(completed = 1)` over the kept tasks of period q. */
  function DoneIn(rows: seq<Task>, keep: Task -> bool, period: Task -> Period, q: Period): nat
  {
    |Select(rows, DoneInPeriod(keep, period, q))|
  }

  /**
   * `WHERE keep GROUP BY period ORDER BY period`: one group per period
   * that has a kept task, in ascending order, with the number of kept
   * tasks of that period and how many of them are completed.
   */
  function GroupBy(rows: seq<Task>, keep: Task -> bool, period: Task -> Period): (r: seq<Group>)
    ensures Ascending(r) && WellCounted(r)
    ensures forall q :: TotalAt(r, q) == CountIn(rows, keep, period, q)
    ensures forall q :: DoneAt(r, q) == DoneIn(rows, keep, period, q)
  {
    if rows == [] then []
    else
      var init, last := rows[..|rows| - 1], rows[|rows| - 1];
      GroupStep(init, last, keep, period);
      SplitLast(rows);
      var g := GroupBy(init, keep, period);
      if keep(last) then
        AddToCountsAll(g, period(last), last.completed);
        AddTo(g, period(last), last.completed)
      else g
  }

  lemma AddToCountsAll(gs: seq<Group>, p: Period, done: bool)
    requires Ascending(gs)
    ensures forall q :: TotalAt(AddTo(gs, p, done), q) == TotalAt(gs, q) + (if q == p then 1 else 0)
    ensures forall q :: DoneAt(AddTo(gs, p, done), q) == DoneAt(gs, q) + (if q == p && done then 1 else 0)
  {
    forall q
      ensures TotalAt(AddTo(gs, p, done), q) == TotalAt(gs, q) + (if q == p then 1 else 0)
      ensures DoneAt(AddTo(gs, p, done), q) == DoneAt(gs, q) + (if q == p && done then 1 else 0)
    {
      AddToCounts(gs, p, done, q);
    }
  }

  lemma GroupStep(init: seq<Task>, last: Task, keep: Task -> bool, period: Task -> Period)
    ensures forall q :: CountIn(init + [last], keep, period, q)
                        == CountIn(init, keep, period, q) + (if keep(last) && period(last) == q then 1 else 0)
    ensures forall q :: DoneIn(init + [last], keep, period, q)
                        == DoneIn(init, keep, period, q) + (if keep(last) && period(last) == q && last.completed then 1 else 0)
  {
    forall q
      ensures CountIn(init + [last], keep, period, q)
              == CountIn(init, keep, period, q) + (if keep(last) && period(last) == q then 1 else 0)
      ensures DoneIn(init + [last], keep, period, q)
              == DoneIn(init, keep, period, q) + (if keep(last) && period(last) == q && last.completed then 1 else 0)
    {
      SelectAppend(init, last, InPeriod(keep, period, q));
      SelectAppend(init, last, DoneInPeriod(keep, period, q));
    }
  }

  predicate HasGroup(gs: seq<Group>, q: Period)
  {
    exists g :: g in gs && g.period == q
  }

  predicate HasKeptTask(rows: seq<Task>, keep: Task -> bool, period: Task -> Period, q: Period)
  {
    exists t :: t in rows && keep(t) && period(t) == q
  }

  /** Each group of a grouped query holds the counts of exactly its period's kept tasks; a period has a group exactly when it has a kept task. */
  lemma GroupByMeaning(rows: seq<Task>, keep: Task -> bool, period: Task -> Period)
    ensures var gs := GroupBy(rows, keep, period);
            forall i :: 0 <= i < |gs| ==>
              gs[i].total == CountIn(rows, keep, period, gs[i].period) && gs[i].completed == DoneIn(rows, keep, period, gs[i].period)
    ensures var gs := GroupBy(rows, keep, period);
            forall q :: HasGroup(gs, q) <==> HasKeptTask(rows, keep, period, q)
  {
    var gs := GroupBy(rows, keep, period);
    forall i | 0 <= i < |gs|
      ensures gs[i].total == CountIn(rows, keep, period, gs[i].period)
      ensures gs[i].completed == DoneIn(rows, keep, period, gs[i].period)
    {
      GroupCounts(gs, i);
    }
    forall q
      ensures HasGroup(gs, q) <==> HasKeptTask(rows, keep, period, q)
    {
      SelectEmpty(rows, InPeriod(keep, period, q));
      if HasGroup(gs, q) {
        var g :| g in gs && g.period == q;
        var i :| 0 <= i < |gs| && gs[i] == g;
        GroupCounts(gs, i);
      } else {
        AbsentPeriod(gs, q);
      }
    }
  }

  /** `WHERE user_id = ? AND deadline BETWEEN from AND to` */
  function DueBetween(owner: int, from: int, to: int): Task -> bool
  {
    (t: Task) => t.owner == owner && from <= t.deadline <= to
  }

  /** `INTERVAL 4 WEEK`, in days. */
  const WeeklyWindowDays: int := 28

  /** The groups of the weekly query: `YEAR(deadline)` and `WEEK(deadline, 1)`, both given as functions of the day. */
  function WeeklyGroups(rows: seq<Task>, owner: int, now: int, yearOf: int -> int, weekOf: int -> int): seq<Group>
  {
    GroupBy(rows, DueBetween(owner, Today(now) - WeeklyWindowDays, Today(now)),
            (t: Task) => Period(yearOf(t.deadline), weekOf(t.deadline)))
  }

  /** The group a week number ends up holding after the groups are stored one by one: the last one with that number. */
  function LastWithNumber(gs: seq<Group>, w: int): (r: Option<Group>)
    ensures r.None? <==> forall g :: g in gs ==> g.period.number != w
    ensures r.Some? ==> r.value in gs && r.value.period.number == w
  {
    if gs == [] then None
    else if gs[|gs| - 1].period.number == w then Some(gs[|gs| - 1])
    else
      SplitLast(gs);
      LastWithNumber(gs[..|gs| - 1], w)
  }

  /** Of the groups sharing a week number, the one kept has the latest year. */
  lemma {:induction false} LastWithNumberIsLatest(gs: seq<Group>, w: int)
    requires Ascending(gs)
    ensures LastWithNumber(gs, w).Some? ==>
              forall g :: g in gs && g.period.number == w ==> g.period.year <= LastWithNumber(gs, w).value.period.year
  {
    if gs != [] {
      var init := gs[..|gs| - 1];
      SplitLast(gs);
      if gs[|gs| - 1].period.number != w {
        LastWithNumberIsLatest(init, w);
      } else {
        forall g | g in gs && g.period.number == w
          ensures g.period.year <= gs[|gs| - 1].period.year
        {
          var i :| 0 <= i < |gs| && gs[i] == g;
          if i < |gs| - 1 {
            assert Before(gs[i].period, gs[|gs| - 1].period);
          }
        }
      }
    }
  }

  function BucketFor(g: Option<Group>): Option<Bucket>
  {
    match g
    case None => None
    case Some(g) => Some(BucketOf(g.total, g.completed))
  }

  /**
   * `$weeklyProgress[$weekNumber] = ...` for each grouped row in (year,
   * week) order. Entries are keyed by the week number alone, so when the
   * window spans a year boundary a later row with the same number
   * overwrites an earlier one.
   */
  method WeeklyProgress(rows: seq<Task>, owner: int, now: int, yearOf: int -> int, weekOf: int -> int)
    returns (weekly: seq<Entry<int, Bucket>>)
    ensures DistinctKeys(weekly)
    ensures forall w :: Get(weekly, w) == BucketFor(LastWithNumber(WeeklyGroups(rows, owner, now, yearOf, weekOf), w))
  {
    var groups := WeeklyGroups(rows, owner, now, yearOf, weekOf);
    weekly := [];
    for i := 0 to |groups|
      invariant DistinctKeys(weekly)
      invariant forall w :: Get(weekly, w) == BucketFor(LastWithNumber(groups[..i], w))
    {
      var g := groups[i];
      PutKeepsDistinct(weekly, g.period.number, BucketOf(g.total, g.completed));
      StoreWeek(weekly, groups, i);
      weekly := Put(weekly, g.period.number, BucketOf(g.total, g.completed));
    }
    assert groups[..|groups|] == groups;
  }

  /** Storing the i-th group under its week number makes the array hold the last of the first i + 1 groups for every week. */
  lemma StoreWeek(weekly: seq<Entry<int, Bucket>>, groups: seq<Group>, i: nat)
    requires i < |groups|
    requires forall w :: Get(weekly, w) == BucketFor(LastWithNumber(groups[..i], w))
    ensures var g := groups[i];
            forall w :: Get(Put(weekly, g.period.number, BucketOf(g.total, g.completed)), w)
                        == BucketFor(LastWithNumber(groups[..i + 1], w))
  {
    assert groups[..i + 1][..i] == groups[..i];
  }

  /**
   * The group a number ends up with, read back in terms of the tasks:
   * none exactly when no kept task has a period with that number;
   * otherwise the counts of one such period, the one with the latest year.
   */
  lemma LastWithNumberCounts(rows: seq<Task>, keep: Task -> bool, period: Task -> Period, w: int)
    ensures var last := LastWithNumber(GroupBy(rows, keep, period), w);
            && (last.None? <==> forall t :: t in rows && keep(t) ==> period(t).number != w)
            && (last.Some? ==>
                  && last.value.period.number == w
                  && last.value.total == CountIn(rows, keep, period, last.value.period)
                  && last.value.completed == DoneIn(rows, keep, period, last.value.period)
                  && forall t :: t in rows && keep(t) && period(t).number == w ==> period(t).year <= last.value.period.year)
  {
    var gs := GroupBy(rows, keep, period);
    var last := LastWithNumber(gs, w);
    GroupByMeaning(rows, keep, period);
    LastWithNumberIsLatest(gs, w);
    forall t | t in rows && keep(t) && period(t).number == w
      ensures last.Some? && period(t).year <= last.value.period.year
    {
      assert HasKeptTask(rows, keep, period, period(t));
      var g :| g in gs && g.period == period(t);
    }
    if last.Some? {
      var i :| 0 <= i < |gs| && gs[i] == last.value;
      assert HasGroup(gs, last.value.period);
      assert HasKeptTask(rows, keep, period, last.value.period);
    }
  }

  /**
   * What the weekly entry for week number w holds: nothing exactly when no
   * task of the user is due in the window in a week numbered w; otherwise
   * the counts of the tasks of one (year, w) week, the latest such year.
   */
  lemma WeeklyEntryCounts(rows: seq<Task>, owner: int, now: int, yearOf: int -> int, weekOf: int -> int, w: int)
    ensures var keep, period := DueBetween(owner, Today(now) - WeeklyWindowDays, Today(now)),
                                (t: Task) => Period(yearOf(t.deadline), weekOf(t.deadline));
            var last := LastWithNumber(WeeklyGroups(rows, owner, now, yearOf, weekOf), w);
            && (last.None? <==> forall t :: t in rows && keep(t) ==> weekOf(t.deadline) != w)
            && (last.Some? ==>
                  && last.value.period.number == w
                  && last.value.total == CountIn(rows, keep, period, last.value.period)
                  && last.value.completed == DoneIn(rows, keep, period, last.value.period)
                  && forall t :: t in rows && keep(t) && weekOf(t.deadline) == w ==> yearOf(t.deadline) <= last.value.period.year)
  {
    var keep, period := DueBetween(owner, Today(now) - WeeklyWindowDays, Today(now)),
                        (t: Task) => Period(yearOf(t.deadline), weekOf(t.deadline));
    LastWithNumberCounts(rows, keep, period, w);
  }

  /**
   * The monthly groups: `DATE_FORMAT(deadline, '%Y-%m')` given as a year
   * and a month function of the day, over the deadlines from
   * `sixMonthsAgo` (the day `DATE_SUB(CURDATE(), INTERVAL 6 MONTH)`) to today.
   */
  function MonthlyGroups(rows: seq<Task>, owner: int, now: int, sixMonthsAgo: int, yearOf: int -> int, monthOf: int -> int): seq<Group>
  {
    GroupBy(rows, DueBetween(owner, sixMonthsAgo, Today(now)),
            (t: Task) => Period(yearOf(t.deadline), monthOf(t.deadline)))
  }

  /**
   * `$monthlyProgress[$monthName] = ...` for each grouped row in month
   * order. Distinct months have distinct labels, so every row adds one
   * entry: one per month, in ascending order.
   */
  method MonthlyProgress(rows: seq<Task>, owner: int, now: int, sixMonthsAgo: int, yearOf: int -> int, monthOf: int -> int)
    returns (monthly: seq<Entry<Period, Bucket>>)
    ensures var gs := MonthlyGroups(rows, owner, now, sixMonthsAgo, yearOf, monthOf);
            |monthly| == |gs| && forall i :: 0 <= i < |gs| ==> monthly[i] == Entry(gs[i].period, BucketOf(gs[i].total, gs[i].completed))
    ensures forall i, j :: 0 <= i < j < |monthly| ==> Before(monthly[i].key, monthly[j].key)
  {
    monthly := StoreGroups(MonthlyGroups(rows, owner, now, sixMonthsAgo, yearOf, monthOf));
  }

  /** The fetch loop over ascending groups: storing each under its own period appends one entry per group. */
  method StoreGroups(groups: seq<Group>) returns (stored: seq<Entry<Period, Bucket>>)
    requires Ascending(groups)
    ensures |stored| == |groups| && forall i :: 0 <= i < |groups| ==> stored[i] == Entry(groups[i].period, BucketOf(groups[i].total, groups[i].completed))
    ensures forall i, j :: 0 <= i < j < |stored| ==> Before(stored[i].key, stored[j].key)
  {
    stored := [];
    for i := 0 to |groups|
      invariant |stored| == i
      invariant forall k :: 0 <= k < i ==> stored[k] == Entry(groups[k].period, BucketOf(groups[k].total, groups[k].completed))
    {
      var g := groups[i];
      NewPeriodAppends(stored, groups, i, BucketOf(g.total, g.completed));
      stored := Put(stored, g.period, BucketOf(g.total, g.completed));
    }
    forall i, j | 0 <= i < j < |stored|
      ensures Before(stored[i].key, stored[j].key)
    {
      assert stored[i].key == groups[i].period && stored[j].key == groups[j].period;
    }
  }

  /** In ascending groups, the i-th period is new to an array keyed by the earlier ones, so storing it appends. */
  lemma NewPeriodAppends(a: seq<Entry<Period, Bucket>>, groups: seq<Group>, i: nat, b: Bucket)
    requires Ascending(groups) && i < |groups| && |a| == i
    requires forall k :: 0 <= k < i ==> a[k].key == groups[k].period
    ensures Put(a, groups[i].period, b) == a + [Entry(groups[i].period, b)]
  {
    forall k | 0 <= k < i
      ensures a[k].key != groups[i].period
    {
      assert Before(groups[k].period, groups[i].period);
    }
  }

  // ---------------------------------------------------------------------------
  // Task lists

  /**
   * Recently completed: `completed = 1 ORDER BY updated_at DESC LIMIT 5`.
   * At most five of the user's completed tasks, each row at most as often as
   * the table holds it, latest update first, and
   * none left out that was updated later than one shown.
   */
  method RecentlyCompleted(rows: seq<Task>, owner: int) returns (recent: seq<Task>)
    ensures |recent| == Min(5, |Select(rows, WithStatus(owner, true))|)
    ensures multiset(recent) <= multiset(Select(rows, WithStatus(owner, true)))
    ensures forall t :: t in recent ==> t in rows && t.owner == owner && t.completed
    ensures forall i, j :: 0 <= i < j < |recent| ==> recent[j].updatedAt <= recent[i].updatedAt
    ensures forall t, u :: t in rows && t.owner == owner && t.completed && t !in recent && u in recent ==> t.updatedAt <= u.updatedAt
    ensures |Select(rows, WithStatus(owner, true))| <= 5 ==> forall t :: t in rows && t.owner == owner && t.completed ==> t in recent
  {
    var done := WithStatus(owner, true);
    recent := SelectOrderedLimit(rows, done, ColumnKey(UpdatedAt), Desc, 5);
    forall i, j | 0 <= i < j < |recent|
      ensures recent[j].updatedAt <= recent[i].updatedAt
    {
      assert InOrder(Desc, ColumnKey(UpdatedAt)(recent[i]), ColumnKey(UpdatedAt)(recent[j]));
    }
    forall t, u | t in rows && t.owner == owner && t.completed && t !in recent && u in recent
      ensures t.updatedAt <= u.updatedAt
    {
      assert done(t);
      assert InOrder(Desc, ColumnKey(UpdatedAt)(u), ColumnKey(UpdatedAt)(t));
    }
    if |Select(rows, WithStatus(owner, true))| <= 5 {
      forall t | t in rows && t.owner == owner && t.completed
        ensures t in recent
      {
        assert done(t);
      }
    }
  }

  /** `completed = 0 AND deadline < CURDATE()` */
  function OverdueOf(owner: int, today: int): Task -> bool
  {
    (t: Task) => t.owner == owner && !t.completed && t.deadline < today
  }

  /** The overdue list: every pending task of the user due before today, exactly once, earliest deadline first. */
  method OverdueTasks(rows: seq<Task>, owner: int, now: int) returns (overdue: seq<Task>)
    ensures forall t :: t in overdue <==> t in rows && t.owner == owner && !t.completed && t.deadline < Today(now)
    ensures multiset(overdue) == multiset(Select(rows, OverdueOf(owner, Today(now))))
    ensures forall i, j :: 0 <= i < j < |overdue| ==> overdue[i].deadline <= overdue[j].deadline
  {
    overdue := SelectOrdered(rows, OverdueOf(owner, Today(now)), ColumnKey(Deadline), Asc);
    forall i, j | 0 <= i < j < |overdue|
      ensures overdue[i].deadline <= overdue[j].deadline
    {
      assert InOrder(Asc, ColumnKey(Deadline)(overdue[i]), ColumnKey(Deadline)(overdue[j]));
    }
  }

  /**
   * `floor((strtotime('now') - strtotime(deadline)) / 86400)`: the number
   * of whole days since the deadline's midnight, which is today's day
   * number minus the deadline's; at least 1 for a task in the overdue list.
   */
  function DaysOverdue(t: Task, now: int): (r: int)
    ensures r == Today(now) - t.deadline
    ensures t.deadline < Today(now) ==> r >= 1
  {
    var today, s := Today(now), now % SecondsPerDay;
    assert now - DayStart(t.deadline) == (today - t.deadline) * SecondsPerDay + s;
    DivBetween(now - DayStart(t.deadline), today - t.deadline);
    (now - DayStart(t.deadline)) / SecondsPerDay
  }

  /** Every task of the overdue list carries the Overdue badge of tasks.php, at any time of day. */
  lemma OverdueListHasBadge(owner: int, now: int, t: Task)
    requires OverdueOf(owner, Today(now))(t)
    ensures DeadlineBadge(t, now) == OverdueBadge
    ensures DayBadge(t, Today(now)) == OverdueBadge
  {
    BadgeByDay(t, now);
  }
}
