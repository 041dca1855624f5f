/**
 * The dashboard of index.php. Its quick add, completion toggle and delete
 * handlers are the ones of TaskTable, and its progress figure is
 * Progress.OverallProgress; what is its own is the list of upcoming tasks.
 */
module Dashboard {
  import opened Rows
  import opened Tasks
  import opened TaskQuery

  /** `LIMIT 5` */
  const UpcomingLimit: nat := 5

  /** `user_id = ? AND deadline BETWEEN CURDATE() AND DATE_ADD(CURDATE(), INTERVAL 7 DAY) AND completed = 0` */
  function UpcomingOf(owner: int, today: int): Task -> bool
  {
    (t: Task) => t.owner == owner && today <= t.deadline <= today + 7 && !t.completed
  }

  /**
   * The upcoming tasks: at most five of the user's pending tasks due between
   * today and a week from today, earliest deadline first, each row at most
 * as often as the table holds it. A qualifying task
   * is left out only when five tasks due no later than it are shown, and
   * when no more than five qualify, all of them are shown.
   */
  method UpcomingTasks(rows: seq<Task>, owner: int, now: int) returns (upcoming: seq<Task>)
    ensures |upcoming| == Min(UpcomingLimit, |Select(rows, UpcomingOf(owner, Today(now)))|)
    ensures multiset(upcoming) <= multiset(Select(rows, UpcomingOf(owner, Today(now))))
    ensures forall t :: t in upcoming ==>
              t in rows && t.owner == owner && !t.completed && Today(now) <= t.deadline <= Today(now) + 7
    ensures forall i, j :: 0 <= i < j < |upcoming| ==> upcoming[i].deadline <= upcoming[j].deadline
    ensures forall t, u :: t in rows && UpcomingOf(owner, Today(now))(t) && t !in upcoming && u in upcoming ==>
              u.deadline <= t.deadline
    ensures |Select(rows, UpcomingOf(owner, Today(now)))| <= UpcomingLimit ==>
              forall t :: t in rows && UpcomingOf(owner, Today(now))(t) ==> t in upcoming
  {
    upcoming := SelectOrderedLimit(rows, UpcomingOf(owner, Today(now)), ColumnKey(Deadline), Asc, UpcomingLimit);
    forall i, j | 0 <= i < j < |upcoming|
      ensures upcoming[i].deadline <= upcoming[j].deadline
    {
      assert InOrder(Asc, ColumnKey(Deadline)(upcoming[i]), ColumnKey(Deadline)(upcoming[j]));
    }
    forall t, u | t in rows && UpcomingOf(owner, Today(now))(t) && t !in upcoming && u in upcoming
      ensures u.deadline <= t.deadline
    {
      assert InOrder(Asc, ColumnKey(Deadline)(u), ColumnKey(Deadline)(t));
    }
  }

  /**
   * A pending task due today is listed as upcoming on the dashboard, yet
   * tasks.php marks it overdue at any moment after midnight.
   */
  lemma UpcomingYetOverdue(t: Task, owner: int, now: int)
    requires t.owner == owner && !t.completed && t.deadline == Today(now) && now % SecondsPerDay != 0
    ensures UpcomingOf(owner, Today(now))(t)
    ensures DeadlineBadge(t, now) == OverdueBadge
  {
    BadgeByDay(t, now);
  }
}
