/**
 * The read side of tasks.php: the filter and sort parameters, the listing
 * query with its fetch loop, the status counts, and the two per-row display
 * decisions (the deadline badge and the shortened description).
 */
module TaskQuery {
  import opened Php
  import opened Rows
  import opened Tasks

  // ---------------------------------------------------------------------------
  // Request parameters

  datatype Filter = AllTasks | CompletedOnly | PendingOnly

  /** `$_GET['filter']`: "completed" and "pending" select a status; anything else, or nothing, lists every task. */
  function ParseFilter(param: Option<string>): (f: Filter)
    ensures f == CompletedOnly <==> param == Some("completed")
    ensures f == PendingOnly <==> param == Some("pending")
    ensures f == AllTasks <==> param != Some("completed") && param != Some("pending")
  {
    match param
    case Some(s) => if s == "completed" then CompletedOnly else if s == "pending" then PendingOnly else AllTasks
    case None => AllTasks
  }

  /** The columns a task listing is ordered by. */
  datatype Column = Deadline | PriorityField | Title | CreatedAt | UpdatedAt

  /** `$_GET['sort']`: "priority", "title" and "created" pick their column; anything else, or nothing, orders by deadline. */
  function ParseSort(param: Option<string>): (c: Column)
    ensures c == PriorityField <==> param == Some("priority")
    ensures c == Title <==> param == Some("title")
    ensures c == CreatedAt <==> param == Some("created")
    ensures c == Deadline <==> param !in {Some("priority"), Some("title"), Some("created")}
    ensures c != UpdatedAt
  {
    match param
    case Some(s) =>
      if s == "priority" then PriorityField
      else if s == "title" then Title
      else if s == "created" then CreatedAt
      else Deadline
    case None => Deadline
  }

  /** An ASCII capital folded to lower case; SQL keywords are matched this way. */
  function LowerAscii(c: char): char
  {
    if 'A' <= c <= 'Z' then (c as int + 32) as char else c
  }

  /** s spells the lower-case keyword word in some mix of letter cases. */
  predicate SpellsIgnoringCase(s: string, word: string)
  {
    |s| == |word| && forall i :: 0 <= i < |s| ==> LowerAscii(s[i]) == word[i]
  }

  /**
   * `$_GET['order']`, appended after the ORDER BY column: absent means
   * 'ASC'; the keywords ASC and DESC are recognised in any letter case, and
   * an empty value leaves SQL's default direction, ascending. Any other
   * text does not make a plain direction (None).
   */
  function ParseOrder(param: Option<string>): (d: Option<Direction>)
    ensures param.None? ==> d == Some(Asc)
    ensures d == Some(Asc) <==> param.None? || param.value == "" || SpellsIgnoringCase(param.value, "asc")
    ensures d == Some(Desc) <==> param.Some? && SpellsIgnoringCase(param.value, "desc")
    ensures d.None? <==> param.Some? && param.value != ""
                         && !SpellsIgnoringCase(param.value, "asc") && !SpellsIgnoringCase(param.value, "desc")
  {
    match param
    case None => Some(Asc)
    case Some(s) =>
      if s == "" || SpellsIgnoringCase(s, "asc") then Some(Asc)
      else if SpellsIgnoringCase(s, "desc") then Some(Desc)
      else None
  }

  /** `FIELD(priority, 'high', 'medium', 'low')`: the position of the priority in that list. */
  function FieldRank(p: Priority): (r: int)
    ensures 1 <= r <= 3
    ensures r == 1 <==> p == High
    ensures r == 3 <==> p == Low
  {
    match p
    case High => 1
    case Medium => 2
    case Low => 3
  }

  /** The ORDER BY value of a task for a column. */
  function ColumnKey(c: Column): Task -> Key
  {
    (t: Task) =>
      match c
      case Deadline => Num(t.deadline)
      case PriorityField => Num(FieldRank(t.priority))
      case Title => Text(t.title)
      case CreatedAt => Num(t.createdAt)
      case UpdatedAt => Num(t.updatedAt)
  }

  predicate Passes(f: Filter, t: Task)
  {
    match f
    case AllTasks => true
    case CompletedOnly => t.completed
    case PendingOnly => !t.completed
  }

  /** `WHERE user_id = ?` plus the clause the filter appends. */
  function Listed(owner: int, f: Filter): Task -> bool
  {
    (t: Task) => t.owner == owner && Passes(f, t)
  }

  // ---------------------------------------------------------------------------
  // The listing

  /**
   * The listing of tasks.php: the caller's tasks that pass the filter, every one of
   * them exactly once, ordered by the chosen column in the chosen direction.
   * Ordered by priority ascending, high comes before medium before low.
   */
  method ListTasks(rows: seq<Task>, owner: int, f: Filter, sort: Column, dir: Direction) returns (tasks: seq<Task>)
    ensures forall t :: t in tasks <==> t in rows && t.owner == owner && Passes(f, t)
    ensures multiset(tasks) == multiset(Select(rows, Listed(owner, f)))
    ensures Sorted(tasks, ColumnKey(sort), dir)
    ensures sort == PriorityField && dir == Asc ==>
              forall i, j :: 0 <= i < j < |tasks| ==> FieldRank(tasks[i].priority) <= FieldRank(tasks[j].priority)
  {
    tasks := SelectOrdered(rows, Listed(owner, f), ColumnKey(sort), dir);
    if sort == PriorityField && dir == Asc {
      forall i, j | 0 <= i < j < |tasks|
        ensures FieldRank(tasks[i].priority) <= FieldRank(tasks[j].priority)
      {
        assert InOrder(dir, ColumnKey(sort)(tasks[i]), ColumnKey(sort)(tasks[j]));
      }
    }
  }

  /**
   * The whole listing request of tasks.php: the `filter`, `sort` and
   * `order` parameters are read, and the listing runs with what they
   * select. Without `order` the listing is ascending; without `sort` and
   * `order` it is by deadline, earliest first. An `order` text that is not
   * a direction yields no listing.
   */
  method TaskListing(rows: seq<Task>, owner: int, filter: Option<string>, sort: Option<string>, order: Option<string>)
    returns (tasks: Option<seq<Task>>)
    ensures tasks.None? <==> ParseOrder(order).None?
    ensures tasks.Some? ==>
              var f, c := ParseFilter(filter), ParseSort(sort);
              && (forall t :: t in tasks.value <==> t in rows && t.owner == owner && Passes(f, t))
              && multiset(tasks.value) == multiset(Select(rows, Listed(owner, f)))
              && Sorted(tasks.value, ColumnKey(c), ParseOrder(order).value)
    ensures order.None? ==> tasks.Some? && Sorted(tasks.value, ColumnKey(ParseSort(sort)), Asc)
    ensures sort.None? && order.None? ==> tasks.Some? && Sorted(tasks.value, ColumnKey(Deadline), Asc)
  {
    var dir := ParseOrder(order);
    if dir.None? {
      tasks := None;
    } else {
      var listed := ListTasks(rows, owner, ParseFilter(filter), ParseSort(sort), dir.value);
      tasks := Some(listed);
    }
  }

  /** A listing ordered by priority ascending puts every high task before any medium one, and every medium one before any low one. */
  lemma PriorityOrder(tasks: seq<Task>, i: int, j: int)
    requires Sorted(tasks, ColumnKey(PriorityField), Asc)
    requires 0 <= i < j < |tasks|
    ensures tasks[j].priority == High ==> tasks[i].priority == High
    ensures tasks[j].priority == Medium ==> tasks[i].priority != Low
  {
    assert InOrder(Asc, ColumnKey(PriorityField)(tasks[i]), ColumnKey(PriorityField)(tasks[j]));
  }

  // ---------------------------------------------------------------------------
  // Status counts

  function WithStatus(owner: int, done: bool): Task -> bool
  {
    (t: Task) => t.owner == owner && t.completed == done
  }

  datatype Counts = Counts(total: nat, completed: nat, pending: nat)

  /** Every task of a user is either completed or pending, never both. */
  lemma {:induction false} StatusPartition(rows: seq<Task>, owner: int)
    ensures |OwnedBy(rows, owner)| == |Select(rows, WithStatus(owner, true))| + |Select(rows, WithStatus(owner, false))|
  {
    if rows != [] {
      var init, last := rows[..|rows| - 1], rows[|rows| - 1];
      StatusPartition(init, owner);
      SplitLast(rows);
      SelectAppend(init, last, OfOwner(owner));
      SelectAppend(init, last, WithStatus(owner, true));
      SelectAppend(init, last, WithStatus(owner, false));
    }
  }

  /** `COUNT(*)`, `SUM(completed = 1)` and `SUM(completed = 0)` over the caller's tasks. */
  function StatusCounts(rows: seq<Task>, owner: int): (c: Counts)
    ensures c.total == c.completed + c.pending
    ensures c.total == |OwnedBy(rows, owner)|
    ensures c.total == 0 <==> forall t :: t in rows ==> t.owner != owner
    ensures c.completed == 0 <==> forall t :: t in rows && t.owner == owner ==> !t.completed
    ensures c.pending == 0 <==> forall t :: t in rows && t.owner == owner ==> t.completed
  {
    StatusPartition(rows, owner);
    SelectEmpty(rows, OfOwner(owner));
    SelectEmpty(rows, WithStatus(owner, true));
    SelectEmpty(rows, WithStatus(owner, false));
    Counts(|OwnedBy(rows, owner)|, |Select(rows, WithStatus(owner, true))|, |Select(rows, WithStatus(owner, false))|)
  }

  // ---------------------------------------------------------------------------
  // Per-row display decisions

  datatype Badge = NoBadge | OverdueBadge | DueSoonBadge

  /**
   * The badge next to a deadline. The deadline (a date) becomes a DateTime
   * at the start of its day and is compared with the current time of day;
   * `DateInterval::days` is the whole number of days between the two.
   */
  function DeadlineBadge(t: Task, now: int): (b: Badge)
    ensures t.completed ==> b == NoBadge
    ensures b == OverdueBadge <==> !t.completed && now > DayStart(t.deadline)
    ensures b == DueSoonBadge ==> !t.completed && DayStart(t.deadline) - now < 4 * SecondsPerDay
  {
    var deadline := DayStart(t.deadline);
    var isPast := now > deadline;
    var intervalDays := (if isPast then now - deadline else deadline - now) / SecondsPerDay;
    if t.completed then NoBadge
    else if isPast then OverdueBadge
    else if intervalDays <= 3 then DueSoonBadge
    else NoBadge
  }

  lemma DivBetween(x: int, q: int)
    requires q * SecondsPerDay <= x < (q + 1) * SecondsPerDay
    ensures x / SecondsPerDay == q
  {
  }

  /**
   * The badge in calendar terms. With `today` = Today(now) and `s` the
   * seconds elapsed since midnight: a pending task due before today is
   * overdue; one due today is overdue as soon as s > 0; one due later is
   * "due soon" up to 3 days ahead at midnight and up to 4 days ahead
   * otherwise. A completed task never has a badge.
   */
  lemma BadgeByDay(t: Task, now: int)
    ensures t.completed ==> DeadlineBadge(t, now) == NoBadge
    ensures !t.completed && t.deadline < Today(now) ==> DeadlineBadge(t, now) == OverdueBadge
    ensures !t.completed && t.deadline == Today(now) ==>
              DeadlineBadge(t, now) == if now % SecondsPerDay == 0 then DueSoonBadge else OverdueBadge
    ensures !t.completed && t.deadline > Today(now) ==>
              DeadlineBadge(t, now) == if t.deadline - Today(now) <= (if now % SecondsPerDay == 0 then 3 else 4)
                                       then DueSoonBadge else NoBadge
  {
    var today, s := Today(now), now % SecondsPerDay;
    assert now == today * SecondsPerDay + s && 0 <= s < SecondsPerDay;
    var k := t.deadline - today;
    if k > 0 {
      assert DayStart(t.deadline) - now == k * SecondsPerDay - s;
      if s == 0 {
        DivBetween(k * SecondsPerDay, k);
      } else {
        DivBetween(k * SecondsPerDay - s, k - 1);
      }
    } else if k < 0 {
      assert DayStart(t.deadline) <= (today - 1) * SecondsPerDay;
    }
  }

  /**
   * The badge decided on calendar dates alone, as the rest of the
   * application counts overdue tasks: overdue when the deadline day is
   * before today, due soon from today up to three days ahead.
   */
  function DayBadge(t: Task, today: int): (b: Badge)
    ensures b == OverdueBadge <==> !t.completed && t.deadline < today
    ensures b == DueSoonBadge <==> !t.completed && today <= t.deadline <= today + 3
  {
    if t.completed then NoBadge
    else if t.deadline < today then OverdueBadge
    else if t.deadline <= today + 3 then DueSoonBadge
    else NoBadge
  }

  /** At midnight the two ways of deciding the badge agree. */
  lemma BadgeAtMidnight(t: Task, now: int)
    requires now % SecondsPerDay == 0
    ensures DeadlineBadge(t, now) == DayBadge(t, Today(now))
  {
    BadgeByDay(t, now);
  }

  /**
   * At any other time of day a pending task due today is shown as overdue,
   * although by date it is only due soon; and a task due four days ahead
   * is shown as due soon.
   */
  lemma BadgeAfterMidnight(t: Task, now: int)
    requires !t.completed && now % SecondsPerDay != 0
    ensures t.deadline == Today(now) ==> DeadlineBadge(t, now) == OverdueBadge && DayBadge(t, Today(now)) == DueSoonBadge
    ensures t.deadline == Today(now) + 4 ==> DeadlineBadge(t, now) == DueSoonBadge && DayBadge(t, Today(now)) == NoBadge
  {
    BadgeByDay(t, now);
  }

  /** tasks.php shows a description of more than 100 characters as its first 100 characters and "...". */
  function DescriptionPreview(description: string): (r: string)
    ensures |r| <= 103
    ensures |description| <= 100 ==> r == description
    ensures |description| > 100 ==> IsPrefix(description[..100], r) && r[100..] == "..."
  {
    Truncate(description, 100)
  }
}
