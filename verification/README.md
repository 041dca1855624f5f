# Study planner data layer, modelled in Dafny

The study planner is a PHP web application. Logged-in users keep **tasks**, each with a deadline, a priority and a completed flag, and free-form **notes** with a category. They see progress statistics computed from their tasks, and they manage their own **user** account.

Each page mixes SQL, sessions and HTML. Under that sits a small sequential data layer, and that layer is what this project models:

- the request handlers that change the tasks, notes and users tables;
- the queries that read those tables back;
- the per-row display decisions: the deadline badge and the text previews.

The current user's id is an explicit parameter of every operation, and so is the current time (`now`, in seconds).

## Modules

- `php.dfy`, module `Php`: PHP built-ins the handlers depend on: `empty()` on strings (true for `""` and `"0"`), `trim()`, the `strlen`/`substr` preview, ordered-array get/put, substring search for `LIKE '%q%'`
- `rows.dfy`, module `Rows`: SQL semantics over a table held as a sequence: `WHERE`, `UPDATE … WHERE`, `DELETE … WHERE`, `ORDER BY` with the fetch loop, `LIMIT`
- `tasks.dfy`, module `Tasks`: the tasks table as a class, with the add, edit, toggle and delete handlers of tasks.php and index.php
- `task_query.dfy`, module `TaskQuery`: the listing of tasks.php: filter and sort parameters, the ordered listing, status counts, the deadline badge, the description preview
- `dashboard.dfy`, module `Dashboard`: the upcoming-tasks list of index.php
- `progress.dfy`, module `Progress`: calculateProgress and every statistic of progress.php: priority buckets, weekly and monthly groups, recently completed tasks, overdue tasks
- `notes.dfy`, module `Notes`: the notes table and its handlers; the category list, the filtered listing and the content preview of notes.php
- `users.dfy`, module `Users`: the users table as a class, with its uniqueness invariant
- `profile.dfy`, module `Profile`: the contact update and password change of profile.php, and its completion rate
- `register.dfy`, module `Register`: the registration chain and insert of auth/register.php

## Conventions

- **Time.** `Today(now) = now / 86400` is CURDATE() as a day number, and a deadline is a day number.
  - PHP's `new DateTime($deadline)` is the deadline's first second, `DayStart(d) = d * 86400`.
  - MySQL's `YEAR`, `WEEK(·, 1)` and month extraction are function parameters (`yearOf`, `weekOf`, `monthOf`).
  - The day `DATE_SUB(CURDATE(), INTERVAL 6 MONTH)` is a parameter, `sixMonthsAgo`.
  - `INTERVAL 4 WEEK` is 28 days.
- **Outside functions are parameters.**
  - `filter_var(…, FILTER_VALIDATE_EMAIL)` is `validEmail: string -> bool`.
  - `password_verify` is `verify: (string, string) -> bool`.
  - `password_hash` is `hash: string -> string`.
- **Tables.** A table is a sequence of rows in insertion order. A class (`TaskTable`, `NoteTable`, `UserTable`) holds the rows and the AUTO_INCREMENT counter, and its `Valid()` predicate states that no two positions of the table hold the same id and that every id lies below the counter. The users table keeps usernames and emails unique in the same positional sense.
  - Each state-changing handler is a method. Its `ensures` gives the new table as a function of the old one (`Edited`, `Toggled`, `NoteDeleted`, …), and the properties of those functions are separate lemmas.
  - The profile and registration handlers take the `UserTable` as a parameter.
- **Read queries.**
  - A query followed by its fetch loop is a method, `Rows.SelectOrdered` or `Rows.SelectOrderedLimit`. Its loop inserts each selected row into a sorted list.
  - Its contract states the rows returned (membership, and a permutation of the selected rows), their order and the `LIMIT` cut-off.
  - SQL leaves the order of rows with equal sort keys open, so no contract states one.
- **Validation chains** return `Outcome<E>`: either `Pass`, or `Fail(e)` with `e` the first check that failed. Each error enum has a function giving the page's exact message.

## Model

| member | source | states |
|---|---|---|
| Php.IsEmpty | auth/register.php:25 | PHP `empty()` on a string: only "" and "0" are empty; no string of two or more characters is, not even "00" or " " |
| Php.Get | progress.php:70-78 | `isset($a[$k])` / `$a[$k]`: nothing exactly when no entry has key k, otherwise a value stored under k |
| Php.Put | progress.php:97-104 | `$a[$k] = $v`: k then maps to v, every other key keeps its value, and a key not yet present is appended at the end |
| Php.PutKeepsKeys | progress.php:97-104 | overwriting a key already present keeps the array's keys and their order |
| Php.PutKeepsDistinct | progress.php:97-104 | storing under a key never leaves two entries with the same key |
| Php.Trim | profile.php:28-29 | `trim()`: the result is s with only whitespace/NUL characters cut from both ends, and it neither starts nor ends with one |
| Php.Contains | notes.php:115-121 | the `LIKE '%q%'` test holds exactly when q occurs in s at some position |
| Php.Truncate | notes.php:373-377 | the preview: text of at most n characters is unchanged; longer text becomes its first n characters followed by "..." |
| Rows.Select | tasks.php:125-131 | `WHERE`: a row is returned exactly when it is in the table and satisfies the clause |
| Rows.SelectEmpty | progress.php:20-29 | `COUNT(*)` is 0 exactly when no row satisfies the clause |
| Rows.SelectMonotone | progress.php:47-54 | a stricter clause never counts more rows, so `SUM(completed = 1)` ≤ `COUNT(*)` |
| Rows.UpdateWhere | tasks.php:44-50 | `UPDATE … WHERE`: matching rows are rewritten in place, all other rows are kept, and the table keeps its length |
| Rows.DeleteWhere | tasks.php:89-92 | `DELETE … WHERE`: the table becomes the `SELECT` of the negated clause, so exactly the non-matching rows remain, in table order, each as often as before |
| Rows.UpdateWhereNoMatch | tasks.php:74-77 | an update whose clause matches no row leaves the table equal to what it was |
| Rows.UpdateWhereOutsideView | tasks.php:44-46 | an update touching no row of a view, before or after the rewrite, leaves that view's rows and order unchanged |
| Rows.DeleteWhereOutsideView | tasks.php:89-90 | a delete touching no row of a view leaves that view unchanged |
| Rows.DeleteWhereNoMatch | tasks.php:89-90 | a delete whose clause matches no row leaves the table unchanged |
| Rows.SelectKeepsDistinct | tasks.php:125-131 | a `SELECT` from a table with a unique key never returns that key twice |
| Rows.DeleteWhereKeepsDistinct | tasks.php:89-92 | a `DELETE` keeps a unique key unique |
| Rows.UpdateWhereKeepsDistinct | tasks.php:44-46 | an `UPDATE` that does not rewrite the key keeps it unique |
| Rows.AppendKeepsDistinct | tasks.php:25-26 | an `INSERT` of a row whose key no row has keeps the key unique |
| Rows.DistinctMembers | tasks.php:63-71 | under a unique key, two rows with the same key are the same row |
| Rows.Insert | tasks.php:134-149 | placing a row into a sorted listing adds exactly that row and keeps the listing sorted |
| Rows.SelectOrdered | tasks.php:125-160 | the query with `ORDER BY` plus its fetch loop: a permutation of the selected rows, sorted by the key in the direction asked |
| Rows.SelectOrderedLimit | index.php:109-124 | with `LIMIT n`: min(n, matches) rows, all selected and sorted; no left-out row may precede a kept one; all are kept when at most n qualify |
| Rows.PrefixOfSorted | index.php:113-114 | a prefix of a sorted listing: no row after the cut may come before a row inside it |
| Tasks.FindOwned | tasks.php:101-115 | the edit lookup finds a row exactly when one has that id and belongs to the caller |
| Tasks.CrossOwnerIsolation | tasks.php:44-92 | edit, toggle and delete by one user never change what another user's `WHERE user_id = ?` sees |
| Tasks.NoMatchIsNoOp | tasks.php:63-78 | an id the caller does not own, missing or another user's, leaves the table unchanged under edit, toggle and delete |
| Tasks.ToggleTwice | tasks.php:63-78 | toggling the same task twice restores every row |
| Tasks.DeleteIdempotent | tasks.php:86-92 | deleting the same id twice removes nothing more |
| Tasks.EditedRow | tasks.php:36-50 | the edited row carries the submitted title, description, deadline, priority and completed flag; id, owner and timestamps stay |
| Tasks.AppendFreshId | tasks.php:25-26 | a row with an id above every existing id keeps ids unique |
| Tasks.AppendVisibility | tasks.php:25-29 | a new task appears at the end of its owner's list and in no other user's list |
| Tasks.UpdateKeepsIds | tasks.php:44-46 | an update that keeps ids keeps them unique and below the counter |
| Tasks.ReadThenWriteFlips | tasks.php:63-77 | reading `completed`, then writing its negation, is the same as flipping the caller's row in place |
| Tasks.TaskTable.AddTask | tasks.php:19-30 | add_task appends one row: the caller's, not completed, with the next id; the caller's list grows by that row, other lists are unchanged (index.php's quick add is the same insert) |
| Tasks.TaskTable.EditTask | tasks.php:36-50 | the new table is `Edited(old)`, completed being true exactly when the `completed` field was sent; ids stay unique |
| Tasks.TaskTable.ToggleCompletion | tasks.php:59-78 | the new table is `Toggled(old)`: the caller's row flips, nothing changes without a match (index.php repeats the handler) |
| Tasks.TaskTable.DeleteTask | tasks.php:86-92 | the new table is `Deleted(old)`: the caller's row with that id is gone, everything else stays in order (index.php repeats the handler) |
| TaskQuery.ParseFilter | tasks.php:120-131 | "completed" and "pending" select a status; any other value, or none, lists all tasks |
| TaskQuery.ParseSort | tasks.php:134-147 | "priority", "title" and "created" select their column; anything else, or nothing, sorts by deadline |
| TaskQuery.ParseOrder | tasks.php:122-149 | `$_GET['order']`: absent or empty means ascending; ASC and DESC are recognised in any letter case; any other text gives no direction |
| TaskQuery.TaskListing | tasks.php:120-160 | the whole request: the listing runs `ListTasks` with the parsed filter, column and direction; without `order` it is ascending, without `sort` and `order` it is by deadline, earliest first; a non-direction `order` yields no listing |
| TaskQuery.FieldRank | tasks.php:136-138 | `FIELD(priority, 'high', 'medium', 'low')`: high ranks 1, low ranks 3, every rank lies in 1..3 |
| TaskQuery.ListTasks | tasks.php:124-160 | run by `TaskListing` with the parsed parameters, the listing holds exactly the caller's tasks that pass the filter, each once, sorted by the column; ascending priority gives high, medium, low |
| TaskQuery.PriorityOrder | tasks.php:136-138 | in a list sorted by priority ascending, every high task precedes every medium one, and every medium task precedes every low one |
| TaskQuery.StatusPartition | tasks.php:163-168 | each task of the user is completed or pending, never both, so the two counts sum to the user's task count |
| TaskQuery.StatusCounts | tasks.php:163-168 | total = completed + pending = the user's task count; each count is 0 exactly when no task of that kind exists |
| TaskQuery.DeadlineBadge | tasks.php:387-399 | the badge as written: none for a completed task; Overdue exactly when the task is pending and the current time is past the deadline day's first second; Due soon only for a pending task less than four days away |
| TaskQuery.BadgeByDay | tasks.php:387-399 | the badge as written, in days: completed → none; due before today → overdue; due today → overdue unless it is exactly midnight; due later → "due soon" up to 3 days ahead at midnight, up to 4 at any other time |
| TaskQuery.DayBadge | tasks.php:387-399 | the badge by calendar date: overdue exactly when pending and due before today; due soon exactly when pending and due today to today + 3 |
| TaskQuery.BadgeAtMidnight | tasks.php:387-399 | at midnight the written badge and the date badge agree |
| TaskQuery.BadgeAfterMidnight | tasks.php:387-399 | after midnight a pending task due today is shown overdue, though by date it is due soon; one due in 4 days is shown due soon |
| TaskQuery.DescriptionPreview | tasks.php:381-382 | a description of at most 100 characters is shown whole; a longer one shows its first 100 characters and "..." |
| Dashboard.UpcomingTasks | index.php:109-124 | at most five of the caller's pending tasks due from today to today + 7, a sub-multiset of that selection (no row repeated beyond the table), earliest first; none left out that is due earlier than one shown; all shown when at most five qualify |
| Dashboard.UpcomingYetOverdue | index.php:109-112 | a pending task due today is on the upcoming list, yet tasks.php marks it overdue at any moment after midnight |
| Progress.Percentage | progress.php:65 | `total > 0 ? completed / total * 100 : 0`: 0 without tasks, between 0 and 100 when completed ≤ total |
| Progress.PercentageExtremes | progress.php:41 | with tasks: percentage × total = completed × 100; it is 100 exactly when all are completed, 0 exactly when none is |
| Progress.OverallProgress | progress.php:18-42 | calculateProgress: 0 without tasks, in [0, 100]; 100 exactly when the user has tasks and all are completed; 0 exactly when none is completed (index.php carries the same function) |
| Progress.ChartPending | progress.php:555 | the chart's `total - completed` is the number of pending tasks; it is 0 exactly when all tasks are completed |
| Progress.PriorityBucket | progress.php:61-66 | one priority's figures: its task count, its completed count (≤ total), a percentage in [0, 100], all zero without tasks |
| Progress.PriorityGroups | progress.php:47-54 | `GROUP BY priority`: a row for exactly the priorities that have tasks, each carrying its counts |
| Progress.PriorityProgress | progress.php:59-78 | `$priorityCounts` has an entry for low, medium and high, and each holds that priority's figures, zero when it has no tasks |
| Progress.BucketsOfGroups | progress.php:61-67 | the loop over grouped rows stores each row's figures under its priority |
| Progress.WithDefaults | progress.php:70-78 | the defaults loop gives every missing priority the entry {0, 0, 0} and keeps existing entries |
| Progress.PriorityTotals | progress.php:47-54 | the three priority counts sum to the user's task count |
| Progress.PriorityDoneCounts | progress.php:47-54 | the three completed counts sum to the user's completed count |
| Progress.PriorityPartition | progress.php:136-141 | the summed buckets equal the totals of the status query |
| Progress.AddTo | progress.php:88-89 | counting one more task into ascending groups keeps them ascending and well counted |
| Progress.GroupBy | progress.php:81-89 | `GROUP BY … ORDER BY`: ascending periods; for every period the count and completed count are those of the kept tasks |
| Progress.GroupByMeaning | progress.php:148-156 | each group holds exactly its period's counts; a period has a group exactly when a kept task falls in it |
| Progress.LastWithNumber | progress.php:97-104 | the group a week number ends up holding: none exactly when no group has that number, otherwise a group with that number |
| Progress.LastWithNumberIsLatest | progress.php:89-104 | of the groups with one week number, the one kept has the latest year |
| Progress.LastWithNumberCounts | progress.php:81-104 | read back as tasks: no entry exactly when no kept task has that number; otherwise the counts of the latest year's week with that number |
| Progress.WeeklyEntryCounts | progress.php:81-104 | the weekly entry for w covers only tasks due in [today − 28, today] with week number w; it is absent exactly when there are none, and it counts only the latest year's week |
| Progress.WeeklyProgress | progress.php:95-104 | `$weeklyProgress` keeps keys distinct; for each week number it holds the figures of the last group with that number |
| Progress.MonthlyProgress | progress.php:161-170 | one entry per month group, in the same order, with ascending (year, month) keys and each group's figures |
| Progress.RecentlyCompleted | progress.php:107-120 | at most five of the user's completed tasks, a sub-multiset of that selection (no row repeated beyond the table), latest update first; none left out updated later than one shown; all shown when at most five exist |
| Progress.OverdueTasks | progress.php:122-134 | exactly the user's pending tasks due before today, each once, earliest deadline first |
| Progress.DaysOverdue | progress.php:389 | `floor((now − deadline) / 86400)` equals today minus the deadline day, at least 1 for an overdue task |
| Progress.OverdueListHasBadge | progress.php:122-124 | every task on the overdue list carries the Overdue badge, by either badge definition |
| Notes.FindNote | notes.php:35-43 | the ownership check finds a note exactly when one has that id and belongs to the caller |
| Notes.NoteCrossOwnerIsolation | notes.php:45-65 | editing or deleting a note never changes another user's notes |
| Notes.NoteNoMatchIsNoOp | notes.php:43-50 | a note id the caller does not own leaves the table unchanged under edit and delete |
| Notes.NoteEditedRow | notes.php:45-49 | the edited note has the submitted title, content and category and `updated_at = now`; id, owner and creation time stay |
| Notes.NoteDeleteIdempotent | notes.php:62-65 | deleting a note twice removes nothing more |
| Notes.AppendFreshNote | notes.php:25-26 | a note with an id above every existing id keeps note ids unique |
| Notes.AppendNoteVisibility | notes.php:25-29 | a new note appears at the end of its owner's notes and nowhere else |
| Notes.NoteUpdateKeepsIds | notes.php:45-46 | an update that keeps note ids keeps them unique and below the counter |
| Notes.NoteTable.AddNote | notes.php:23-30 | add_note appends one note owned by the caller, created (and last updated) at `now`, with the next id |
| Notes.NoteTable.EditNote | notes.php:32-51 | without `note_id` nothing changes; otherwise the table becomes `NoteEdited(old)` (unchanged when the caller owns no such note) |
| Notes.NoteTable.DeleteNote | notes.php:59-66 | the new table is `NoteDeleted(old)`: only the caller's note with that id is removed |
| Notes.ParamOrEmpty | notes.php:89-90 | a missing `category` or `search` parameter reads as the empty text, which `empty()` holds for; a given one is used as it is |
| Notes.AbsentFiltersListAll | notes.php:89-121 | without `category` and `search` the listing holds exactly the user's notes |
| Notes.InsertDistinct | notes.php:93 | adding a category to a strictly ascending list keeps it strictly ascending and adds exactly that category |
| Notes.Categories | notes.php:93-102 | the category list: each non-empty category of the user's notes exactly once, strictly ascending |
| Notes.ListNotes | notes.php:105-133 | exactly the user's notes passing both filters, each once, latest update first; an `empty()` filter restricts nothing |
| Notes.FiltersCombine | notes.php:109-121 | with both filters given, a note is listed exactly when it passes each on its own |
| Notes.ZeroFilterIgnored | notes.php:109-121 | a category or search of "0" restricts nothing, although "0" can be offered as a category |
| Notes.ContentPreview | notes.php:373-377 | content of at most 150 characters is shown whole; longer content shows its first 150 characters and "..." |
| Users.FindUser | profile.php:19-24 | the user lookup finds a row exactly when one has that id |
| Users.FoundMeans | profile.php:44 | `num_rows > 0` holds exactly when some row satisfies the lookup's clause |
| Profile.ProfileCheck | profile.php:32-45 | missing email (`empty()`) first, then invalid format, then in use by another id; passes exactly when no other user holds the email |
| Profile.ProfileMessagesDiffer | profile.php:32-45 | the three contact-form errors have three different messages |
| Profile.OwnEmailAccepted | profile.php:38-45 | keeping one's own email is never a conflict |
| Profile.ContactUpdateKeepsDistinct | profile.php:38-50 | after a passed check the update keeps ids, usernames and emails unique |
| Profile.PassedContactUpdate | profile.php:44-50 | an update made once every check passed keeps ids, usernames and emails unique |
| Profile.UpdateProfile | profile.php:27-66 | both fields are trimmed; on failure the table is untouched; on success only the caller's full name and email change; the table stays valid |
| Profile.PasswordCheck | profile.php:76-100 | checks in order: any field empty, new ≠ confirm, new shorter than 8, current does not verify; passes exactly when none fails |
| Profile.PasswordMessagesDiffer | profile.php:76-100 | the four password-form errors have four different messages |
| Profile.FormChecksFirst | profile.php:76-84 | a failing form check is reported whatever the stored password is |
| Profile.PasswordUpdateKeepsDistinct | profile.php:88-90 | replacing a password hash changes no id, username, email or full name |
| Profile.ChangePassword | profile.php:70-102 | the caller's hash is replaced by `hash(new)` only when every check passes; otherwise the table is untouched |
| Profile.CompletionRate | profile.php:104-130 | equals calculateProgress: 0 without tasks, otherwise in [0, 100] |
| Register.RegisterCheck | auth/register.php:25-52 | checks in order: a required field empty, mismatch, shorter than 8, invalid email, username taken, email taken; passes exactly when all hold |
| Register.RegisterMessagesDiffer | auth/register.php:25-52 | the six registration errors have six different messages |
| Register.UsernameBeforeEmail | auth/register.php:35-52 | a taken username is reported even when the email is also taken |
| Register.AppendNewUser | auth/register.php:55-58 | a new user with unseen username and email, under a fresh id, keeps the table valid |
| Register.RegisterUser | auth/register.php:17-71 | username, email and full name are trimmed, passwords are not; one row is appended only on success; on failure the table is unchanged |

## Findings

| source | as written | input that shows it | evidently intended | confidence | as-written member | corrected member |
|---|---|---|---|---|---|---|
| tasks.php:387-399 | The badge compares the current time of day with the deadline's midnight, so a pending task due today counts as past. | A pending task due today, any time after 00:00:00, for example deadline day 0 and `now` = 1: it gets the Overdue badge. The same task is on index.php's upcoming list and is absent from progress.php's overdue list (`deadline < CURDATE()`). | Overdue once the deadline day has passed, and due soon from today to 3 days ahead, as the other pages count it. | medium, not executed | TaskQuery.DeadlineBadge, shown by TaskQuery.BadgeAfterMidnight and Dashboard.UpcomingYetOverdue | TaskQuery.DayBadge, with Progress.OverdueListHasBadge |

## Left out

- HTML, Bootstrap, Chart.js set-up, `round()` of displayed percentages and `date('M d, Y')` labels are presentation only.
- Sessions, login redirects, `header()`/`exit`, and the database connection are request plumbing. The user id is a parameter.
- auth/login.php and js/profile.js are not part of this model. The first is an emptiness check around `password_verify`; the second repeats the server-side password checks in the browser.
- Failure of a statement's `execute()` ("Update failed…", "Registration failed…") is not modelled. Storage is assumed to succeed.
- The `edit_task` lookup's redirect when nothing is found is plumbing. `Tasks.FindOwned` gives the found/not-found decision.
- The `status` query parameter of tasks.php only selects a message.
- TaskQuery.ParseOrder: the raw `order` text is concatenated into the SQL. Only "", ASC and DESC in any letter case are recognised. Any other text, including surrounding blanks, comments or injected SQL that MySQL might still accept, is modelled as no listing.
- The toggle's separate read and write can race between concurrent requests. It is modelled as one sequential step.
- The account age (profile.php:123-126) and the note count (profile.php:117-121) on the profile page are display figures from the clock and a plain `COUNT(*)`.
- Tasks.TaskTable.AddTask: the inserted row's `updated_at` is taken to be `now`. tasks.php sets only `created_at`, and the column default is outside the source. No handler refreshes a task's `updated_at`, and the model assumes the column has no `ON UPDATE CURRENT_TIMESTAMP` default; with one, every edit and toggle would also set `updated_at` to the current time, which progress.php shows as "Completed on" and sorts the recently completed list by.
- Notes.NoteTable.AddNote: as for tasks, the new note's `updated_at` is taken to be `now`, the column default.
- Notes.ListNotes: `LIKE` is plain case-sensitive substring search. `%` and `_` in the search text, and the collation's case-insensitivity, are database behaviour not modelled. Category equality is exact.
- Notes.Categories: `DISTINCT` and `ORDER BY category` use exact code-point comparison, not the database collation.
- TaskQuery.ListTasks: ordering by title uses code-point order, not the collation. Rows with equal keys come out in table order, which SQL leaves open, so no contract relies on it.
- TaskQuery.DescriptionPreview: lengths count characters, not bytes as `strlen` does. tasks.php truncates the HTML-escaped description, and escaping is not modelled.
- Notes.ContentPreview: lengths count characters, not bytes.
- Profile.PasswordCheck: `strlen` counts bytes; the model counts characters.
- Register.RegisterCheck: `strlen` counts bytes; the model counts characters.
- Tasks.TaskTable.AddTask: `priority` is bound from the request as it comes, and only the form's `<select>` limits it to low, medium and high. The model's `Priority` has just those three values. For any other stored value, `FIELD()` ranks it 0, and the three priority totals would no longer add up to the task count.
- TaskQuery.StatusCounts: `SUM(CASE …)` over no rows is NULL, so the pages print an empty figure where the model gives 0.
- Progress.Percentage: PHP's `/` and `* 100` give a float, which the model takes as an exact `real`.
- Progress.PriorityProgress: the result is a map with no key order. The PHP array's order (grouped rows first, then the defaults) is not kept; the page reads it only by key.
- Progress.MonthlyProgress: entries are keyed by (year, month) rather than by the `'M Y'` label, assuming distinct months give distinct labels.
- Progress.WeeklyProgress: `$weeklyProgress` is computed but never displayed by progress.php. It is modelled for its overwrite-by-week-number behaviour.
- Progress.PriorityGroups: `GROUP BY` returns its rows in an order SQL leaves open. The model lists them low, medium, high, and the resulting map does not depend on that order.
- Profile.ChangePassword: when the session's user row is missing, `password_verify` gets no stored hash; the model treats that as a failed verification.
- Users.UserTable: the table's uniqueness of usernames and emails is kept by the checks of profile.php and auth/register.php. Database constraints, and collation-equal but different emails, are not modelled.
