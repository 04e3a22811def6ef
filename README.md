# Team availability records, modelled in Dafny

This project models the availability-record logic of a small team-availability
app (`app.py`). Team members declare, for a range of days, that they are on
leave, on a floating holiday or working from home. A manager approves or
rejects the pending requests. Each decision leaves an unread notification on
the member's row, and the member reads it once. A public roster sorts the
employees of a team into working from home, not working and working for one
day.

The availability table is a sequence of rows
`(Name, Status, Date, Approval Status, Team, MSGCount)`: `Records.Record`.
The app reads it from a file, changes it and writes it back. Here that
read-modify-write is the state of the class `Store.AvailabilityTable`, whose
`rows` field each mutating method updates. Days are integer day numbers. The
app compares ISO date strings, and those compare in the same order as the
days they name.

Modules:

- `Records`: the row type, and the filters the app applies to the table:
  - `check_duplicate_record` (`IsDuplicate`)
  - the `(Name, Date)` mask (`HasDay`)
  - the table a withdrawal writes back (`Without`)
  - the notifications frame (`Notifications`)
  - the manager's pending filter (`PendingRequests`)
  - the invariant the app keeps: at most one row per member and day (`OnePerDay`)
- `Declaring`: the declaration loop as a function of the table.
  - `DeclareDay` is one iteration. `DeclareDays` is the loop.
  - `Revised` plus `Appended` is the same table in closed form: overwritten
    rows in place, then one fresh row per uncovered day. `DeclareClosedForm`
    proves the two agree.
- `Approvals`: `update_approval_status` as a fold over the selected labels
  (`Resolved`).
- `Store`: the table class, with one method per action. Each of the source's
  loops (declare, resolve, drain) is a method loop proved equal to the function
  that specifies it. `Withdraw` applies `Without`.
- `Users`: the users table and registration's duplicate-username check.
- `Roster`: the roster loop (`RosterFor`) and its partition properties.
- `Scenario`: a worked example, written as assertions that follow
  from the methods' contracts.
  - Alice declares leave for days 10 and 11, team X.
  - Day 10 is approved. Her notification is shown once.
  - The roster lists her as not working on day 10 and as working on day 11,
    which is still pending.

Where the code does something a reader might not expect, the model follows the code:

- Pending filter: the manager's pending list filters on approval and date only.
  It does not filter on the manager's team (`app.py:104`).
- Notifications: draining shows every row of the user with an unread count,
  whatever its date (`app.py:155`).
- Resolve: `update_approval_status` does not check that a row is still
  pending. Deciding a row again overwrites the decision and counts another
  notification (`Approvals.ResolveAgain`).
- Withdraw: it removes every row of the member on that day, not a single
  record (`app.py:204`).
- Declare, overwrite: it replaces every row of the member on that day
  (`app.py:188`).
- Declare, duplicate day: the app reports an error for that day and goes on
  with the next day. No error is raised for the batch, and the table keeps
  that day's rows unchanged (`Declaring.DeclareFrame`).

## Model

| member | source | states |
|---|---|---|
| Records.IsDuplicate | app.py:33-39 | definition, no contract: some row has this member, status and day |
| Records.HasDay | app.py:187 | definition, no contract: some row has this member and day |
| Records.IsNotification | app.py:155 | definition, no contract: the row is the user's and its unread count is above 0 |
| Records.IsPendingRequest | app.py:104 | definition, no contract: the row is Pending and dated today or later |
| Records.Without | app.py:204 | the written-back table contains exactly the rows not of `owner` on `date`; none of the member's rows for that day survives; it is shorter exactly when such a row existed |
| Records.WithoutUnmatched | app.py:201-204 | when no row matches, removal gives back the table unchanged |
| Records.WithoutConcat | app.py:204 | removal distributes over concatenation, so surviving rows keep their relative order |
| Records.WithoutKeepsOnePerDay | app.py:204 | removal preserves "at most one row per member and day" |
| Records.Notifications | app.py:155 | a row is in the notifications frame exactly when it is in the table, is the user's and has an unread count above 0 |
| Records.PendingRequests | app.py:104 | a position is listed exactly when its row is Pending and dated today or later; positions come out in increasing table order |
| Declaring.Overwrite | app.py:188 | definition, no contract: every row of the member on that day replaced by the new record, all others kept in place |
| Declaring.DeclareDay | app.py:181-190 | definition, no contract: one iteration of the loop, by the branch `Outcome` picks: duplicate keeps the table, an existing day is overwritten, a new day is appended |
| Declaring.DeclareDays | app.py:180-190 | the loop yields one outcome per day of the range |
| Declaring.DeclareClosedForm | app.py:180-190 | the loop's table equals the original rows in place, the owner's non-duplicate days of the range overwritten by fresh Pending rows with count 0, then one fresh row per day the owner had no row on, in day order |
| Declaring.DeclareOutcomes | app.py:180-190 | per-day independence: each day's branch (duplicate, overwrite, append) is the one the original table picks for that day, whatever the other days did |
| Declaring.DeclareCovers | app.py:180-190 | afterwards every day of the range has a row with this owner, status and day; on every non-duplicate day that row is a fresh Pending record with count 0 |
| Declaring.DeclareFrame | app.py:185-186 | rows of other members, other days, and the owner's duplicate days are exactly as before |
| Declaring.DeclareGrowth | app.py:187-190 | the table grows by exactly the number of Added days; an overwritten day adds no row |
| Declaring.DeclareDayKeepsOnePerDay | app.py:185-190 | one iteration preserves "at most one row per member and day" |
| Declaring.DeclareKeepsOnePerDay | app.py:180-190 | the whole declaration preserves "at most one row per member and day" |
| Declaring.DeclareThenWithdraw | app.py:180-206 | after declaring a day, the member has a row on it; withdrawing it then leaves what withdrawing from the original table leaves, which is the original table when the member had no row that day |
| Declaring.OverwriteThenWithdraw | app.py:188-204 | withdrawing a day after overwriting its rows gives what withdrawing from the original gives |
| Approvals.Decide | app.py:95-96 | definition, no contract: one label's update, the decision written and the count raised by one |
| Approvals.Resolved | app.py:92-97 | deciding rows never changes the table's length |
| Approvals.ResolvedPointwise | app.py:94-96 | each selected row gets the decision and its count rises by the number of times it was selected; unselected rows are unchanged |
| Approvals.ResolvedConcat | app.py:94-96 | a batch of labels can be split: deciding two lists with the same decision one after the other equals deciding their concatenation |
| Approvals.ApproveThenReject | app.py:127-133 | the dashboard's approve call followed by its reject call, on disjoint label lists: every approved label's row is Approved, every rejected label's row is Rejected, each count rises by the times it was listed, and every other row is unchanged; the length is kept |
| Approvals.ResolveAgain | app.py:94-96 | deciding the same rows again keeps the decision and adds one more unread notification per listing |
| Approvals.ResolvedKeepsOnePerDay | app.py:94-96 | decisions preserve "at most one row per member and day" |
| Approvals.ResolvedLeavesPending | app.py:92-104 | after an Approve or Reject, a position is pending exactly when it was pending before and was not selected |
| Approvals.ResolvedNotifies | app.py:94-96 | every decided row is a notification for its owner |
| Store.AvailabilityTable.constructor | app.py:145-146 | a fresh table is empty and has at most one row per member and day |
| Store.AvailabilityTable.Declare | app.py:175-193 | start after end gives RangeError with the table unchanged; otherwise the outcomes and new table are those of the day-by-day loop, one outcome per day, every day covered, one-row-per-day preserved |
| Store.AvailabilityTable.Withdraw | app.py:199-207 | no matching row gives NotFound with the table unchanged; otherwise the new table is `Without` of the old one, no row of the member remains on that day, one-row-per-day preserved |
| Store.AvailabilityTable.Resolve | app.py:92-97 | the loop over the selected labels produces `Resolved` of the old table: same length, selected rows decided and counted, the rest untouched, one-row-per-day preserved |
| Store.AvailabilityTable.DrainNotifications | app.py:154-161 | shows exactly `Notifications` of the old table in table order; zeroes those rows' counts and changes nothing else; a second drain finds nothing |
| Users.IsTaken | app.py:75 | definition, no contract: some user row has this username |
| Users.UserDirectory.constructor | app.py:15 | a fresh users table is empty and has unique names |
| Users.UserDirectory.Register | app.py:74-83 | a taken name gives UsernameTaken with the table unchanged; otherwise the user is appended; either way the name is taken afterwards, and unique names are preserved |
| Roster.ApprovedWfh | app.py:256-262 | definition, no contract: the member has an Approved WFH row on that day |
| Roster.ApprovedAbsence | app.py:256-262 | definition, no contract: the member has an Approved Leave or Floating row on that day |
| Roster.Classify | app.py:256-262 | definition, no contract: WFH first, then Leave/Floating, else working |
| Roster.BucketOf | app.py:256-262 | definition, no contract: the names of the members a frame receives, in member order |
| Roster.TeamEmployees | app.py:252 | a user is kept exactly when they are an Employee of the team |
| Roster.BucketMembers | app.py:256-262 | a name is in a frame exactly when it is a member's and the classification picks that frame |
| Roster.BucketsPartition | app.py:256-262 | the three frames together list each member exactly as often as the member list does |
| Roster.TeamBucket | app.py:251-262 | each frame lists exactly the team's employees the classification sends there, and only them |
| Roster.RosterFor | app.py:251-262 | the loop fills each frame with `BucketOf` of the team's employees; the frames partition the team as a multiset; each employee is in the frame its approved rows pick (WFH first, then Leave/Floating, else working); every listed name is a team employee |
| Roster.OnlyApprovedRowsCount | app.py:257-259 | two tables with the same approved rows for a member and day classify that member alike; Pending and Rejected rows are transparent |
| Roster.DecisionDecidesRoster | app.py:257-262 | with one row per member and day, deciding a row fixes the roster for its member and day: Approved WFH means working from home, any other Approved status means not working, Rejected means working |

## Left out

- The Streamlit interface is not modelled: sidebar, forms, select boxes, toasts, HTML and tables (`app.py:45-58, 99-136, 164-174, 211-212, 264-304`). The toast text of `disp_notifications` is left out too. The draining method returns the rows the toasts are built from.
- Grouping the pending list by date, and building the approve and reject lists from the form (`app.py:108-128`), are presentation. The two calls that follow are modelled by `Approvals.ApproveThenReject`.
- CSV persistence is not modelled (`read_csv`/`to_csv`, `app.py:11-26, 97, 142-147, 161, 192, 206`). The table is the in-memory state each action reads and writes. File format, missing files and the re-read before each write are not modelled.
- Session state, login and logout are not modelled (`app.py:45-58, 215-228`). The acting member and their team are parameters.
- Passwords and `authenticate` (`app.py:86-90`) are not modelled: they are credential handling. `Users.User` has no password.
- `load_team_data` (`app.py:17-22`) only fills the registration form's team choices. `Register` takes the team as a parameter.
- `pd.Timestamp.today()` and `pd.date_range` are not modelled. Today is a parameter and dates are integers.
- Concurrent writers are not modelled. Two sessions that read the file, change it and write it back can lose each other's updates. Neither the app nor this sequential model guards against that.
- The display of the member's own current requests (`app.py:209-212`) is presentation only.
- The developer-profile text is not modelled.
- Resolve takes its labels as a precondition (valid table positions): the code never checks them. Assigning to an unknown label with pandas `.loc` would add a row; that path is not modelled.
- The roster's team and date choices (`app.py:241-249`) are parameters of `RosterFor`.
