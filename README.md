# Classroom session blueprint: a Dafny model

This project models the session blueprint of a classroom-monitoring Flask
backend (`src/blueprints/session/rotues.py`). Teachers open and close
monitoring sessions for a classroom. They upload images against an active
session, and each upload records one behaviour row. They read per-session and
per-classroom counts of the recorded behaviours (`hand-raising`, `writing`,
`reading`).

The database is replaced by an in-memory store: a set of classroom ids, a
sequence of `Session` rows and a sequence of `Behaviour` rows. Every HTTP
reply is a `Response` value: a status code plus a `Body` that mirrors the JSON
object.

- `records.dfy` (module `Records`): the rows, the response bodies, the fixed
  vocabulary, and lookup by primary key.
- `lifecycle.dfy` (module `Lifecycle`): the GET query of the check-or-create
  route, the search for a classroom's active session, and lemmas showing that
  the two POST branches keep "at most one active session per classroom".
- `stats.dfy` (module `Stats`): the grouped count (`GROUP BY behaviour`,
  `COUNT(id)`), the dictionary comprehension, the `setdefault` zero-fill,
  `sum`, and the three stats handlers.
- `routes.dfy` (module `Routes`): class `Store`, whose methods change the
  store in place. They are the POST toggle, the GET/POST dispatcher and the
  detection recorder.

The GET branch and the stats handlers only read the store, so they are
functions of the store's sequences. Running them twice without a write in
between therefore gives the same reply. Fresh UUIDs, the random hex prefix of
the stored file name, and the values a new session row gets for `created_at`
and `class_started_at` are method parameters. Time is an ordered integer.

The deactivation reply reports the row's secondary key `session_id`, while
the creation reply reports its primary key `id`. Every other handler looks
sessions up by `id`. The model keeps this as written.
`Routes.Store.CreateThenDeactivate` shows that two POSTs in a row name the
same row by two different keys.

## Model

| member | source | states |
|---|---|---|
| `Records.Lookup` | src/blueprints/session/rotues.py:77-80 | lookup by primary key: no result exactly when no row has the id; otherwise the first row with that id |
| `Records.LookupUnique` | src/blueprints/session/rotues.py:136 | with a unique primary key, the lookup finds the one row carrying the id |
| `Lifecycle.Latest` | src/blueprints/session/rotues.py:22 | newest-first query: none exactly when the classroom has no session; otherwise a session of that classroom created no earlier than any other of its sessions |
| `Lifecycle.Report` | src/blueprints/session/rotues.py:27-37 | a found session is reported by its `id`, with `status: true` and "already active" exactly when it is active, otherwise "exists but is not active" and no status |
| `Lifecycle.CheckSession` | src/blueprints/session/rotues.py:21-37 | GET always answers 200; "No session found" exactly when the classroom has no session; otherwise it reports a newest session's `id`, with `status: true` exactly when that session is active |
| `Lifecycle.FirstActive` | src/blueprints/session/rotues.py:40 | none exactly when the classroom has no active session; otherwise the classroom's first active session in table order, the row `.first()` is taken to return |
| `Lifecycle.Deactivated` | src/blueprints/session/rotues.py:42 | deactivation clears the status of that one row and changes nothing else in the table |
| `Lifecycle.DeactivateToggles` | src/blueprints/session/rotues.py:40-47 | deactivating the active session keeps at most one active session per classroom, leaves the classroom with none, and changes no other classroom |
| `Lifecycle.AppendToggles` | src/blueprints/session/rotues.py:48-61 | appending an active session for a classroom without one keeps the invariant, gives it one, and changes no other classroom |
| `Lifecycle.NewestIsReported` | src/blueprints/session/rotues.py:22-32 | a session created later than every existing row is what GET reports next, as active if it is active |
| `Stats.CountOfPositive` | src/blueprints/session/rotues.py:141-146 | a category has a positive count exactly when some row carries it |
| `Stats.BumpCategories` | src/blueprints/session/rotues.py:141-146 | counting one more row adds its category to the groups and keeps the groups distinct |
| `Stats.BumpCounts` | src/blueprints/session/rotues.py:141-146 | counting one more row raises only its category's count, by one, and the sum of counts by one |
| `Stats.GroupByCategory` | src/blueprints/session/rotues.py:141-146 | the grouped query has one group per category that occurs, each count positive and equal to the number of rows of that category, and the counts sum to the number of rows |
| `Stats.GroupCounts` | src/blueprints/session/rotues.py:141-146 | each returned group's count equals the number of rows of its category |
| `Stats.ToMap` | src/blueprints/session/rotues.py:152 | the dictionary's keys are the groups' categories, and for distinct groups each key maps to its group's count |
| `Stats.SetDefaults` | src/blueprints/session/rotues.py:154-155 | the zero-fill adds the missing keys with 0 and keeps every existing entry |
| `Stats.BreakdownCounts` | src/blueprints/session/rotues.py:148-155 | the `behaviors` dictionary lists every occurring category and all three vocabulary categories, each with its number of rows (0 when none) |
| `Stats.SessionRowsMultiset` | src/blueprints/session/rotues.py:143 | the filter keeps exactly the behaviour rows of the session, each as often as the table holds it, and no other row |
| `Stats.SessionRowsAppend` | src/blueprints/session/rotues.py:107 | appending a row adds it to its own session's rows and to no other session's |
| `Stats.SessionStatsOf` | src/blueprints/session/rotues.py:136-160 | 404, with "Session not found", exactly when the session does not exist; 400 exactly when it exists without a start time; 200 whenever it exists with one, and then its classroom, start time and per-category counts of its rows, vocabulary included |
| `Stats.ClassSessions` | src/blueprints/session/rotues.py:170 | exactly the sessions with that `class_id`, each as often as the table holds it |
| `Stats.Ids` | src/blueprints/session/rotues.py:171 | one id per session, in the same order, each the session's `id` |
| `Stats.JoinOne` | src/blueprints/session/rotues.py:172-175 | the join of one behaviour row yields only copies of it, at least one exactly when its session belongs to the classroom |
| `Stats.JoinRows` | src/blueprints/session/rotues.py:172-175 | a behaviour row is in the join exactly when its session belongs to the classroom |
| `Stats.JoinOneUnique` | src/blueprints/session/rotues.py:172-175 | with a unique primary key, the join yields one behaviour row at most once |
| `Stats.JoinRowsUnique` | src/blueprints/session/rotues.py:172-175 | with a unique primary key, the join keeps each behaviour row of the classroom's sessions exactly as often as the table holds it, and no other row |
| `Stats.ClassroomSessionsStats` | src/blueprints/session/rotues.py:167-191 | 404 exactly for an unknown classroom; otherwise 200 with the number and ids of its sessions, a total equal to its number of joined behaviour rows, and per-category counts of those rows |
| `Stats.JoinOneStep` | src/blueprints/session/rotues.py:172-178 | one more behaviour row adds its join rows to the per-session sums of the classroom |
| `Stats.ClassCountIsSumOfSessionCounts` | src/blueprints/session/rotues.py:172-183 | the classroom's count of a category is the sum of its sessions' counts, and its total is the sum of its sessions' row counts |
| `Stats.ClassroomSessionStats` | src/blueprints/session/rotues.py:202-213 | 404 unless the session belongs to the classroom; otherwise exactly the per-session stats, never a 404 |
| `Stats.ForeignSessionNotFound` | src/blueprints/session/rotues.py:202-210 | a session of another classroom is a 404 through this classroom, although its unscoped stats are not |
| `Routes.DetectedRow` | src/blueprints/session/rotues.py:95-105 | the recorded row carries the fresh id, the session, the stored file name, the box (10, 20, 10, 20) and confidence 0.5, and counts once under hand-raising for that session |
| `Routes.DeactivateKeepsConsistent` | src/blueprints/session/rotues.py:42 | deactivation keeps keys unique and every behaviour row's session reference resolved |
| `Routes.AppendKeepsConsistent` | src/blueprints/session/rotues.py:49-56 | a new session with fresh keys keeps keys unique and references resolved |
| `Routes.Store.ToggleSession` | src/blueprints/session/rotues.py:39-61 | with an active session: only its status becomes false, 200 with its `session_id`; without: one active row appended, 201 with its fresh `id`; the invariant is kept and the classroom's "has an active session" flips |
| `Routes.Store.CreateOrCheckSession` | src/blueprints/session/rotues.py:17-61 | GET leaves the store unchanged and answers `CheckSession`; POST toggles as above; a store with at most one active session per classroom keeps it either way; a POST that creates a session later than every existing row makes the next GET report it as active |
| `Routes.Store.CreateThenDeactivate` | src/blueprints/session/rotues.py:40-61 | create then deactivate: 201 naming the `id`, then 200 naming the `session_id`, leaving one new inactive row |
| `Routes.Store.CreateDetection` | src/blueprints/session/rotues.py:70-121 | 404 for an unknown session, then 400 if inactive, then 400 if no file, store unchanged in each case; otherwise (an upload that `Supplied` accepts: present with a non-empty file name, since an empty-named upload is falsy) exactly one placeholder row appended and echoed with 200, raising that session's hand-raising count by one and no other session's rows |

## Left out

- The Flask plumbing (`jsonify`, `request.files`) is left out. Replies are `Response` values. The "Method not allowed" 405 branch, which only a HEAD request reaches, is not modelled.
- The `teacher_required` guard is a collaborator whose code is not part of this model. Every call is taken as authorised.
- `uuid.uuid4()` ids and the `uuid4().hex` file-name prefix are parameters. The caller must supply keys not already in use, as random UUIDs are in practice.
- `secure_filename` is not modelled: the stored name is the prefix, `_`, and the client's file name unchanged. `os.path.join` and `file.save` (disk I/O) are left out.
- The confidence `0.5` is the exact real 0.5, not a float.
- The start time is reported as the stored integer, not as an `isoformat()` string.
- The database model file is not part of this model. Column defaults for `created_at` and `class_started_at` on a new session are parameters.
- Foreign-key enforcement on `class_id` is not modelled: a POST for a classroom that does not exist creates the row.
- Exceptions, rollback and commit failures (the 500 replies, and 400 replies from failing stats queries) are left out. The exception is the missing start time, which is modelled as the 400 that `isoformat()` on a null value produces.
- The unreachable "No behaviour detected" branch is left out, because `detection` is always true.
- Concurrency between requests is left out. Each handler is one call on the store, and the invariant is stated for one call at a time.
- Orderings the database leaves open are fixed by the model. Ties on `created_at` in the GET query go to the earliest row. `.first()` on the active-session query of a POST (no `ORDER BY`) takes the earliest active row of the classroom in the table; in a store that keeps at most one active session per classroom there is only one, and only for such stores do the POST contracts' invariant clauses apply. `session_ids` follows table order. The order of the grouped query's categories is not observable, because `behaviors` is a dictionary.
- Stats.ClassSessions: its contract fixes which sessions appear and how often, not their order. The query has no `ORDER BY`, so the database promises no order for `session_ids` either.
- `src/app.py` and `run.py` are left out. They only bootstrap the application.
