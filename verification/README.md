# Student management: request handlers as a state machine

This project models the request handlers of a small Flask + MySQL student
management application (`app.py`) with the web framework and the database
server taken away. The database is four immutable tables: `user` as a map from
username to (password digest, role), `student` as a map from id to (fields,
version), and `course` and `score` as read-only sequences. The session is the
pair of keys `username` and `role`. Every route is a pure transition
`(tables, session, input) -> (tables', session', outcome)`; the outcome enum
stands for the flashed message plus the rendered page or redirect.

Writes follow the convention of `execute_query` in `mysql_db.py`: `Some(rowcount)`
after a commit, `None` after an error and rollback. An engine error the tables
cannot explain (a lost connection, a rejected value) is the input `fault`; a
duplicate primary key on insert is decided from the tables. The handlers use
these results exactly as the code does, and the contracts show it:

- the edit handler tests only `affected == 0`, so a rejected update (`None`) is reported as "Student record updated!";
- add, delete and register report success whatever their write returned, including an add whose generated id collides with an existing row.

Modules: `Wrappers` (Option), `Schema` (tables, session, column defaults),
`Database` (the SQL statements), `Responses` (outcomes), `Auth` (username rule,
login, register, logout, dashboard, admin gate), `Students` (add, list, edit
form, version-checked edit, delete), `Scores` (the three-table join), `App`
(request dispatcher, a server interleaving many clients, system invariants).

Where the code departs from its own comments or from its documented behaviour, the model follows the code:

- `view_students` has no login check although its comment says "any logged-in user": the list is open to every session.
- A missing record is reported as "not found" only by the edit form (GET). An edit submission (POST) for a missing id matches no row and is reported as a concurrent modification.
- The login handler reads `res[0].get('role', 'user')`, but the `role` column is always selected. The stored value is therefore copied as is, NULL included, and the `'user'` fallback never applies. A registered account gets role `user` only from the column default, `Schema.DefaultRole`.

## Model

| member | source | states |
|---|---|---|
| Database.InsertUserRow | app.py:115-118 | the insert commits exactly when the engine accepts it and the username is new; it then adds exactly one row (username, digest, default role) and changes nothing else; otherwise the tables are unchanged and the call answers None |
| Database.InsertStudentRow | app.py:170-174 | the insert commits exactly when the engine accepts it and the id is new; it then adds exactly one row with the form's fields at the initial version; otherwise nothing changes and the call answers None |
| Database.UpdateStudentRow | app.py:193-210 | the conditional update answers 1 exactly when the id exists and its stored version equals the expected one, 0 when it matches nothing, None on an engine error; on 1 it replaces the fields, raises the version by exactly one and leaves every other row and table alone; otherwise nothing changes |
| Database.DeleteStudentRow | app.py:232 | the delete answers 1 or 0 according to whether the id existed, or None on an engine error; without an error the id is gone and every other row is unchanged |
| Database.SelectLogin | app.py:91-94 | at most one row matches, exactly when the username exists with that digest, and it carries the stored role |
| Database.SelectUsername | app.py:112 | the existence query returns rows exactly when the username is taken |
| Database.SelectStudent | app.py:218-221 | at most one row, present exactly when the id exists, and it is the stored record |
| Auth.IsAlpha | app.py:110 | `str.isalpha` over ASCII: true exactly for a non-empty string of letters |
| Auth.ValidUsername | app.py:110 | a username is accepted exactly when it has 3 to 6 characters, all letters, the first upper-case; the first character is read only when the length is at least 3 |
| Auth.UsernameExamples | app.py:110 | "Alan" is accepted; "al", "alan", "Alanabc" and "Al4n" are refused |
| Auth.Login | app.py:86-101 | login succeeds exactly when a row has that username and the digest of that password; the session then holds the username and the stored role; a failure changes neither the session nor the tables; login never writes |
| Auth.Register | app.py:105-121 | an invalid or taken username leaves the tables unchanged with its own outcome; otherwise exactly one user row (username, digest, default role) is added, nothing else changes, and the outcome is a redirect to login, reported even when the insert failed |
| Auth.RegisterThenLogin | app.py:90-117 | after a successful registration, logging in with the same password succeeds and the session holds that username with role `user` |
| Auth.RegisterTwiceRefused | app.py:112-113 | registering the same username a second time is refused as taken and changes nothing |
| Auth.Logout | app.py:124-128 | logout empties the session and never writes |
| Auth.Dashboard | app.py:140-143 | the dashboard is shown, with the username, exactly when the session holds a username; otherwise it redirects to login |
| Auth.AdminRequired | app.py:151-158 | unless the session's role is `admin`, the wrapped handler does not run, nothing changes and the answer is a redirect to the dashboard; with that role the answer is exactly the handler's |
| Students.AddForm | app.py:164-177 | the add form is shown exactly to an admin session; nothing changes |
| Students.AddStudent | app.py:166-176 | for an admin, a new id gets exactly one new row with the submitted fields at the initial version and nothing else changes; a colliding id or an engine error changes nothing; success is reported in every admin case |
| Students.ViewStudents | app.py:180-184 | every session, logged in or not, gets every stored record under its id and nothing else; nothing changes |
| Students.EditForm | app.py:217-225 | for an admin, the stored record with its current version is shown, or "not found" when the id is absent; nothing changes |
| Students.EditStudent | app.py:189-215 | for an admin with a matching stored version, the fields are replaced, the version rises by exactly one and every other record is untouched; with a different version or an absent id nothing changes and the outcome is a concurrent modification; an engine error changes nothing but is reported as an update |
| Students.SameVersionEditsConflict | app.py:200-201 | of two edits submitted at the same version, once the first has changed the table the second changes nothing |
| Students.SameVersionEditReportsConflict | app.py:200-212 | once an edit at some version has changed the table, a second edit at the same version without an engine error reports a concurrent modification |
| Students.EditAfterFormSucceeds | app.py:192-225 | an admin edit that submits the version its edit form showed succeeds and stores that version plus one |
| Students.DeleteStudent | app.py:228-234 | for an admin, the record with that id is removed and every other record is unchanged; an absent id or an engine error changes nothing; "Student deleted." is reported in every admin case |
| Students.DeleteIdempotent | app.py:230-234 | deleting twice equals deleting once, and deleting an absent id changes nothing yet reports success |
| Students.DeletedStudentIsGone | app.py:201-224 | after a delete, the edit form reports the id missing and an edit of it is a concurrent modification |
| Scores.CourseRows | app.py:248-252 | the rows joined from one score row are exactly its matches with courses of the same course id, when its student has the queried name |
| Scores.JoinRows | app.py:248-252 | a row is in the join exactly when some score row and course row match through a student of that name and the row is (s.id, s.name, c.course_id, c.course_name, sc.score) |
| Scores.QueryScores | app.py:241-255 | an empty or absent name answers None; any other name answers exactly the joined rows for that name; nothing changes |
| Scores.RowsCarryQueriedName | app.py:248-252 | every row of a name search carries the name searched for |
| Scores.NoCourseRowsForOtherName | app.py:248-252 | a score row whose student does not bear the name contributes no row |
| Scores.NoRowsForUnknownName | app.py:248-252 | when no student bears the name the join is empty |
| Scores.UnknownNameFindsNothing | app.py:243-255 | a name no student has gives an empty result, distinct from the None of an empty name |
| App.Handle | app.py:85-255 | no request changes the course or score tables; only admin-gated requests change students; only a registration submit changes users |
| App.HandleGrowsUsers | app.py:115-118 | no request removes or rewrites an account |
| App.HandleBumpsVersions | app.py:193-201 | every student row changed in place has its version raised by exactly one |
| App.HandleKeepsSessionConsistent | app.py:96-97 | every request keeps the session empty or naming an existing account with that account's stored role |
| App.GrowthKeepsSessionConsistent | app.py:96-97 | a consistent session stays consistent when accounts are only added |
| App.NonAdminRefused | app.py:151-158 | a non-admin session is refused every add, edit and delete request, form or submission, whatever the payload, and nothing changes |
| App.OnlyAdminsChangeStudents | app.py:151-158 | when a request changes a student record, the session names an existing account whose stored role is `admin` |
| App.LogoutRevokesAccess | app.py:124-158 | after logout the dashboard redirects to login and every admin-only request is refused |
| App.AddedStudentIsListed | app.py:170-184 | after an admin adds a student under a new id, the list includes it and its edit form shows the submitted fields at the initial version |
| App.Serve | app.py:85-255 | one request from one client: the tables, the client's stored session and the answer are exactly those of handling the request on the client's session (an empty one for a new client); every other client's session is untouched, accounts only grow, and consistent sessions stay consistent |
| App.RunEventsSnoc | app.py:85-255 | serving one more request after a sequence is serving it on the server the sequence left |
| App.RunEvents | app.py:85-255 | serving any sequence of requests from any clients keeps every session consistent with the accounts, only adds accounts, and leaves the course and score tables unchanged |
| App.NoAdminStep | app.py:115-118 | while no account is an admin, a request from a consistent session creates no admin account and changes no student record |
| App.NoAdminNoStudentChanges | app.py:151-158 | while no account holds the admin role, no sequence of requests from any clients changes a student record, because registration only creates `user` accounts |
| App.Run | app.py:85-255 | serving the requests one by one, in a loop, yields exactly the server `RunEvents` describes, and the answer to each request is the one it gets on the server the requests before it left |

## Left out

- Routing, templates, `flash`, `redirect` and `url_for` are left out. Each response is one constructor of `Responses.Outcome`; the flashed text is given in comments.
- `hash_password` computes an MD5 digest, and the hashing library is not part of this model. The digest is the parameter `hash`: any deterministic function.
- `generate_student_id` draws on `uuid4`, which is random. The new id is an input of the add request, and its nine-digit shape is not constrained.
- The database configuration from environment variables (app.py:26-44) is left out. So are the connection lifecycle (`get_db_conn`, `close_db_conn`, `open_connection`, `close_connection`), cursors, commit and rollback. A failed connection aborts the request in the code; the model has no such step.
- Read queries never fail in the model, although `execute_read_query` answers None on an error. Had they been modelled: login would report invalid credentials; register's existence check would pass and the insert would run; the score page would show the same None as an empty name.
- SQL engine semantics are simplified. The name filter is exact string equality, whereas a default MySQL collation ignores case and trailing spaces. The column types are simplified too: form values are strings and `score` is an integer. The row order of `SELECT *` and of the join is left out.
- Username comparisons are exact as well: the login lookup, the existence check and the `user` primary key. Under a case-insensitive collation, registering "ALAN" after "Alan" would be refused as taken. Logging in as "alan" would succeed and put "alan", which is not a key of the table, into the session. `App.SessionConsistent`, `App.HandleKeepsSessionConsistent`, `App.OnlyAdminsChangeStudents` and `App.NoAdminNoStudentChanges` are therefore proved for exact comparison only.
- Foreign keys are not modelled. If `score.student_id` references `student`, deleting a student who has scores is refused (and still reported as "Student deleted.") or cascades into `score`, depending on the constraint. The model deletes whenever the engine accepts the statement and never changes `score`. The `student` and `score` schemas are not part of this model.
- `student.version` is an unbounded integer. An SQL integer column has a maximum, and `version=version+1` fails there; the model reaches that failure only through the `fault` input.
- Scores.CourseRows: states which rows the join gives for one score row, not how many times each appears; the definition gives one per matching course row, as SQL does, but the contract would also admit a deduplicated result.
- Scores.JoinRows: states which rows the join gives, not their multiplicity; the definition gives one per matching (score, course) pair, but the contract does not say so.
- Scores.QueryScores: states which rows a name search returns, not how many times each appears.
- `Students.ViewStudents`: states the listed records as a map from id to record, not as the ordered rows of `SELECT * FROM student`.
- `int(request.form['version'])` raises on a non-numeric version, and a missing form key raises too; both end the request with an error page. The model takes the version as an integer and every form field as given.
- Concurrent requests are left out: each request is one atomic step on the tables, and `App.Run` interleaves whole requests.
- `str.isalpha` and `str.isupper` are Unicode-aware. The model uses ASCII letters and ASCII upper case.
- `Schema.InitialVersion` is 1. The `student` schema is not part of this model, so this column default is a stand-in; no property depends on its value.
- The root route `/` is modelled as the request `IndexRequest`, a fixed redirect to the dashboard with no contract of its own. The development-server entry point is left out.
- Session keys other than `username` and `role` are left out, such as the flashed-message queue. So is the session cookie's signing.
