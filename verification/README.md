# Student records: handler decisions and the query gateway, in Dafny

This project models the decision layer of a small Flask + MySQL
student-records application. It covers two source files.

- `database.py`, `Database.execute_query`. It opens a connection and runs
  one parameterised statement. A statement counts as a read when
  `query.strip().upper().startswith('SELECT')`. A read returns the fetched
  rows. Anything else is committed and returns the cursor's `lastrowid`.
  The result is `None` when the connection cannot be made or the connector
  raises `Error`. The MySQL connector is an oracle value (`Connector`). It
  says whether `connect()` succeeds, which call raises (if any), what a fetch
  returns and what `lastrowid` is. The result records the ordered events:
  cursor opened, statement executed, rows fetched or commit, cursor closed,
  connection closed.
- `app.py`, the handlers `add_student`, `view_students`, `edit_student`
  (GET and POST), `delete_student` and `search_students`. Each is a pure
  function. It takes the form or query fields and the value `execute_query`
  returned, and gives back a `Response`: the page rendered or the redirect,
  the flash message with its category, and the statement sent (its kind and
  its positional parameters), if any. The handlers test the gateway's
  value with Python truthiness (`Database.Truthy`); the edit page's GET
  also indexes a truthy value with `[0]`, which only a list of rows
  supports (any other truthy value is the `ServerError` view).
- The email check `re.match(r'[^@]+@[^@]+\.[^@]+', email)` is anchored at the
  start only. It is modelled twice: once as the regular expression's meaning
  (`Email.PrefixMatches`: some prefix of the text matches the whole pattern),
  and once at the level of characters (`Email.ValidEmail`). The character
  rule: the text before the first `@` is non-empty, and the run of non-`@`
  characters after it has a `.` that is neither its first nor its last
  character. The two are proved equivalent. So `a@b.c@x` is accepted and
  `foo@bar` is not.

Files: `wrappers.dfy` (Option), `pystr.dfy` (Python's `strip`, `upper`,
`startswith`), `email.dfy`, `database.dfy`, `app.dfy`.

## Model

| member | source | states |
|---|---|---|
| Email.ValidEmailIffPrefixMatches | app.py:32 | the character-level check accepts a string iff some prefix of it matches `[^@]+@[^@]+\.[^@]+`, which is what `re.match` decides |
| Email.PatternMatches | app.py:32 | a whole string matches `[^@]+@[^@]+\.[^@]+`: three non-empty `@`-free parts joined by an `@` and a `.` |
| Email.PrefixMatches | app.py:32 | what `re.match` decides: some prefix of the string matches the pattern |
| Email.ValidEmail | app.py:32 | the character-level check: a non-empty text before the first `@`, and a `.` strictly inside the `@`-free run after it |
| Email.AcceptsAnyContinuation | app.py:32 | once a string is accepted, appending anything keeps it accepted, because only a prefix has to match |
| Email.AcceptsPlainAddress | app.py:72 | `a@b.c` passes |
| Email.AcceptsTrailingAt | app.py:72 | `a@b.c@x` passes although it holds two `@`s |
| Email.AcceptsDoubleDot | app.py:72 | `a@..c` passes: the dot may follow another dot |
| Email.RejectsMissingDot | app.py:72 | `foo@bar` fails |
| Email.RejectsMissingAt | app.py:72 | `foo` fails |
| Email.RejectsEmptyLocalPart | app.py:72 | `@b.c` fails |
| Email.RejectsDotRightAfterAt | app.py:72 | `a@.c` fails: the dot cannot be the first character after the `@` |
| Email.IndexOf | app.py:32 | the first `@` found is an `@`, and none occurs before it; no result means the string has no `@` |
| Email.RunEnd | app.py:32 | the run after the first `@` stops at the next `@` or at the end of the text and holds no `@`: the stretch `[^@]+\.[^@]+` must fit into |
| PyStr.StripIsTrimmedSlice | database.py:68 | `strip()` leaves the contiguous slice between the leading and trailing whitespace; it starts and ends with a non-space and all that is cut off is whitespace |
| PyStr.LeadingSpace | database.py:68 | the leading run counted is all whitespace and stops at a non-space or the end |
| PyStr.TrailingSpace | database.py:68 | the trailing run found is all whitespace and starts after a non-space or at the start |
| PyStr.Strip | database.py:68 | `str.strip()` with no argument: drops leading and trailing `str.isspace` characters |
| PyStr.UpperChar | database.py:68 | one character of `str.upper()`, exactly as far as `startswith('SELECT')` can tell (see Left out); whitespace is unchanged |
| PyStr.Upper | database.py:68 | `str.upper()`, character by character, keeping the length |
| PyStr.StartsWith | database.py:68 | `str.startswith(prefix)` |
| Database.Execute | database.py:61-80 | no connection gives `None` with nothing executed; rows only for a read, exactly as fetched, never committed; a row id only after a commit of a write, equal to `lastrowid`; the statement runs with `params or ()`; on a connector that does not raise a read fetches and a write commits, whatever `lastrowid` is; an `Error` gives `None` and leaves the connection open, and the cursor too unless the raise came from closing the connection; without a raise both are closed |
| Database.Run | database.py:64-79 | the `try` block for a statement already classified: the same facts given the read/write flag |
| Database.IsRead | database.py:68 | the read/write test `query.strip().upper().startswith('SELECT')` |
| Database.Truthy | app.py:44 | Python truthiness of the gateway's value, as tested by `if result:` and `if student:` (app.py:44, 85, 95, 106): `None`, an empty list and a row id of 0 are false |
| Database.NoneParamsLikeEmpty | database.py:66 | `params or ()`: calling the gateway without parameters behaves, call for call and in its result, exactly as calling it with an empty tuple |
| Database.IsReadIgnoresTrailing | database.py:68 | the classification depends only on the upper-cased text after leading whitespace; trailing whitespace never matters |
| Database.LeadingWhitespaceIgnored | database.py:68 | prefixing any run of whitespace leaves the classification unchanged |
| Database.LowerCaseSelectIsRead | database.py:68 | whitespace (a newline, say) followed by a lower-case `select` and any text is a read |
| Database.WithQueryIsWrite | database.py:68 | a statement starting with `WITH` is treated as a write even when it only reads |
| Database.WriteUnlessS | database.py:68 | if the first non-blank character does not upper-case to `S`, the statement is a write, whatever follows |
| Database.FirstWordDecides | database.py:68 | after leading whitespace, the classification is decided by whether the upper-cased text from the first non-blank character on starts with SELECT |
| Database.SelectWord | database.py:68 | a first word that upper-cases letter by letter to SELECT makes the upper-cased text start with SELECT, whatever follows |
| Database.SelectIsRead | database.py:68 | whitespace followed by `SELECT` and any text is a read |
| App.AddStudent | app.py:17-50 | GET renders the form; missing fields are reported before a bad email, each with an error flash over the form and no statement; an INSERT with `(student_id, name, email, phone, course, year)` goes out iff both checks pass; then success and the listing iff the result is truthy, else an error flash over the form |
| App.AddRejectedIff | app.py:28-34 | an add is refused with no statement, an error flash and the form iff one of `student_id`, `name`, `email`, `course`, `year` is empty or no prefix of the email matches the pattern; `phone` is not required |
| App.AddComplete | app.py:28 | `all([student_id, name, email, course, year])`: those five fields are non-empty |
| App.PhoneMayBeEmpty | app.py:28 | emptying `phone` never changes whether the INSERT is sent, and it is then bound as the empty string |
| App.InsertBindsColumns | app.py:37-41 | the i-th INSERT parameter is the submitted field named by the i-th column of the statement's column list, as transcribed from app.py:38 into `InsertColumns` |
| App.ViewThroughGateway | app.py:52-56 | the listing (`ViewStudents`) sends its SELECT with no parameters, which the gateway runs as `()`; it shows `None` when the database cannot be reached and the fetched rows on a healthy connector |
| App.EditStudent | app.py:58-99 | GET looks the record up by `(id,)` and renders the first row when the result is a non-empty list; a falsy result redirects to the listing with "not found"; a truthy non-list is `ServerError` (Python would fail indexing it), unreachable through the gateway (see EditLookupThroughGateway); POST with a missing field or bad email redirects back to the same edit page with no UPDATE; otherwise it sends the UPDATE with `(name, email, phone, course, year, id)` and always redirects to the listing, the flash following the result's truthiness |
| App.EditRejectedIff | app.py:68-74 | an edit is sent back to its own edit page with an error flash and no statement iff one of `name`, `email`, `course`, `year` is empty or the email fails the pattern |
| App.EditComplete | app.py:68 | `all([name, email, course, year])`: those four fields are non-empty |
| App.UpdateBindsColumns | app.py:77-82 | the UPDATE binds the submitted fields to the columns it sets, in order, and the route's id last; the set columns are transcribed from app.py:79 into `UpdateColumns`, and `student_id` is not among them |
| App.DeleteStudent | app.py:101-111 | exactly one DELETE with `(id,)`, always a redirect to the listing; the flash is a success iff the result is truthy |
| App.SearchPattern | app.py:121 | the pattern is the term wrapped in one `%` on each side |
| App.SearchStudents | app.py:113-123 | the search sends the same pattern for all four placeholders, renders what came back and shows the term (empty when absent) |
| App.MissingSearchTerm | app.py:115-122 | a missing `search` argument gives the pattern `%%` four times and an empty displayed term |
| App.Classification | database.py:68 | of the six statements the handlers send, exactly the three SELECTs are treated as reads by the gateway |
| App.Sql | app.py:37-120 | the exact text of the six statements the handlers send: INSERT (app.py:37-40), SELECT all (54), UPDATE (77-81), SELECT by id (93), DELETE (103) and search (116-120), including the triple-quoted ones' leading and trailing whitespace |
| App.Indent | app.py:37-38 | the leading part of each triple-quoted statement is a line break and spaces, all whitespace |
| App.EditLookupThroughGateway | app.py:92-99 | through the gateway, the edit page never indexes a non-list; with a healthy connector and rows it renders the first fetched row, otherwise it reports "not found" |
| App.WritesCommitThroughGateway | database.py:70-72 | INSERT, UPDATE and DELETE are committed on a connector that does not raise, and the handler sees `lastrowid` (or `None`) |
| App.AddWithoutConnection | app.py:43-48 | when the database cannot be reached, a submission that passes both checks still ends with the add-failed error flash over the form |

## Left out

- Flask itself: routing, `request.form` and `request.args` access (a missing form key is a 400 in Flask, not modelled), `render_template`, `redirect`/`url_for`, flash storage, the secret key and `app.run`. The handlers return these decisions as data.
- `Database.connect` and `create_database_and_tables`: network I/O and DDL run by MySQL. Whether the connection succeeds is an input of the `Connector` oracle.
- Printing of error messages (`print`) in `execute_query` and `connect`: it is logging only.
- Exceptions other than `mysql.connector.Error`: they escape `execute_query` and are not modelled. The one such case in the handlers, indexing a truthy non-list result in the edit page, is the `ServerError` view, and it is shown unreachable through the gateway.
- SQL semantics: the uniqueness of `student_id` and `email`, `LIKE` matching (including `%` and `_` in a search term acting as wildcards), collation-dependent case folding and `ORDER BY created_at` ordering belong to the database. Only the statement and its parameters are modelled.
- What `lastrowid` is after an UPDATE or DELETE, and so whether edit and delete report success: that is connector behaviour. It stays an input (`Connector.lastRowId`).
- PyStr.UpperChar: weaker than Python's `upper()`; it agrees with it only as far as `startswith('SELECT')` can tell. It maps ASCII letters to capitals, long s to `S` and t with diaeresis to `T` (Python gives `T` plus a combining diaeresis; `T` is the last letter of SELECT, so the rest never matters). Every other character is left unchanged. That is exact for this one test: sharp s and the `ﬅ`/`ﬆ` ligatures upper-case to `SS` or `ST` and fail at the second letter; `ǰ`, `ẖ`, `ẘ`, `ẙ`, `ẚ`, `ﬀ`-`ﬄ` and others upper-case to text starting with J, H, W, Y, A, F or I, none of which is a letter of SELECT; no other character upper-cases to text starting with S, E, L, C or T. Other prefix tests (`startswith('J')`, say) would see the difference.
- PyStr.Upper: keeps the length of the text, where Python's `upper()` lengthens it for characters whose upper case is several characters (`ß` to `SS`, ligatures, `ẗ`); the read/write test only looks at the first six characters, and the previous line explains why that never changes its answer.
- Concurrency between requests: it is left to the database.
- The `index` route (app.py:13-15) renders a static page and has no logic.
