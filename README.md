# Student attendance backend — a Dafny model

This project models the core of a small FastAPI/SQLAlchemy backend in which
students sign up with a college, a course and an ID-card photo, log in for a
bearer token, and check in and out of attendance once per day.

- **Attendance** (`attendance.dfy`, module `AttendanceRoutes`): the
  `check-in` / `check-out` endpoints as methods of a class `AttendanceTable`
  that holds the attendance table as a map keyed by (student id, date). Per
  student and date a record goes from no record, to checked in, to checked
  out, and each refused step has its own error. The class invariant keeps the
  unique (student_id, date) constraint, unique row ids, a check-in time on
  every row, and null coordinates on every row.
- **Signup and login** (`auth.dfy`, module `Auth`): `ValidateSignup` is the
  ordered chain of seven refusals of `signup_student`; `Registry.Signup`
  inserts the student when the chain passes; `Extension` is
  `filename.split(".")[-1].lower()`; `Login` is `login_for_access_token`.
  Password hashing, password checking and token signing are the function
  parameters `hash`, `verify` and `createToken`.
- **Credential resolution** (`dependencies.dfy`, module `Dependencies`):
  `SelectToken` is the function's own choice between the token it is given
  and the `access_token` cookie, with a case-insensitive `"bearer "` prefix
  removed. `GetCurrentStudent` maps each failure to its own 401 error. JWT
  decoding is the parameter `decode`. In the running application the token
  comes from `OAuth2PasswordBearer` with its default `auto_error=True`
  (`app/dependencies.py:11`). That dependency itself answers 401 "Not
  authenticated" when the Authorization header is missing or is not
  `Bearer`. Otherwise it passes on the text after `Bearer `, which is never
  `None`. So the cookie is read only for a request whose header is `Bearer`
  with an empty credential, and a request carrying only the cookie is
  refused before the function runs. The model takes the parameter as
  declared (`str | None`).
- **Schema** (`models.dfy`, module `Models`): one datatype per table, with
  nullable columns as `Option`. Predicates state the key, uniqueness and
  required-field constraints. `requests.dfy` (module `Requests`) holds the
  rules that span two tables: the cascade delete of a student's attendance,
  ownership of attendance rows by students, and the attendance endpoints as
  whole requests (`get_current_student`, then the endpoint).
- `text.dfy` (module `Text`) gives the Python string operations the code uses:
  `strip`, `lower`, `split`, `int()` and `str()`. `outcomes.dfy` holds
  `Option` and `Result`.

The clock (`date.today()`, `datetime.today()`), the upload directory and the
random `uuid` part of the stored file name are parameters: `today`, `now`,
`idCardsDir`, `uuidHex`. Database ids come from counters (`nextId`,
`nextStudentId`) that stand for the autoincrement columns.

The check-in and check-out code takes no location and checks no distance,
although the attendance table has latitude and longitude columns for both.
The model follows the code: no coordinate is ever written, and
`AttendanceTable.Valid` states that.

## Model

| member | source | states |
|---|---|---|
| `AttendanceRoutes.AttendanceTable.CheckIn` | app/routers/attendance.py:11-39 | Refused with AlreadyCheckedIn (table unchanged) exactly when a record exists for (student, today), checked out or not. Otherwise it adds exactly one record under that key: check-in time `now`, no check-out time, no coordinates, a fresh id. No other record changes. The table invariant is kept. |
| `AttendanceRoutes.AttendanceTable.CheckOut` | app/routers/attendance.py:41-70 | No record for (student, today) gives NotCheckedIn. A record already checked out gives AlreadyCheckedOut. Both leave the table unchanged. It succeeds exactly when the day is checked in. Then only that record's check-out time becomes `now`, and its check-in time and every other record stay as they were. The table invariant is kept. |
| `AttendanceRoutes.StatusOf` | app/routers/attendance.py:18-27 | A student's day is NotStarted exactly when the query on (student_id, date) finds no row. It is CheckedOut exactly when it finds a row whose check-out time is set. Otherwise it is CheckedIn. |
| `AttendanceRoutes.OneDay` | app/routers/attendance.py:11-70 | On a fresh table, one student's day goes: check-out first refused (NotCheckedIn), check-in accepted, second check-in refused, check-out accepted with the check-in time kept, then check-out refused (AlreadyCheckedOut) and check-in refused (AlreadyCheckedIn). |
| `Models.OneRowPerStudentDay` | app/models.py:69-71 | Under the (student_id, date) key constraint, at most one row matches a student and a date, and the query on those two columns finds a row exactly when the pair is a key. |
| `Auth.Extension` | app/routers/auth.py:76 | The extension has no dot. It is the lower-cased tail of the filename, starting just after the last dot. A name with no dot gives its whole lower-cased self. |
| `Auth.ExtensionOfDotted` | app/routers/auth.py:76-81 | For `stem + "." + e` with no dot in `e`, the extension is `e` lower-cased, whatever `stem` holds. |
| `Auth.ValidateSignup` | app/routers/auth.py:37-92 | When every check passes, the result is the filename's extension, and it is one of jpg, jpeg, png. The chosen college and course then exist. |
| `Auth.ValidateSignupReportsFirstFailure` | app/routers/auth.py:37-92 | Signup validation passes exactly when none of the seven checks fails on its own. When it fails, the reported error's check fails and every check earlier in source order passes. So a taken register number is reported before anything else. |
| `Auth.SizeLimitBoundary` | app/routers/auth.py:88-92 | Once the earlier checks pass, content of at most 5·1024·1024 bytes is accepted, exactly 5 MiB included, and anything longer is refused with FileTooLarge. |
| `Auth.Registry.Signup` | app/routers/auth.py:37-111 | It fails exactly when validation fails, with the same error, and then the tables are unchanged. On success exactly one student is added, under a fresh id. It holds the given name, register number, college and course, the stored ID-card path, and `hash(password)` as its password. The registry invariant is kept: unique register numbers, and each student's course belongs to that student's college. |
| `Auth.IdCardPath` | app/routers/auth.py:83-84 | The stored path is the upload directory, a `/`, then the file name `{register_number}_{uuid}.{ext}`. |
| `Auth.IdCardPathKeepsExtension` | app/routers/auth.py:76-84 | For an extension without a dot, reading the extension back off the stored path gives that extension again, lower-cased. |
| `Auth.FindByRegisterNumber` | app/routers/auth.py:127-131 | Under unique register numbers, a student is found exactly when one holds the register number, and it is that student. |
| `Auth.Login` | app/routers/auth.py:121-141 | Login succeeds exactly when a student with the register number exists and the password verifies against that student's stored hash. The token is then `createToken(str(student.id))` with type "bearer". |
| `Text.Strip` | app/dependencies.py:29-32 | The result is a slice `s[i..j]` of the input, and everything before `i` and from `j` on is whitespace. The result has no whitespace at either end. It is empty exactly when the input is all whitespace. An input without whitespace at its ends comes back unchanged. |
| `Text.Lower` | app/routers/auth.py:76 | Same length as the input. Each ASCII capital becomes its small letter, and every other character stays as it is. |
| `Text.StripLeading` | app/dependencies.py:29-32 | The result is a suffix of the input, everything removed is whitespace, and the result does not start with whitespace. |
| `Text.StripTrailing` | app/dependencies.py:29-32 | The result is a prefix of the input, everything removed is whitespace, and the result does not end with whitespace. |
| `Text.AfterLast` | app/routers/auth.py:76 | The result holds no separator and is a suffix of the input. It starts just after the input's last separator, or is the whole input when there is none. |
| `Text.AfterFirst` | app/dependencies.py:30 | The result is the suffix starting just after the first separator: that position holds the separator and nothing before it does. |
| `Text.ParseInt` | app/dependencies.py:49-56 | `int(s)` fails on any string holding one of the information separators U+001C to U+001F, which `isspace()` accepts but `int()` does not skip. Otherwise it succeeds exactly when `s`, with surrounding whitespace stripped, is one optional `+` or `-`, then digits where a single `_` may stand between two digits, with at most 4300 digits in all. The value is negative only after a `-`, and its magnitude is the number the digits spell. |
| `Text.ParseSeparatorRefused` | app/dependencies.py:49-56 | `"\x1c7".strip()` is `"7"`, yet `int("\x1c7")` fails: the separator counts as whitespace for `strip()` but not for `int()`. |
| `Text.ParseOverLongRefused` | app/dependencies.py:49-56 | A well-formed digit string of more than 4300 digits is refused, however small its value. |
| `Text.FormatInt` | app/routers/auth.py:139 | `str(n)` is non-empty and starts with `-` exactly when `n` is negative. Every other character is a digit. There is no leading zero unless `n` is 0. |
| `Text.ParseFormatRoundTrip` | app/dependencies.py:49-56 | `int(str(n)) == n` for every integer `n` whose `str` succeeds, that is, with at most 4300 digits. |
| `Dependencies.BearerRest` | app/dependencies.py:29-30 | For a cookie that starts with "bearer " in any case, `split(" ", 1)[1]` is the text after those seven characters. |
| `Dependencies.SelectToken` | app/dependencies.py:27-32 | A non-empty header token is used as is, and the cookie is not looked at. Otherwise a cookie starting with "bearer " (any case) gives its remainder stripped, and any other non-empty cookie gives itself stripped. With no usable cookie the header value stays. |
| `Dependencies.GetCurrentStudent` | app/dependencies.py:22-66 | NotAuthenticated exactly when the chosen token is missing or empty. CouldNotValidate exactly when decoding fails or gives no subject. InvalidSubject exactly when `int()` refuses the subject, which includes a literal of more than 4300 digits and any subject holding U+001C to U+001F. UserNotFound exactly when no student has that id. Otherwise the result is the student whose id is the parsed subject. |
| `Dependencies.BareBearerCookieIsNotAuthenticated` | app/dependencies.py:29-39 | With no header token, a cookie that is "bearer " followed only by whitespace fails with NotAuthenticated. |
| `Dependencies.OverLongSubjectIsInvalid` | app/dependencies.py:49-56 | A token whose subject is a digit string of more than 4300 digits fails with InvalidSubject, whether or not a student has that id. |
| `Dependencies.LoginTokenResolves` | app/dependencies.py:41-66 | Assume the codec reads back the subject it signed, and every student id has at most 4300 digits. Then the token from a successful login, sent as the header token, resolves to a student with the register number who logged in, and whose hash verifies the password used. |
| `Requests.DeleteStudent` | app/models.py:62-64 | Deleting a student removes exactly that student's attendance rows and leaves every other row as it was. Both table invariants are kept, and so is the rule that attendance rows belong to existing students. |
| `Requests.CheckInRequest` | app/routers/attendance.py:11-39 | A check-in request first resolves the caller. A credential failure is returned and the table is unchanged. For a resolved student the result is what check-in gives: AlreadyCheckedIn with the table and id counter unchanged when the day has a row, otherwise one fresh row for that student under the next id, with the counter advanced. Both table invariants are kept, and every attendance row still belongs to a student of the registry. |
| `Requests.CheckOutRequest` | app/routers/attendance.py:41-70 | A check-out request first resolves the caller. A credential failure leaves the table unchanged. For a resolved student, no row for the day gives NotCheckedIn and a row already checked out gives AlreadyCheckedOut, both leaving the table unchanged. It succeeds exactly when the day is checked in, and then only that row's check-out time is set. Row ownership and both invariants are kept. |

## Left out

- The check-then-insert race in check-in: two concurrent check-ins would hit the unique constraint at commit, and the resulting IntegrityError is not handled. Each endpoint is modelled as one atomic step.
- The failing-commit path of signup (rollback, deleting the written file, HTTP 500). Column length limits (`String(255)`, `String(100)`) are left out too, since only a failing commit would enforce them. Signup is modelled as an atomic insert.
- A missing upload filename (`None`) makes `split` raise and ends in a server error. The model takes the filename as a string and leaves that path out.
- File I/O in signup: creating the upload directory, writing the bytes and the `uuid` generation. The directory and the uuid hex are parameters. The path is joined with `/`. pathlib's handling of a register number that contains `/` is not modelled.
- JWT signing and decoding, and bcrypt hashing and verification (`app/auth.py`). These are the function parameters `createToken`, `decode`, `hash` and `verify`. `decode` returning nothing for a token whose type is not "access" is part of that parameter. The token's expiry and issuer are not modelled.
- FastAPI's `OAuth2PasswordBearer` dependency (`app/dependencies.py:11`) is not part of this model. With its default `auto_error=True` it refuses a missing or non-`Bearer` Authorization header with 401 "Not authenticated" before `get_current_student` runs, and it never passes `None`. `GetCurrentStudent` takes the parameter as declared, `None` included. Its cookie branches therefore describe more requests than the running application lets through: there, the cookie is consulted only for a request whose header is `Bearer` followed by an empty credential.
- Python's full Unicode `lower()` and Unicode digits in `int()`. Only ASCII letters are lowered and only ASCII digits parse. For the `"bearer "` prefix test and for accepting an extension this loses nothing: no non-ASCII character lowers to one of the ASCII letters involved or to a space.
- `Text.ParseInt` uses CPython's default digit limit of 4300 (Python 3.10.7 and later). A limit changed through `sys.set_int_max_str_digits` or `PYTHONINTMAXSTRDIGITS`, and older interpreters without the limit, are not modelled.
- `Auth.Login`: `str(student.id)` raises `ValueError` for an id of more than 4300 digits. `Login` does not model that error, since autoincrement ids never get that long. `Dependencies.LoginTokenResolves` assumes every id is within the limit.
- Time zones: `date.today()` and `datetime.today()` read the server's local clock; `today` and `now` are independent parameters. The two clock reads in one request may straddle midnight, and the model allows that.
- Foreign-key cascades from colleges and courses, and the colleges router (`app/routers/college.py`). Colleges and courses are given to the `Registry` constructor and never change.
- The pydantic schemas (`app/schemas.py`) and the application wiring (`app/main.py`).
- Geofencing and distance computation: the code has none.
- `Auth.Registry.Signup`: hashing is the abstract parameter `hash`, so the model states that the stored value is `hash(password)`. It cannot state that this differs from the plain password.
