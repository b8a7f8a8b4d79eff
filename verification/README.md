# Student profiles service — a Dafny model

The student-app is a small Node.js HTTP service that manages a PostgreSQL
table of students. Each student has an id, a name, an age, a grade and an
e-mail address. The service has two parts:

- `ansible/roles/student-app/files/app.js`: the request handler of
  `createServer`. It is a fixed chain of method and path tests that chooses
  a route. The route's catch, or the outer catch, picks the status code and
  the JSON envelope.
- `ansible/student-app/files/students.js`: the data layer. It lists, looks up,
  filters and aggregates the rows. It creates, updates and deletes students,
  and it checks e-mail addresses against a regular expression.

This project models both in Dafny and proves what they promise:

- which request reaches which route;
- which status and envelope each outcome gets;
- that the e-mail regex means what a reader takes it to mean;
- that each store operation changes exactly the rows it should;
- that the quote escaping of the page's Edit button round-trips, and where
  it does not.

Modules, one per file:

| file | module | models |
|---|---|---|
| `wrappers.dfy` | `Wrappers` | `Option` and `Result` |
| `js_text.dfy` | `JsText` | the JavaScript string operations the handler relies on: whitespace for `\s`, `split`, and `parseInt` without a radix |
| `email.dfy` | `Email` | `isValidEmail` |
| `students.dfy` | `Students` | the table as a `StudentStore` class (a map from id to row, the next serial id, and a connection fault) with one method per `students.js` function, and the pure queries that specify them |
| `router.dfy` | `Router` | the dispatch chain of `createServer` |
| `responses.dfy` | `Responses` | status codes and response envelopes |
| `server.dfy` | `Server` | the required-field check and the whole request handler, run against the store |
| `edit_button.dfy` | `EditButton` | the single-quote escape of the Edit button, a reader for JavaScript single-quoted literals, and the corrected escape |

How the model represents the store and the handler:

- **Store failures.** Every SQL statement can fail. The model gives the
  store a `fault` field: while it is set, every statement fails with its
  message. This is what reaches the 500 path of the page, list and grade
  routes.
- **NaN ids.** `parseInt` of an id segment can be `NaN`. The model writes
  that as `None`. Statements given a `NaN` id fail with PostgreSQL's
  integer-syntax error, with the same status as any other failure on that
  route.
- **Request bodies.** The parsed JSON body is either its four fields, each
  present or absent, or the error that parsing threw.
- **Routes that do no work.** Preflight and unrouted requests never reach
  the store. Their outcome is `NoWork`, and only they have it.
- **The grade distribution.** `getGradeDistribution` writes each count into a
  plain `{}`. A grade spelled `__proto__` goes to the inherited prototype
  setter, which ignores a number, so that grade gets no key. The model drops
  that key too.

Two behaviours of the code worth noting:

- A PUT on an id that matches no student answers 400, not 404. The update
  route's catch writes 400 for every error (`app.js:573-575`).
- A PUT or DELETE whose id segment is not a number (`/x/api/students/5`
  matches the unanchored id pattern) answers 400 or 404 with the database's
  error message. It does not answer 500.

## Model

| member | source | states |
|---|---|---|
| JsText.Split | ansible/roles/student-app/files/app.js:525 | `split('/')` yields one more part than there are separators |
| JsText.JoinSplit | ansible/roles/student-app/files/app.js:525 | joining the parts of a split with the separator gives the string back |
| JsText.SplitPartsHaveNoSeparator | ansible/roles/student-app/files/app.js:525 | no part of a split contains the separator |
| JsText.SplitAtSeparator | ansible/roles/student-app/files/app.js:525 | splitting `a + "/" + b` splits `a` and `b` separately and concatenates the results |
| JsText.TrimStart | ansible/roles/student-app/files/app.js:525 | `parseInt` skips exactly the leading whitespace: the result is a suffix, the dropped characters are whitespace, and what remains does not start with whitespace |
| JsText.DigitPrefix | ansible/roles/student-app/files/app.js:525 | `parseInt` reads the longest prefix of digits in its radix |
| JsText.ParseIntLeadingDigits | ansible/roles/student-app/files/app.js:525 | a segment that starts with decimal digits, followed by nothing or by a character that is neither a digit nor `x`, parses to the value of those digits, whatever follows |
| JsText.ParseIntDecimalString | ansible/roles/student-app/files/app.js:525 | `parseInt` reads back every decimal numeral: `parseInt(String(n)) == n` |
| JsText.ParseIntHexPrefix | ansible/roles/student-app/files/app.js:525 | without a radix, a segment `0x` followed by hexadecimal digits is read in radix 16 |
| JsText.ParseInt | ansible/roles/student-app/files/app.js:525 | `parseInt` without a radix: skip leading whitespace, take one sign, read a `0x` numeral in radix 16 or else a decimal one, ignore what follows, and give NaN (`None`) when no digit is read; its properties are the `ParseInt…` lemmas below |
| JsText.ParseIntNoDigits | ansible/roles/student-app/files/app.js:525 | a text whose first character is not whitespace, not a sign and not a decimal digit parses to NaN |
| Email.EmailRegexIsWellFormedAddress | ansible/student-app/files/students.js:4-6 | the regex accepts an address exactly when it has no whitespace, exactly one `@` with a non-empty part before it, and after it a `.` that is neither the domain's first nor its last character |
| Email.WhitespaceRejected | ansible/student-app/files/students.js:5 | an address that contains a whitespace character is rejected |
| Email.EmailExamples | ansible/student-app/files/students.js:4-6 | `a@b.co` is accepted; `a@b`, `a b@c.com` and ` @b.com` are rejected |
| Students.AllStudents | ansible/student-app/files/students.js:35 | the table's rows in ascending id order, as `ORDER BY id` returns them; its contract is stated by `AllStudentsSpec` |
| Students.RowsInRange | ansible/student-app/files/students.js:35 | the rows with ids in a range, ascending by id, each equal to the table's row |
| Students.AllStudentsSpec | ansible/student-app/files/students.js:33-36 | the listing holds every row exactly once, in ascending id order, and nothing else |
| Students.WithGrade | ansible/student-app/files/students.js:62-66 | the filter keeps exactly the students with the given grade |
| Students.WithGradeAscending | ansible/student-app/files/students.js:63 | filtering keeps ascending id order |
| Students.StudentsByGradeSpec | ansible/student-app/files/students.js:60-66 | the grade query returns exactly the table's rows with that grade, ascending by id, possibly none |
| Students.AverageAge | ansible/student-app/files/students.js:76-77 | `AVG(age)` over the rows, 0 for no rows; its contract is stated by `AverageAgeSpec` and `AverageAgeWithinBounds` |
| Students.AverageAgeSpec | ansible/student-app/files/students.js:76-77 | the average of an empty table is 0; otherwise average × count = sum of ages |
| Students.AverageAgeWithinBounds | ansible/student-app/files/students.js:76-77 | the average lies between the least and the greatest age |
| Students.DistinctGrades | ansible/student-app/files/students.js:88 | `GROUP BY grade` yields each grade present exactly once, and no other |
| Students.GradeGroups | ansible/student-app/files/students.js:87-89 | `SELECT grade, COUNT(*) … GROUP BY grade`: one row per distinct grade with its count; its contract is stated by `GradeGroupsSpec` |
| Students.GradeGroupsSpec | ansible/student-app/files/students.js:87-89 | the grouped rows have distinct grades, one per grade present, each with its row count of at least 1, and the counts sum to the table size |
| Students.GradeGroupsSumToSize | ansible/student-app/files/students.js:88 | the counts of the grouped rows sum to the number of students |
| Students.BuildDistribution | ansible/student-app/files/students.js:91-94 | the loop's object has one key per grouped row's grade except `__proto__`, whose assignment creates no key; each key holds the count of the last row with that grade |
| Students.InvalidEmails | ansible/student-app/files/students.js:15-23 | the (id, name, email) projections of the rows whose address the regex rejects, in row order; its contract is stated by `InvalidEmailsSpec` |
| Students.InvalidEmailsSpec | ansible/student-app/files/students.js:15-23 | a projected row is in the audit exactly when some student with that projection has an address the regex rejects; the audit is no longer than the table |
| Students.CollectInvalidEmails | ansible/student-app/files/students.js:13-25 | the loop pushes exactly the projections of the rows with invalid addresses, in table order |
| Students.StudentStore.constructor | ansible/student-app/files/students.js:1 | a new store is an empty table whose serial starts at 1 |
| Students.StudentStore.GetAllStudents | ansible/student-app/files/students.js:33-41 | every row, ascending by id, or the store's failure |
| Students.StudentStore.GetStudentById | ansible/student-app/files/students.js:44-57 | the row with that id; "Student not found" when there is none; the integer-syntax error for a NaN id; or the store's failure |
| Students.StudentStore.GetStudentsByGrade | ansible/student-app/files/students.js:60-71 | exactly the rows with that grade, ascending by id, or the store's failure |
| Students.StudentStore.GetAverageAge | ansible/student-app/files/students.js:74-82 | the mean age of the table, 0 when it is empty, or the store's failure |
| Students.StudentStore.GetGradeDistribution | ansible/student-app/files/students.js:85-101 | one key per grade present except `__proto__`, mapped to that grade's row count, or the store's failure |
| Students.StudentStore.ValidateAllEmails | ansible/student-app/files/students.js:10-30 | the projections of the rows whose address the regex rejects, or the store's failure |
| Students.StudentStore.AddStudent | ansible/student-app/files/students.js:104-121 | an invalid address fails with "Invalid email address" before the store is touched; otherwise the store's failure leaves the table unchanged, or the record is inserted under the next serial id, which was unused, and is returned |
| Students.StudentStore.UpdateStudent | ansible/student-app/files/students.js:124-144 | a non-empty invalid address fails first; then the store's failure, a NaN id or a missing id ("Student not found") leave the table unchanged; otherwise all four fields of that row are replaced, its id kept, and no other row changes |
| Students.StudentStore.DeleteStudent | ansible/student-app/files/students.js:147-160 | the store's failure, a NaN id or a missing id ("Student not found") leave the table unchanged; otherwise exactly that row is removed and its prior values returned |
| Students.CreateThenRead | ansible/student-app/files/students.js:44-52 | a student read back by the id that creating it returned is the record created |
| Students.DeleteThenRead | ansible/student-app/files/students.js:147-155 | a deleted student is returned by the delete and is then "Student not found" |
| Router.Dispatch | ansible/roles/student-app/files/app.js:42-594 | the first-match chain of method and path tests; its contract is stated by `DispatchSpec` and the lemmas below it |
| Router.DispatchSpec | ansible/roles/student-app/files/app.js:42-594 | which requests reach each route: OPTIONS on any path, `GET /`, `GET /api/students`, `POST /api/students`, the id pattern for GET, PUT and DELETE, the grade pattern for GET when no id pattern matches, and 404 for everything else |
| Router.DispatchIdIsFourthSegment | ansible/roles/student-app/files/app.js:523-525 | the id routes carry `parseInt` of the fourth `/`-separated segment |
| Router.IdPathHasFourSegments | ansible/roles/student-app/files/app.js:523-525 | a path the id pattern matches has a fourth segment |
| Router.GradePathHasFiveSegments | ansible/roles/student-app/files/app.js:535-536 | a path the grade pattern matches has a fifth segment |
| Router.IdPrefixMatches | ansible/roles/student-app/files/app.js:523 | `/api/students/` followed by a digit matches the id pattern |
| Router.CanonicalIdRoutes | ansible/roles/student-app/files/app.js:523-589 | GET, PUT and DELETE on `/api/students/<n>` reach get-by-id, update and delete with id n |
| Router.DispatchOnIdPath | ansible/roles/student-app/files/app.js:523-589 | on a path the id pattern matches, the method alone selects get-by-id, update or delete, all with the same id |
| Router.DispatchGradeIsFifthSegment | ansible/roles/student-app/files/app.js:535-536 | the grade route carries the fifth `/`-separated segment of the path, verbatim |
| Router.GradePathIsNoIdPath | ansible/roles/student-app/files/app.js:523-535 | `/api/students/grade/<seg>` is not shadowed by the id routes |
| Router.CanonicalGradeRoute | ansible/roles/student-app/files/app.js:535-537 | GET on `/api/students/grade/<seg>`, with seg starting with A–F, reaches the grade route with seg taken verbatim |
| Router.UnanchoredIdPath | ansible/roles/student-app/files/app.js:523-525 | since the pattern is not anchored, a path with a leading directory reaches get-by-id, but its fourth segment is `students`, so the id is NaN |
| Router.UnanchoredGradePath | ansible/roles/student-app/files/app.js:535-537 | since the grade pattern is not anchored either, `GET /x/api/students/grade/<seg>` reaches the grade route, but its fifth segment is `grade`, so it looks up the grade `grade` |
| Router.HexadecimalId | ansible/roles/student-app/files/app.js:579-581 | `DELETE /api/students/0x<hex digits>` deletes the student whose id is that hexadecimal value (`0x1f` is 31) |
| Responses.Respond | ansible/roles/student-app/files/app.js:527-602 | the status and envelope each route writes for its outcome; its contract is stated by `StatusByRoute` and `EnvelopeMatchesStatus` |
| Responses.Status | ansible/roles/student-app/files/app.js:527-602 | the status code of `Respond`; its contract is stated by `StatusByRoute` and `StatusIgnoresError` |
| Responses.StatusByRoute | ansible/roles/student-app/files/app.js:42-602 | the status table: preflight 200, unrouted 404, get-by-id 200/404, create 201/400, update 200/400, delete 200/404, and page, list and grade 200/500 |
| Responses.StatusIgnoresError | ansible/roles/student-app/files/app.js:529-587 | a failure's status depends on the route and not on the error; a missing id is 400 on update and 404 on delete |
| Responses.EnvelopeMatchesStatus | ansible/roles/student-app/files/app.js:527-602 | a 2xx answer carries data or nothing, and any other an error; a route's own catch reports the error's message, and an uncaught error gives 500 "Internal server error" with the message beside it |
| Server.BodyError | ansible/roles/student-app/files/app.js:544-549 | the error create and update raise before calling the store: the parse error, or "All fields are required" when a field is falsy; its contract is stated by `BodyErrorSpec` |
| Server.BodyErrorSpec | ansible/roles/student-app/files/app.js:544-549 | a body passes the required-field check exactly when all four fields are present, the texts are non-empty and the age is not 0; a failing body gives "All fields are required" |
| Server.HandleRequest | ansible/roles/student-app/files/app.js:35-604 | the response follows the dispatched route and the outcome; preflight and unrouted requests, and only they, do no work; only a successful create, update or delete changes the table, and only a successful create advances the serial; a body error comes before any store call, then the e-mail check; the store's failure fails every route that reaches the store, and gives 500 on the page, list and grade routes; a NaN id fails get-by-id, update and delete with PostgreSQL's integer-syntax error; otherwise each route returns what its store operation specifies, including the page's distribution keys and counts |
| EditButton.EscapeQuotes | ansible/roles/student-app/files/app.js:338 | the escaped text is as long as the input plus the number of quotes in it |
| EditButton.EscapedQuotesArePreceded | ansible/roles/student-app/files/app.js:338 | every `'` in the escaped text has a `\` right before it |
| EditButton.UnescapeEscapeQuotes | ansible/roles/student-app/files/app.js:338 | the escape only inserts a backslash before each quote: dropping those gives the text back |
| EditButton.ReadSingleQuoted | ansible/roles/student-app/files/app.js:338 | how the browser reads the single-quoted literal the button's handler contains: the text up to the first unescaped `'`, with `\` escapes decoded, and no literal at all when a raw line break, the end of the text, or an escape the model does not read comes first; its contract is stated by `ReadSingleQuotedEndsAtQuote` |
| EditButton.ReadSingleQuotedEndsAtQuote | ansible/roles/student-app/files/app.js:338 | a literal the browser reads ends at a closing quote inside the text |
| EditButton.BackslashEscapesClosingQuote | ansible/roles/student-app/files/app.js:338 | a name that is one backslash is not read back from the button's literal |
| EditButton.BackslashQuoteClosesEarly | ansible/roles/student-app/files/app.js:338 | for the name `\'`, the literal closes one character before the escaped name ends |
| EditButton.EscapeForLiteral | ansible/roles/student-app/files/app.js:338 | the corrected escape adds one character for each quote, backslash, LF and CR |
| EditButton.ReadEscapedLiteral | ansible/roles/student-app/files/app.js:338 | with the corrected escape, the browser reads back exactly the name or e-mail, and the literal closes at the quote after it |
| EditButton.EscapesAgreeWithoutBackslash | ansible/roles/student-app/files/app.js:338 | for text with no backslash and no line break, the corrected escape is the page's escape |

## Left out

- `db.js` is not part of this model: the connection pool, its configuration, query timing, logging and `testConnection`. The store is an abstract table with a connection fault.
- SQL constraint errors (string lengths, NOT NULL, a unique e-mail, an age out of `int4` range) are not modelled. Every store failure is the one uniform `fault`.
- `parseBody` stream handling is left out. The body is given already parsed: an empty body parses to `{}`, and a JSON syntax error, or a body that cannot be destructured (`null`), becomes `Unparsable` with the thrown message.
- JSON values of other types (a numeric name, a string age, an object email) are not modelled. Their truthiness, and what PostgreSQL would coerce them to, are out of scope. A fractional `age` such as `20.5` is one of them: the body's age is an integer, so the model cannot express it. PostgreSQL rejects it for the integer column, so create and update would answer 400.
- Server.HandleRequest: requests are handled one at a time. The interleaving of concurrent requests at each `await` (`app.js:54-56`, `544-551`, `562-570`) is left out. So the page's list, average and distribution come from one table state, and a row an update or delete finds is the row of the state the request arrived in. The server does not guarantee either.
- URL normalisation by `new URL` is left out: the percent-encoding of some characters, the removal of `.` and `..` segments, the turning of `\` into `/`, and the 500 answer a malformed Host header would cause. The model's path is the `pathname` after that normalisation.
- Response headers (CORS, Content-Type), the HTML and CSS of the page, the client-side script, and server startup and exit are left out. The page route's body is the data it renders.
- Students.AverageAge: computed as an exact rational. It does not model PostgreSQL's numeric `AVG`, `parseFloat`, or the page's `toFixed(1)`.
- JsText.ParseInt: exact integers. Ids beyond 2^53, where `parseInt` loses precision, and ids outside PostgreSQL's `integer` range are not modelled.
- Students.NanIdMessage: the integer-syntax error text is PostgreSQL's; its exact wording may differ between server versions.
- Students.BuildDistribution: fed the grouped rows in first-appearance order rather than sorted by grade. That changes only the key order of the JSON object, which a map does not have.
- Students.StudentStore.ValidateAllEmails: its statement has no `ORDER BY`. The model reads the rows in id order, and the audit keeps that order.
- Students.StudentStore.GetGradeDistribution: proved against the grouped rows. That the grouped counts sum to the table size is stated by `GradeGroupsSpec`, not as an ensures of the method. The map's own values sum to that size less the rows graded `__proto__`, and this is not proved.
- EditButton.ReadSingleQuoted: does not read the escapes that take digits (`\0`, octal, `\x`, `\u`) or line continuations, and does not model the HTML attribute decoding the browser applies before the script sees the handler. A `"` in a name, which ends the `onclick` attribute, is not modelled.

## Findings

| source | as written | input that shows it | evidently intended | confidence | as-written member | corrected member |
|---|---|---|---|---|---|---|
| ansible/roles/student-app/files/app.js:338 | The Edit button puts the name and e-mail into single-quoted JavaScript literals, escaping only `'` as `\'`. Backslashes and line breaks pass through unescaped. | The name `\'`: it is escaped to `\\'`, which the browser reads as a backslash followed by a closing quote, so the literal ends early and the rest of the name runs as code. A name of a single `\` escapes the closing quote instead. | Every name and e-mail reads back exactly from its literal: escape `\`, `'`, LF and CR | high, not executed | EditButton.BackslashQuoteClosesEarly | EditButton.ReadEscapedLiteral |
