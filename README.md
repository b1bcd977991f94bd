# Employee management and user authentication, modelled in Dafny

This project models the request-handling logic of two small Node.js applications.

**The employee-management API (`server.js`).**
- It has two SQLite tables, `admins` and `employees`.
- A bearer-token gate runs `jwt.verify` on the second space-separated part of the `Authorization` header.
- `POST /api/login` picks the table by `userType`, checks the password with bcrypt and signs a 24-hour token.
- Five handlers serve `/api/employees`: list, get, create, update and delete. An employee may read only their own record; everything else needs an administrator.
- On start the server seeds one administrator and one employee.
- The store is the class `EmployeeApi.Database`. It holds, for each table, a map from the AUTOINCREMENT id to the row, and that table's next id.

**The user-authentication site (`user-auth/`).**
- `auth.js` holds the browser-side checks: the email pattern, the password length, the calendar age, and the order in which the sign-in and registration forms report their first failing check.
- `backend/server.js` is a PostgreSQL service with register, login and profile handlers over a `users` table whose email is unique. It is the class `UserAuthBackend.UserTable`, a map keyed by email.
- `index.js` is a static file server. It rewrites `/` to the sign-in page, looks up the content type by extension, and maps the file read's outcome to 200, 404 or 500.

**Modules.**
- `Wrappers` holds `Option` and `Result`.
- `JsText` holds the JavaScript string built-ins the handlers rely on: `split`, `join`, `trim`, the `\s` class, UTF-16 length and `parseInt`.
- `SqliteText` is how SQLite reads the text bound to `WHERE id = ?` against an INTEGER PRIMARY KEY. Under NUMERIC affinity, text that is a complete number literal becomes a number: white space around it, a sign, digits, a fraction and an exponent. The row with that id is selected when the number is an integer.
- `Bcrypt` and `Jwt` are stand-ins for the two libraries. They are concrete enough to prove the two laws the handlers depend on:
  - `compare(q, hash(p))` holds, for every salt, exactly when `q` and `p` have the same first 72 bytes of UTF-8, the part of a password bcrypt uses.
  - `verify(sign(c, k), k)` gives back `c` until the token expires; any other secret or a later time fails.
- `EmployeeApi`, `ClientValidation`, `UserAuthBackend` and `StaticRouter` follow the four source files.

**Parameters and outcome flags.**
- The clock (`now` in seconds, `today` as SQLite's `date('now')` text) and bcrypt's random salt are parameters.
- The JWT secret from the environment is a constant of the `Database`.
- Whether a store call fails is a boolean parameter (`dbFault`, `storeFault`).
- The file system of `index.js` is a function from path to read outcome.

**Where the checks run.** The register handler of `user-auth/backend/server.js` checks neither the email format, nor the password length, nor the age. Those checks run only in the browser, in `auth.js`. So `UserAuthBackend.UserTable.Register` stores whatever it is given, and the checks are in `ClientValidation`.

## Model

| member | source | states |
|---|---|---|
| JsText.Split | server.js:80 | `split(' ')` always yields at least one part, and no part contains the separator |
| JsText.JoinSplit | server.js:80 | joining the parts of a split with the separator gives back the original text |
| JsText.SplitJoin | server.js:80 | splitting a join of separator-free parts gives back those parts (split and join are inverse) |
| JsText.SplitAfterPiece | server.js:80 | text made of a piece, the separator and a rest splits into that piece followed by the split of the rest |
| JsText.SplitWithoutSeparator | server.js:80 | text without the separator splits into itself alone |
| JsText.TrimStart | user-auth/auth.js:98 | the result is a suffix of the input with only white space removed, and it does not start with white space |
| JsText.TrimEnd | user-auth/auth.js:98 | the result is a prefix of the input with only white space removed, and it does not end with white space |
| JsText.Trim | user-auth/auth.js:98 | `trim()` is `TrimEnd` of `TrimStart`; its contract is the two rows above |
| JsText.TrimEmptyIffBlank | user-auth/auth.js:98 | `trim()` is empty exactly when the text is all white space |
| JsText.Utf16Length | user-auth/auth.js:26 | `length` counts UTF-16 code units: between the number of characters and twice that |
| JsText.Utf16LengthOfBmp | user-auth/auth.js:26 | on text within the Basic Multilingual Plane, `length` is the number of characters |
| JsText.ParseInt | server.js:196 | `parseInt(id)`: leading white space, an optional sign, a `0x` prefix choosing base 16, then the longest run of digits; no digits is NaN; its properties are the `ParseInt…` rows below |
| JsText.DigitPrefix | server.js:196 | `parseInt` reads the longest prefix of digits below the radix and stops at the first character that is not one |
| JsText.Decimal | server.js:196 | the decimal rendering of an id is non-empty and made of decimal digits only |
| JsText.DecimalValue | server.js:196 | the digits of the decimal rendering of `n` have the value `n` |
| JsText.ParseIntOfDigits | server.js:196 | `parseInt` of a string of decimal digits is their value |
| JsText.ParseIntOfDecimal | server.js:196 | `parseInt` reads back the decimal rendering of every number |
| JsText.ParseIntIgnoresTrailing | server.js:196 | `parseInt` of digits followed by a non-digit is the value of the digits: `"1abc"` reads as 1 |
| JsText.LeadingDigits | server.js:196 | text that starts with decimal digits and is not `0x…` has those digits as its leading number |
| JsText.ParseIntOfDecimalPrefix | server.js:196 | `parseInt` of the decimal rendering of `n`, followed by anything that starts with neither a digit nor an `x`, is `n` |
| JsText.ParseIntOfUnsigned | server.js:196 | for text starting with a digit and no hexadecimal prefix, `parseInt` is the value of its leading digits, or NaN when there are none |
| Bcrypt.Utf8Char | server.js:135 | a character encodes as one to four UTF-8 bytes |
| Bcrypt.Utf8 | server.js:135 | a password encodes as at least one byte per character |
| Bcrypt.Utf8Append | server.js:135 | the encoding of a concatenation is the concatenation of the encodings |
| Bcrypt.Key | server.js:135 | the key is the first 72 bytes of the password's UTF-8 encoding, or all of it when shorter |
| Bcrypt.Hash | server.js:233 | `bcrypt.hash(password, 10)` with the salt explicit: it records the cost, the salt and the digest of the key |
| Bcrypt.Compare | server.js:135 | `bcrypt.compare` recomputes the hash with the stored salt and compares; its laws are the next two rows |
| Bcrypt.CompareHash | server.js:135 | `bcrypt.compare(p, bcrypt.hash(p))` holds whatever the salt |
| Bcrypt.CompareIffSameKey | user-auth/backend/server.js:45-49 | a hash made of one password matches another password exactly when their 72-byte keys are equal |
| Bcrypt.LongPasswordsCollide | user-auth/backend/server.js:45-49 | a hash of a password of 72 characters or more followed by anything matches the same 72 characters followed by anything else |
| Jwt.EncodeField | server.js:141-145 | a claim encodes as text without spaces, so a token fits a `Bearer` header |
| Jwt.DecodeEncodeField | server.js:141-145 | decoding an encoded text field gives back the field and whatever text follows it |
| Jwt.EncodeDecodeField | server.js:141-145 | a text that decodes is exactly the encoding of what it decodes to, followed by the rest |
| Jwt.DecodeEncodeNat | server.js:141-145 | decoding an encoded number gives back the number and the text after it |
| Jwt.EncodeDecodeNat | server.js:141-145 | a text that decodes as a number is its encoding followed by the rest |
| Jwt.DecodeEncodePayload | server.js:141-145 | decoding an encoded payload (id, email, user type, issue and expiry times) gives back the payload |
| Jwt.EncodeDecodePayload | server.js:141-145 | a text that decodes as a payload is that payload's encoding and the rest |
| Jwt.Sign | server.js:141-145 | `jwt.sign` yields a non-empty token without spaces |
| Jwt.Verify | server.js:86 | `jwt.verify` gives the claims of a well-formed token whose signature matches and that has not expired, and nothing otherwise; its laws are the next rows |
| Jwt.VerifySigned | server.js:86-92 | a token that was signed with the secret and is verified before its 24-hour expiry gives back exactly the signed claims |
| Jwt.VerifyExpired | server.js:86-89 | a token verified at or after its expiry is rejected |
| Jwt.VerifyForeignSecret | server.js:86-89 | a token signed with another secret is rejected |
| Jwt.SignatureBindsSecret | server.js:86-89 | two different secrets never give the same signature |
| Jwt.VerifySound | server.js:86-92 | every token that verifies is a signature, with that secret, of a payload that carries the returned claims and has not expired |
| Jwt.DecodedTokenShape | server.js:86-92 | a token that decodes is exactly the encoded payload followed by the encoded signature, and the signed part is the encoded payload |
| EmployeeApi.Truthy | server.js:117 | a body field is truthy when present and non-empty |
| EmployeeApi.BearerToken | server.js:79-80 | the token taken from the header, when there is one, is non-empty and has no space |
| EmployeeApi.Authenticate | server.js:78-93 | the gate fails only with 401 "Access token required" or 403 "Invalid token"; it admits a caller only through a header token that verifies, and then with that token's claims |
| EmployeeApi.AdminGate | server.js:171-173 | the admin-only handlers fail with 401, 403 "Invalid token" or 403 "Admin access required", and admit only a verified administrator |
| EmployeeApi.MissingTokenIsUnauthorized | server.js:79-84 | the gate answers 401 "Access token required" exactly when there is no header, or its second space-separated part is missing or empty |
| EmployeeApi.UnverifiedTokenIsForbidden | server.js:86-89 | a header token that does not verify gives 403 "Invalid token" |
| EmployeeApi.SignedTokenAdmitted | server.js:78-92 | `<scheme> <token>` with a token signed with the server's secret admits the signed claims until expiry |
| EmployeeApi.StaleOrForeignTokenForbidden | server.js:86-89 | a token that is expired, or signed with another secret, gives 403 |
| EmployeeApi.AdmittedClaimsWereSigned | server.js:86-92 | any admitted caller presented a token signed with the server's secret |
| EmployeeApi.MayView | server.js:196 | the check as written: the caller is an administrator, or `parseInt(id)` is the caller's id |
| EmployeeApi.ViewRule | server.js:196-198 | an id `parseInt` cannot read admits administrators only; a non-administrator may view decimal id `n` exactly when `n` is their own id |
| EmployeeApi.MayViewRow | server.js:196-202 | the corrected check: the caller is an administrator, or the lookup's reading of the id is the caller's id |
| EmployeeApi.OwnRowRule | server.js:196-202 | under the corrected check a non-administrator reaches no row but their own, and may view decimal id `n` exactly when `n` is their own id |
| EmployeeApi.SelectedId | server.js:200-202 | `WHERE id = ?` selects a row exactly when SQLite reads the text as that row's id; when it selects none, the text stands for no id in the table |
| EmployeeApi.ChecksAgreeOnDigits | server.js:196-202 | on an id made of decimal digits only, `parseInt` and SQLite read the same number |
| EmployeeApi.ParseIntOfExponentForm | server.js:196 | `parseInt` reads `<a>e<b>` as `a` |
| EmployeeApi.ExponentIdPassesCheck | server.js:196-202 | for an employee with id `a ≥ 1` and `b ≥ 1`, the text `<a>e<b>` passes the check as written while SQLite reads it as `a·10^b`, another id |
| SqliteText.SqliteInteger | server.js:200-202 | the integer SQLite reads from the bound text, or none when it is not a complete number literal or not integral; its laws are the next rows |
| SqliteText.Pow10 | server.js:200-202 | powers of ten are at least 1 |
| SqliteText.UnsignedDigits | server.js:200-202 | digits followed by text that starts with neither a digit nor `.` have those digits as mantissa, and the exponent of that text, if it is one |
| SqliteText.SqliteIntegerOfDigits | server.js:200-202 | a run of decimal digits is read as the integer it spells |
| SqliteText.SqliteIntegerOfDecimal | server.js:200-202 | the decimal rendering of an id is read as that id |
| SqliteText.LeadingSpaceIgnored | server.js:200-202 | a white-space character in front of the id text changes nothing |
| SqliteText.SqliteIntegerWithExponent | server.js:200-202 | `<a>e<b>` is read as `a·10^b` |
| SqliteText.HalfSelectsNothing | server.js:200-202 | `<a>.5` is not an integer and selects no row |
| EmployeeApi.FindByEmail | server.js:122-124 | the email lookup finds a row holding the email, or reports that no row holds it |
| EmployeeApi.Database.constructor | server.js:30-58 | the tables start empty and both AUTOINCREMENT counters start at 1 |
| EmployeeApi.Database.InsertAdmin | server.js:64-67 | INSERT OR IGNORE into `admins`: a row with a taken email is not stored, but the AUTOINCREMENT counter still moves past the id it was given; otherwise the row is stored at the next id and the counter moves past it |
| EmployeeApi.Database.InsertEmployee | server.js:69-72 | INSERT into `employees`, plain (its use at lines 235-245) or OR IGNORE (the seed): a row with a taken email is not stored, and the counter moves on only for OR IGNORE; otherwise the row is stored at the next id, the counter moves past it, and emails stay unique |
| EmployeeApi.Database.ReplaceEmployee | server.js:273-279 | the UPDATE is stored exactly when no other row holds the new email; otherwise nothing changes |
| EmployeeApi.Database.SelectAll | server.js:175-182 | the listed rows are the table's rows exactly once each, in ascending id order, projected without the password |
| EmployeeApi.ListsBelowStep | server.js:175-182 | a scan in id order that has listed every row below a bound still does so after the row at the bound, if any, is appended |
| EmployeeApi.ListsBelowAll | server.js:175-182 | once the bound is above every id, the scan lists the whole table |
| EmployeeApi.Database.Initialize | server.js:61-72 | the seeded administrator and employee are inserted unless their emails are already present, in which case the table is unchanged but its AUTOINCREMENT counter still advances by one; both emails are present afterwards |
| EmployeeApi.Database.Partition | server.js:121 | the table is `admins` exactly when `userType` is `'admin'`, and `employees` for any other value |
| EmployeeApi.Database.Login | server.js:113-166 | a falsy email, password or user type gives 400; a store failure gives 500; the table is `admins` exactly when `userType` is `'admin'`; the answer is 200 exactly when a row holds the email and its password matches, and the identical 401 "Invalid credentials" otherwise; on 200 the token carries exactly the row's id, the given email and the user type as supplied, and the `user` object has id, email and names but no password |
| EmployeeApi.Database.ListEmployees | server.js:169-188 | a gate failure is answered first, then a store failure with 500; otherwise 200 with every row exactly once, in ascending id order, without the password |
| EmployeeApi.Database.GetEmployeeAsWritten | server.js:191-218 | the handler as written: the gate answers first; a caller failing the `parseInt` check gets 403 "Access denied" before the store is used; a store failure gives 500; an id that selects no row gives 404; otherwise 200 with the row SQLite selects, projected without the password |
| EmployeeApi.Database.GetEmployee | server.js:191-218 | the corrected handler: the same order of answers, with the check made on the id the lookup selects; on 200 the row is the caller's own unless the caller is an administrator |
| EmployeeApi.Database.CreateEmployee | server.js:221-261 | checks run in order: gate, then the six required fields (400), then a store failure (500), then a taken email (400 "Email already exists"); each failure, as modelled, leaves both tables unchanged (a failure of the SELECT after the INSERT is folded into the store failure, see "## Left out"); success stores the hashed row, with status 'Active' and today's hire date, at an id above every earlier id, and answers 201 with its projection |
| EmployeeApi.Database.UpdateEmployee | server.js:264-299 | after the gate, a store failure gives 500 and an id that selects no row gives 404, both changing nothing; absent NOT NULL columns or another row's email give 500 and change nothing; otherwise the eight fields and `updated_at` are overwritten and everything else, including password and hire date, is kept |
| EmployeeApi.Database.DeleteEmployee | server.js:302-327 | after the gate, a store failure gives 500, an id that selects no row gives 404 and changes nothing, and otherwise exactly that row is removed with 200 "Employee deleted successfully" |
| EmployeeApi.AdminDeletesMissingEmployee | server.js:317-319 | on a freshly seeded store the seeded administrator signs in and deleting id 9999 gives 404 |
| EmployeeApi.BearerHeader | server.js:79-92 | a `Bearer` header around a freshly signed token passes the gate with the signed claims |
| EmployeeApi.AdminSignsIn | server.js:113-156 | the seeded administrator, with password `admin123`, gets 200 and an admin token |
| EmployeeApi.EmployeeSignsIn | server.js:113-156 | the seeded employee, with password `employee123`, gets 200 with id 1 and a token for exactly those claims |
| EmployeeApi.SignsInAlone | server.js:113-156 | on a table holding one row at id 1 whose hash matches, the login gives 200 and a token for that row's claims |
| EmployeeApi.SeededDatabase | server.js:28-75 | a new store after initialization holds exactly the seeded administrator and employee, each at id 1, and both counters are at 2 |
| EmployeeApi.RestartedDatabase | server.js:61-72 | seeding a seeded store again keeps both tables as they were but moves both counters to 3, so the next employee created gets id 3 |
| EmployeeApi.EmployeeSession | server.js:113-156 | a freshly seeded store and the seeded employee's header, which authenticates to the employee's claims |
| EmployeeApi.EmployeeReadsOwnRecord | server.js:191-212 | the seeded employee reads their own record |
| EmployeeApi.EmployeeRefusedOtherRecord | server.js:196-198 | under the corrected check, the seeded employee asking with any id text that SQLite does not read as 1 gets 403 "Access denied" |
| EmployeeApi.ExponentIdReadsOtherRow | server.js:196-212 | as written, an employee with id `a` asking for `<a>e3` is served the row with id `1000·a`; the corrected handler answers the same request with 403 |
| EmployeeApi.AdminSession | server.js:113-156 | a freshly seeded store and an administrator's header that passes the admin gate |
| EmployeeApi.AdminCreatesEmployee | server.js:221-254 | an administrator creating an employee with a new email gets 201 with the projection of the stored row |
| EmployeeApi.CreatedEmployeeIsServed | server.js:191-254 | a created employee is then served by `GET /api/employees/:id` exactly as the 201 response showed it |
| EmployeeApi.DeleteIsNotRepeatable | server.js:309-321 | a delete succeeds once, and a second delete of the same id gives 404 |
| ClientValidation.ValidateEmail | user-auth/auth.js:20-23 | the pattern `^[^\s@]+@[^\s@]+\.[^\s@]+$` as three plain runs joined by `@` and `.`; its meaning is the next row |
| ClientValidation.ValidateEmailShape | user-auth/auth.js:20-23 | the email pattern holds exactly when the text has no white space, exactly one `@` with something before it, and after it a `.` that is neither the first nor the last character |
| ClientValidation.MatchIsWellFormed | user-auth/auth.js:20-23 | text the pattern matches has that shape |
| ClientValidation.WellFormedMatches | user-auth/auth.js:20-23 | text of that shape matches the pattern |
| ClientValidation.ValidatePassword | user-auth/auth.js:25-27 | at least six UTF-16 code units |
| ClientValidation.ValidatePasswordLength | user-auth/auth.js:25-27 | six characters always pass; within the Basic Multilingual Plane the rule is exactly "at least six characters" |
| ClientValidation.CalculateAge | user-auth/auth.js:29-40 | the age is the number of birthdays reached: the `age`th has come and the next has not |
| ClientValidation.AgeIsUnique | user-auth/auth.js:32-39 | that characterisation fixes the age: it is the year difference, less one before this year's birthday |
| ClientValidation.AgeOnBirthDate | user-auth/auth.js:29-40 | the age on the birth date itself is 0 |
| ClientValidation.AgeMonotone | user-auth/auth.js:29-40 | the age never decreases as today advances |
| ClientValidation.AtLeastThirteenIff | user-auth/auth.js:113-117 | the age is at least 13 exactly from the thirteenth birthday on |
| ClientValidation.DaysInMonth | user-auth/auth.js:29-40 | a Gregorian month has between 28 and 31 days |
| ClientValidation.PreviousDayIsPredecessor | user-auth/auth.js:29-40 | the day before a calendar date is a calendar date, comes before it, and every calendar date before it is on or before that day |
| ClientValidation.AfterPreviousDay | user-auth/auth.js:29-40 | a calendar day is on or after a date exactly when it is after that date's day before, also when the date is 29 February of a common year |
| ClientValidation.ThirteenthBirthday | user-auth/auth.js:113-117 | for every birth date `getMonth` and `getDate` can report, the age on the calendar day before the thirteenth birthday is 12 and on the birthday it is 13; on every calendar day the age is at least 13 exactly when the day is after that day before, so a 29 February birth reaches 13 on 1 March |
| ClientValidation.Underage | user-auth/auth.js:113-114 | the age rule refuses an entered date whose age is below 13, and passes an unparsable one, whose age is NaN |
| ClientValidation.FirstFailure | user-auth/auth.js:98-127 | an early-return chain reports nothing exactly when every check holds, and otherwise the message of the first check that fails |
| ClientValidation.FirstFailureOfSix | user-auth/auth.js:98-127 | a chain of six checks reports the first that fails, in order |
| ClientValidation.RegisterCheck | user-auth/auth.js:98-127 | the registration handler's chain of six checks; its order is the next row |
| ClientValidation.RegisterReportsFirstFailure | user-auth/auth.js:98-127 | registration checks names, email, date of birth, age, password and confirmation in that order, reports only the first failure, and sends the request only when all six pass |
| ClientValidation.LoginCheck | user-auth/auth.js:51-59 | the sign-in handler's two checks; their order is the next row |
| ClientValidation.LoginReportsFirstFailure | user-auth/auth.js:51-59 | sign-in checks the email before the password and sends nothing when either fails |
| ClientValidation.RegisterAgeRule | user-auth/auth.js:113-117 | with valid names and email and a birth date given, registration is refused for age exactly until the thirteenth birthday |
| UserAuthBackend.Project | user-auth/backend/server.js:63 | the profile query returns first name, last name, email and date of birth of the row, and no password |
| UserAuthBackend.UserTable.constructor | user-auth/backend/server.js:10-16 | the table starts empty |
| UserAuthBackend.UserTable.Register | user-auth/backend/server.js:18-34 | a missing password or a store failure gives 500 "Registration failed"; an existing email gives 400 "Email already exists" and leaves the table unchanged; otherwise exactly one row is added, with the hashed password, and the answer is 201 "User registered successfully" |
| UserAuthBackend.UserTable.Login | user-auth/backend/server.js:36-57 | a store failure gives 500; the answer is 200 "Login successful" exactly when the email has a row whose hash matches the password; an unknown email and a wrong password both get the identical 401 "Invalid email or password"; the table is not modified |
| UserAuthBackend.UserTable.Profile | user-auth/backend/server.js:59-74 | a store failure gives 500; an existing email gives exactly its four public columns; any other email gives 404 "User not found"; the table is not modified |
| UserAuthBackend.RegisterThenLogin | user-auth/backend/server.js:21-47 | after registering a new email with a password, signing in with them gives 200 "Login successful" |
| UserAuthBackend.RegisterTwice | user-auth/backend/server.js:22-49 | a second registration of the same email gets 400 and keeps the first row, so the second password signs in exactly when its 72-byte key equals the first's |
| UserAuthBackend.RegisterThenProfile | user-auth/backend/server.js:21-67 | after a registration the profile shows exactly the submitted names, email and birth date |
| StaticRouter.RewritePath | user-auth/index.js:22-25 | `/` becomes `/login.html`; its laws are the next row |
| StaticRouter.RewriteOnlyRoot | user-auth/index.js:22-25 | `/` is rewritten to `/login.html`, every other path is left unchanged, and the rewrite is idempotent |
| StaticRouter.RelativePath | user-auth/index.js:28 | `slice(1)` drops exactly the first character |
| StaticRouter.StripTrailingSlashesSpec | user-auth/index.js:29 | the result is a prefix of the path that does not end in `/`, and only `/` characters were dropped |
| StaticRouter.LastSegmentSpec | user-auth/index.js:29 | the last segment is the path's suffix after its last `/` and contains no `/` |
| StaticRouter.LastDotSpec | user-auth/index.js:29 | the position found holds a `.`, and no `.` follows it |
| StaticRouter.ExtName | user-auth/index.js:29 | the extension is empty, or a `.` followed by characters that are neither `.` nor `/` |
| StaticRouter.ExtNameOfFile | user-auth/index.js:29 | a file `stem.suffix` in any directory has the extension `.suffix` |
| StaticRouter.LoginPageIsHtml | user-auth/index.js:22-30 | the sign-in page has the extension `.html` |
| StaticRouter.RootFile | user-auth/index.js:22-28 | a request for `/` reads the file `login.html` |
| StaticRouter.ContentType | user-auth/index.js:7-30 | a listed extension gets its type from the table; any other gets `text/plain` |
| StaticRouter.UnknownExtensionIsPlainText | user-auth/index.js:30 | an extension outside the eight listed is served as `text/plain` |
| StaticRouter.Serve | user-auth/index.js:18-68 | a missing file (ENOENT) gives 404 as `text/html`; any other read error gives 500 "Server error" as `text/plain`; a file that is read gives 200 with the content type of its extension, and the body is the file's data unchanged |
| StaticRouter.RootServesLoginPage | user-auth/index.js:22-66 | a request for `/` serves the bytes of `login.html` as `text/html` |
| StaticRouter.ServesFileWithItsType | user-auth/index.js:28-66 | a file found under a path ending `stem.suffix` is served byte for byte with the type of `.suffix` |
| StaticRouter.ServeReadsOneFile | user-auth/index.js:28-33 | the response depends only on the outcome of reading the one requested file |

## Findings

| source | as written | input that shows it | evidently intended | confidence | as-written member | corrected member |
|---|---|---|---|---|---|---|
| server.js:196-202 | the access check compares the caller's id with `parseInt(id)`, but the row is looked up by SQLite, which reads the same text under NUMERIC affinity; `parseInt` stops at an `e` while SQLite reads the exponent | the employee with id 1 requests `GET /api/employees/1e3`: `parseInt` gives 1, the check passes, and SQLite selects the row with id 1000 | an employee reads only their own row, whatever text the id is written as | not executed | EmployeeApi.Database.GetEmployeeAsWritten, shown by EmployeeApi.ExponentIdReadsOtherRow and EmployeeApi.ExponentIdPassesCheck | EmployeeApi.Database.GetEmployee |

## Left out

- Console logging, the port numbers, `app.listen`, `cors`, `express.json` and the page routes of `server.js` (lines 97-110) are not modelled. Neither are the server processes themselves.
- Bcrypt.Hash: the digest is a stand-in, the 72-byte key itself next to the salt and cost. The model says which passwords `compare` accepts. It does not model one-wayness, the cost of the rounds, or how bcrypt treats a NUL byte in a password.
- Jwt.Sign: the token is a stand-in encoding. It is a space-free payload followed by a signature that is the secret followed by the payload. The model proves the laws the handlers relied on, not HMAC-SHA256 or base64url.
- An unset `JWT_SECRET` is not modelled; the secret is a given string. With no secret, `jwt.verify` reports an error to its callback, which the gate answers with 403 "Invalid token", and `jwt.sign` throws, which the login handler answers with 500.
- `jwt.verify` options that the code does not use (`nbf`, audience, algorithms) are not modelled. Expiry is the strict test `now < exp`, on whole seconds.
- The `try`/`catch` around each handler and bcrypt's own failure in `server.js` are not modelled separately. Every store or library failure is the one `dbFault` flag, and it takes precedence over the outcome of the statement it affects.
- The second SELECT after an INSERT or UPDATE is not modelled separately. Its failure is folded into `dbFault`, and the row it reads is the one just written. In the source, when that SELECT fails after the INSERT of `POST /api/employees` or the UPDATE of `PUT /api/employees/:id` has committed, the answer is 500 but the row written stays stored; the model's `dbFault` answers 500 before any write and changes nothing.
- `salary` is a SQLite REAL column and is modelled as an optional integer; floating point is out of scope.
- `created_at`, `updated_at` and `hire_date` are the `now` and `today` parameters. The clock is not required to move forward.
- SqliteText.SqliteInteger: a literal's value is computed exactly, as a rational number. SQLite converts through a double, so digits beyond 15 to 17 significant figures, and values outside the 64-bit integer range, may be read differently. Neither is modelled.
- JsText.ParseInt: JavaScript's conversion to a double, precision loss for numbers above 2^53 and `-0` are not modelled. The id check compares exact integers.
- Non-string JSON values in request bodies (numbers, booleans, objects) are not modelled. A field is absent, null or a string.
- `date_of_birth` in the user-auth backend is the text that was submitted. PostgreSQL's DATE conversion and the JSON form of the value it returns are not modelled, and neither are the `users` table schema and its possible NOT NULL constraints.
- UserAuthBackend.UserTable.Register: the names, email and birth date are taken to be present strings. An absent field would be sent as NULL; whether PostgreSQL refuses it depends on the `users` schema, which is not part of this model.
- ClientValidation.CalculateAge: dates are (year, month, day) triples. `new Date(text)` parsing, time zones (a `YYYY-MM-DD` string is read as UTC midnight while the getters use local time) and the system clock are not modelled.
- ClientValidation.Underage: an unparsable date gives a NaN age. NaN is not below 13, so the form passes the age check; the model reflects that through `DateInput.Unparsable`.
- The regular-expression engine is not modelled; the email pattern is stated directly as a predicate.
- `showMessage`, `setTimeout`, `fetch`, `sessionStorage`, the redirects and the DOM wiring of `auth.js` are not modelled. Neither are the browser pages `public/admin.js`, `employee-management/public/employee.js` and `employee-management/public/login.js`.
- StaticRouter.ExtName and StaticRouter.Serve: `url.parse` is taken to deliver the path, and `path.join` is not modelled. In particular, normalisation of `.` and `..` segments and of repeated slashes is left out. The extension is read from the request path, and the file system is a function from the path below the served directory to the read outcome.
- The markup of the 404 page is not modelled; the body is the constructor `NotFoundPage`.
