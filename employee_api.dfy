/** The employee-management API of `server.js`: the bearer-token gate, `POST /api/login`, the
    five `/api/employees` handlers and the seeding of the `admins` and `employees` tables.

    Every handler returns its HTTP status and JSON body. The SQLite store is the `Database`
    class: one map per table from the AUTOINCREMENT id to the row, and the next id of each
    table. A request's clock reading (`now`, in seconds; `today`, as SQLite's `date('now')`
    text) and the failure of a store call (`dbFault`) are parameters. */
module EmployeeApi {
  import opened Wrappers
  import opened JsText
  import opened SqliteText
  import Bcrypt
  import Jwt

  /** A value of the JSON request body: absent (or null) or a string. */
  type Field = Option<string>

  /** JavaScript truthiness of a request field: present and not the empty string. */
  predicate Truthy(f: Field) {
    f.Some? && f.value != ""
  }

  // ---------------------------------------------------------------------------
  // Rows, projections and responses

  datatype AdminRow = AdminRow(
    firstName: string, lastName: string, email: string,
    password: Bcrypt.PasswordHash, createdAt: nat)

  /** A row of `employees`; `phone`, `salary` and `status` are nullable columns. */
  datatype EmployeeRow = EmployeeRow(
    firstName: string, lastName: string, email: string, phone: Field,
    position: string, department: string, salary: Option<int>,
    password: Bcrypt.PasswordHash, hireDate: string, status: Field,
    createdAt: nat, updatedAt: nat)

  /** The columns every employee query selects: the password hash and the timestamps are not among them. */
  datatype Summary = Summary(
    id: nat, firstName: string, lastName: string, email: string, phone: Field,
    position: string, department: string, salary: Option<int>, hireDate: string, status: Field)

  function Summarize(id: nat, row: EmployeeRow): Summary {
    Summary(id, row.firstName, row.lastName, row.email, row.phone, row.position,
            row.department, row.salary, row.hireDate, row.status)
  }

  /** The `user` object of a login response. */
  datatype LoginUser = LoginUser(id: nat, email: string, firstName: string, lastName: string)

  datatype Body =
    | ErrorBody(error: string)
    | MessageBody(message: string)
    | EmployeeBody(employee: Summary)
    | EmployeeListBody(employees: seq<Summary>)
    | LoginBody(token: string, userType: string, user: LoginUser)

  datatype Response = Response(status: nat, body: Body)

  const AccessTokenRequired := Response(401, ErrorBody("Access token required"))
  const InvalidToken := Response(403, ErrorBody("Invalid token"))
  const AdminRequired := Response(403, ErrorBody("Admin access required"))
  const AccessDenied := Response(403, ErrorBody("Access denied"))
  const FieldsRequired := Response(400, ErrorBody("Email, password, and user type are required"))
  const InvalidCredentials := Response(401, ErrorBody("Invalid credentials"))
  const RequiredFieldsMissing := Response(400, ErrorBody("Required fields missing"))
  const EmailExists := Response(400, ErrorBody("Email already exists"))
  const NotFound := Response(404, ErrorBody("Employee not found"))
  const Deleted := Response(200, MessageBody("Employee deleted successfully"))
  const InternalError := Response(500, ErrorBody("Internal server error"))

  // ---------------------------------------------------------------------------
  // The authorization gate

  /** `authHeader && authHeader.split(' ')[1]`, kept only when it is truthy. */
  function BearerToken(authorization: Field): (token: Field)
    ensures token.Some? ==> token.value != "" && ' ' !in token.value
  {
    if authorization.None? then None
    else
      var parts := Split(authorization.value, ' ');
      if |parts| >= 2 && parts[1] != "" then Some(parts[1]) else None
  }

  /** `authenticateToken`: the verified claims, or the response that ends the request. */
  function Authenticate(authorization: Field, secret: string, now: nat): (g: Result<Jwt.Claims, Response>)
    ensures g.Failure? ==> g.error == AccessTokenRequired || g.error == InvalidToken
    ensures g.Success? ==> BearerToken(authorization).Some?
                           && Jwt.Verify(BearerToken(authorization).value, secret, now) == Some(g.value)
  {
    match BearerToken(authorization)
    case None => Failure(AccessTokenRequired)
    case Some(token) =>
      match Jwt.Verify(token, secret, now)
      case None => Failure(InvalidToken)
      case Some(claims) => Success(claims)
  }

  predicate IsAdmin(caller: Jwt.Claims) {
    caller.userType == "admin"
  }

  /** `authenticateToken` followed by the `userType !== 'admin'` check of the admin-only handlers. */
  function AdminGate(authorization: Field, secret: string, now: nat): (g: Result<Jwt.Claims, Response>)
    ensures g.Failure? ==> g.error == AccessTokenRequired || g.error == InvalidToken || g.error == AdminRequired
    ensures g.Success? ==> Authenticate(authorization, secret, now) == g && IsAdmin(g.value)
  {
    match Authenticate(authorization, secret, now)
    case Failure(response) => Failure(response)
    case Success(caller) => if IsAdmin(caller) then Success(caller) else Failure(AdminRequired)
  }

  /** The check of `GET /api/employees/:id` as written: an admin, or the caller whose id
      `parseInt(id)` gives. */
  predicate MayView(caller: Jwt.Claims, idParam: string) {
    IsAdmin(caller) || ParseInt(idParam) == Some(caller.id as int)
  }

  /** Text that `parseInt` cannot read admits administrators only, and a non-administrator
      may view the decimal id `n` exactly when `n` is their own id. */
  lemma ViewRule(caller: Jwt.Claims, idParam: string, n: nat)
    ensures ParseInt(idParam).None? ==> (MayView(caller, idParam) <==> IsAdmin(caller))
    ensures !IsAdmin(caller) ==> (MayView(caller, Decimal(n)) <==> n == caller.id)
  {
    ParseIntOfDecimal(n);
  }

  /** The check the handler evidently intends: an admin, or the caller whose id is the one the
      lookup `WHERE id = ?` uses. */
  predicate MayViewRow(caller: Jwt.Claims, idParam: string) {
    IsAdmin(caller) || SqliteInteger(idParam) == Some(caller.id as int)
  }

  /** Under the corrected check a non-administrator reaches no row but their own, and may view
      the decimal id `n` exactly when `n` is their own id. */
  lemma OwnRowRule(caller: Jwt.Claims, idParam: string, m: map<nat, EmployeeRow>, n: nat)
    ensures !IsAdmin(caller) && MayViewRow(caller, idParam) && SelectedId(m, idParam).Some?
            ==> SelectedId(m, idParam).value == caller.id
    ensures !IsAdmin(caller) ==> (MayViewRow(caller, Decimal(n)) <==> n == caller.id)
  {
    SqliteIntegerOfDecimal(n);
  }

  /** A request is answered 401 before any token is verified exactly when it has no
      Authorization header or the header's second space-separated part is missing or empty
      (`"Bearer"`, `"Bearer "`, `"Bearer  t"`). */
  lemma MissingTokenIsUnauthorized(authorization: Field, secret: string, now: nat)
    ensures Authenticate(authorization, secret, now) == Failure(AccessTokenRequired)
            <==> BearerToken(authorization).None?
  {
  }

  /** A token in the second part that does not verify is answered 403 "Invalid token". */
  lemma UnverifiedTokenIsForbidden(authorization: Field, secret: string, now: nat)
    requires BearerToken(authorization).Some?
    requires Jwt.Verify(BearerToken(authorization).value, secret, now).None?
    ensures Authenticate(authorization, secret, now) == Failure(InvalidToken)
  {
  }

  /** `<scheme> <token>` with a token the server signed passes the gate with the signed claims
      until the token expires. */
  lemma SignedTokenAdmitted(scheme: string, claims: Jwt.Claims, secret: string, iat: nat, now: nat)
    requires ' ' !in scheme && now < iat + Jwt.ExpiresIn
    ensures Authenticate(Some(scheme + " " + Jwt.Sign(claims, secret, iat)), secret, now) == Success(claims)
  {
    var token := Jwt.Sign(claims, secret, iat);
    SplitAfterPiece(scheme, ' ', token);
    SplitWithoutSeparator(token, ' ');
    assert scheme + " " + token == scheme + [' '] + token;
    Jwt.VerifySigned(claims, secret, iat, now);
  }

  /** The same header is answered 403 once the token has expired or under another secret. */
  lemma StaleOrForeignTokenForbidden(scheme: string, claims: Jwt.Claims, signer: string, iat: nat,
                                     secret: string, now: nat)
    requires ' ' !in scheme
    requires now >= iat + Jwt.ExpiresIn || signer != secret
    ensures Authenticate(Some(scheme + " " + Jwt.Sign(claims, signer, iat)), secret, now) == Failure(InvalidToken)
  {
    var token := Jwt.Sign(claims, signer, iat);
    SplitAfterPiece(scheme, ' ', token);
    SplitWithoutSeparator(token, ' ');
    assert scheme + " " + token == scheme + [' '] + token;
    if now >= iat + Jwt.ExpiresIn {
      Jwt.VerifyExpired(claims, signer, iat, secret, now);
    } else {
      Jwt.VerifyForeignSecret(claims, signer, iat, secret, now);
    }
  }

  /** The gate trusts nothing but a token signed with the server's secret: the claims it admits
      are those of a signed, unexpired payload carried in the header. */
  lemma AdmittedClaimsWereSigned(authorization: Field, secret: string, now: nat)
    requires Authenticate(authorization, secret, now).Success?
    ensures exists p: Jwt.Payload :: BearerToken(authorization) == Some(Jwt.SignPayload(p, secret))
              && p.claims == Authenticate(authorization, secret, now).value && now < p.exp
  {
    Jwt.VerifySound(BearerToken(authorization).value, secret, now);
  }

  // ---------------------------------------------------------------------------
  // The `:id` path parameter

  /** The id of the row that `WHERE id = ?` selects: the row whose id the text stands for
      under SQLite's NUMERIC affinity, if there is one. */
  function SelectedId(m: map<nat, EmployeeRow>, idParam: string): (selected: Option<nat>)
    ensures selected.Some? ==> selected.value in m && SqliteInteger(idParam) == Some(selected.value as int)
    ensures selected.None? ==> forall k :: k in m ==> SqliteInteger(idParam) != Some(k as int)
  {
    match SqliteInteger(idParam)
    case Some(k) => if k >= 0 && k as nat in m then Some(k as nat) else None
    case None => None
  }

  /** On an id made of decimal digits only, `parseInt` and SQLite read the same number, so
      the check and the lookup mean the same row. */
  lemma ChecksAgreeOnDigits(s: string)
    requires |s| >= 1 && forall i :: 0 <= i < |s| ==> IsDecimalDigit(s[i])
    ensures ParseInt(s) == SqliteInteger(s)
  {
    ParseIntOfDigits(s);
    SqliteIntegerOfDigits(s);
  }

  /** The two readings part on an exponent: `parseInt` stops at the `e` of `<a>e<b>` and reads
      `a`, while SQLite reads `a` times ten to the `b`. An employee whose id is `a` therefore
      passes the check as written with a text that selects another row. */
  lemma ExponentIdPassesCheck(caller: Jwt.Claims, b: nat)
    requires caller.id >= 1 && b >= 1
    ensures var idParam := Decimal(caller.id) + "e" + Decimal(b);
            && MayView(caller, idParam)
            && SqliteInteger(idParam) == Some(caller.id * Pow10(b))
            && caller.id * Pow10(b) != caller.id
  {
    var idParam := Decimal(caller.id) + "e" + Decimal(b);
    ParseIntOfExponentForm(caller.id, b);
    SqliteIntegerWithExponent(caller.id, b);
    ScaledAway(caller.id, b);
  }

  lemma ParseIntOfExponentForm(a: nat, b: nat)
    ensures ParseInt(Decimal(a) + "e" + Decimal(b)) == Some(a as int)
  {
    var tail := "e" + Decimal(b);
    assert Decimal(a) + "e" + Decimal(b) == Decimal(a) + tail;
    assert tail[0] == 'e';
    ParseIntOfDecimalPrefix(a, tail);
  }

  lemma ScaledAway(a: nat, b: nat)
    requires a >= 1 && b >= 1
    ensures a * Pow10(b) != a
  {
    var p := Pow10(b - 1);
    assert Pow10(b) == 10 * p;
    assert a * (10 * p) == 10 * (a * p);
    assert a * p >= a;
  }

  // ---------------------------------------------------------------------------
  // Table invariants and email lookup

  ghost predicate AdminEmailsUnique(m: map<nat, AdminRow>) {
    forall i, j :: i in m && j in m && m[i].email == m[j].email ==> i == j
  }

  ghost predicate EmployeeEmailsUnique(m: map<nat, EmployeeRow>) {
    forall i, j :: i in m && j in m && m[i].email == m[j].email ==> i == j
  }

  ghost predicate AdminEmailTaken(m: map<nat, AdminRow>, email: string) {
    exists id :: id in m && m[id].email == email
  }

  ghost predicate EmailTaken(m: map<nat, EmployeeRow>, email: string) {
    exists id :: id in m && m[id].email == email
  }

  /** A row other than `id` holds the email. */
  ghost predicate EmailTakenByOther(m: map<nat, EmployeeRow>, email: string, id: nat) {
    exists k :: k in m && k != id && m[k].email == email
  }

  /** What login needs of a row of either table. */
  datatype Credential = Credential(email: string, password: Bcrypt.PasswordHash, firstName: string, lastName: string)

  function AdminCredentials(m: map<nat, AdminRow>): map<nat, Credential> {
    map id | id in m :: Credential(m[id].email, m[id].password, m[id].firstName, m[id].lastName)
  }

  function EmployeeCredentials(m: map<nat, EmployeeRow>): map<nat, Credential> {
    map id | id in m :: Credential(m[id].email, m[id].password, m[id].firstName, m[id].lastName)
  }

  /** `SELECT ... WHERE email = ?` on a table whose emails are unique. */
  method FindByEmail(table: map<nat, Credential>, email: string) returns (found: Option<nat>)
    ensures found.Some? ==> found.value in table && table[found.value].email == email
    ensures found.None? ==> forall id :: id in table ==> table[id].email != email
  {
    var unseen := table.Keys;
    while unseen != {}
      invariant unseen <= table.Keys
      invariant forall id :: id in table && id !in unseen ==> table[id].email != email
      decreases unseen
    {
      var id :| id in unseen;
      if table[id].email == email {
        return Some(id);
      }
      unseen := unseen - {id};
    }
    return None;
  }

  /** The response list of `GET /api/employees`: every row of the table exactly once, in
      ascending id order, each projected without its password. */
  ghost predicate ListsTable(rows: seq<Summary>, m: map<nat, EmployeeRow>) {
    && (forall i, j :: 0 <= i < j < |rows| ==> rows[i].id < rows[j].id)
    && (forall i :: 0 <= i < |rows| ==> rows[i].id in m && rows[i] == Summarize(rows[i].id, m[rows[i].id]))
    && (forall id :: id in m ==> exists i :: 0 <= i < |rows| && rows[i].id == id)
  }

  /** Ids strictly ascending along the list. */
  ghost predicate IdsAscending(rows: seq<Summary>) {
    forall i, j :: 0 <= i < j < |rows| ==> rows[i].id < rows[j].id
  }

  /** Every listed entry is the projection of the row with its id, and that id is below `bound`. */
  ghost predicate RowsBelow(rows: seq<Summary>, m: map<nat, EmployeeRow>, bound: nat) {
    forall i :: 0 <= i < |rows| ==>
      rows[i].id < bound && rows[i].id in m && rows[i] == Summarize(rows[i].id, m[rows[i].id])
  }

  /** Every id of the table below `bound` is listed. */
  ghost predicate CoversBelow(rows: seq<Summary>, m: map<nat, EmployeeRow>, bound: nat) {
    forall id :: id in m && id < bound ==> exists i :: 0 <= i < |rows| && rows[i].id == id
  }

  /** `ListsTable` for the ids below `bound`: what a scan in id order has produced so far. */
  ghost predicate ListsBelow(rows: seq<Summary>, m: map<nat, EmployeeRow>, bound: nat) {
    IdsAscending(rows) && RowsBelow(rows, m, bound) && CoversBelow(rows, m, bound)
  }

  /** One step of the scan: the row at `bound`, when there is one, is appended. */
  lemma ListsBelowStep(rows: seq<Summary>, m: map<nat, EmployeeRow>, bound: nat)
    requires ListsBelow(rows, m, bound)
    ensures bound in m ==> ListsBelow(rows + [Summarize(bound, m[bound])], m, bound + 1)
    ensures bound !in m ==> ListsBelow(rows, m, bound + 1)
  {
    if bound in m {
      var s := Summarize(bound, m[bound]);
      AppendAscending(rows, m, bound, s);
      AppendRowsBelow(rows, m, bound, s);
      AppendCoversBelow(rows, m, bound, s);
    } else {
      assert CoversBelow(rows, m, bound + 1) by {
        forall id | id in m && id < bound + 1 ensures exists i :: 0 <= i < |rows| && rows[i].id == id {
          assert id < bound;
        }
      }
    }
  }

  lemma AppendAscending(rows: seq<Summary>, m: map<nat, EmployeeRow>, bound: nat, s: Summary)
    requires IdsAscending(rows) && RowsBelow(rows, m, bound) && s.id == bound
    ensures IdsAscending(rows + [s])
  {
    var next := rows + [s];
    forall i, j | 0 <= i < j < |next| ensures next[i].id < next[j].id {
      assert next[i] == rows[i];
      if j < |rows| {
        assert next[j] == rows[j];
      }
    }
  }

  lemma AppendRowsBelow(rows: seq<Summary>, m: map<nat, EmployeeRow>, bound: nat, s: Summary)
    requires RowsBelow(rows, m, bound) && bound in m && s.id == bound && s == Summarize(bound, m[bound])
    ensures RowsBelow(rows + [s], m, bound + 1)
  {
    var next := rows + [s];
    forall i | 0 <= i < |next|
      ensures next[i].id < bound + 1 && next[i].id in m && next[i] == Summarize(next[i].id, m[next[i].id])
    {
      if i < |rows| {
        assert next[i] == rows[i];
      }
    }
  }

  lemma AppendCoversBelow(rows: seq<Summary>, m: map<nat, EmployeeRow>, bound: nat, s: Summary)
    requires CoversBelow(rows, m, bound) && s.id == bound
    ensures CoversBelow(rows + [s], m, bound + 1)
  {
    var next := rows + [s];
    forall id | id in m && id < bound + 1 ensures exists i :: 0 <= i < |next| && next[i].id == id {
      if id == bound {
        assert next[|rows|].id == id;
      } else {
        var i :| 0 <= i < |rows| && rows[i].id == id;
        assert next[i].id == id;
      }
    }
  }

  /** Once the bound is above every key, the scan lists the whole table. */
  lemma ListsBelowAll(rows: seq<Summary>, m: map<nat, EmployeeRow>, bound: nat)
    requires ListsBelow(rows, m, bound) && forall id :: id in m ==> id < bound
    ensures ListsTable(rows, m)
  {
  }

  /** The seeded administrator and employee of `initializeDatabase`. */
  function SeedAdmin(salt: nat, now: nat): AdminRow {
    AdminRow("BARATH", "G", "admin@company.com", Bcrypt.Hash("admin123", salt), now)
  }

  function SeedEmployee(salt: nat, now: nat, today: string): EmployeeRow {
    EmployeeRow("Barath", "G", "barathg.work@gmail.com", Some("+91-9080187006"), "Software Developer",
                "Engineering", Some(75000), Bcrypt.Hash("employee123", salt), today, Some("Active"), now, now)
  }

  // ---------------------------------------------------------------------------
  // The store and its handlers

  class Database {
    /** `process.env.JWT_SECRET`. */
    const secret: string
    var admins: map<nat, AdminRow>
    var employees: map<nat, EmployeeRow>
    /** The next AUTOINCREMENT id of each table: above every id the table has ever held. */
    var nextAdminId: nat
    var nextEmployeeId: nat

    ghost predicate Valid()
      reads this
    {
      && 1 <= nextAdminId && 1 <= nextEmployeeId
      && (forall id :: id in admins ==> 1 <= id < nextAdminId)
      && (forall id :: id in employees ==> 1 <= id < nextEmployeeId)
      && AdminEmailsUnique(admins)
      && EmployeeEmailsUnique(employees)
    }

    /** A freshly created database file: both tables empty. */
    constructor (secret: string)
      ensures Valid() && this.secret == secret
      ensures admins == map[] && employees == map[] && nextAdminId == 1 && nextEmployeeId == 1
    {
      this.secret := secret;
      admins, employees := map[], map[];
      nextAdminId, nextEmployeeId := 1, 1;
    }

    /** The table `POST /api/login` searches: `admins` when `userType === 'admin'`, else `employees`. */
    function Partition(userType: string): map<nat, Credential>
      reads this
    {
      if userType == "admin" then AdminCredentials(admins) else EmployeeCredentials(employees)
    }

    // The SQL statements the handlers issue.

    /** `INSERT OR IGNORE INTO admins`: the row is given the next AUTOINCREMENT id before the
        UNIQUE email column is checked, so a row whose email is present is skipped (`None`) but
        its id is used up all the same; otherwise the row is stored under that id. */
    method InsertAdmin(row: AdminRow) returns (id: Option<nat>)
      requires Valid()
      modifies this
      ensures Valid()
      ensures employees == old(employees) && nextEmployeeId == old(nextEmployeeId)
      ensures AdminEmailTaken(old(admins), row.email) ==>
        id.None? && admins == old(admins) && nextAdminId == old(nextAdminId) + 1
      ensures !AdminEmailTaken(old(admins), row.email) ==>
        && id == Some(old(nextAdminId))
        && admins == old(admins)[old(nextAdminId) := row]
        && nextAdminId == old(nextAdminId) + 1
    {
      var clash := FindByEmail(AdminCredentials(admins), row.email);
      assert forall k :: k in admins ==> k in AdminCredentials(admins)
                                         && AdminCredentials(admins)[k].email == admins[k].email;
      if clash.Some? {
        assert admins[clash.value].email == row.email;
        nextAdminId := nextAdminId + 1;
        return None;
      }
      id := Some(nextAdminId);
      admins := admins[nextAdminId := row];
      nextAdminId := nextAdminId + 1;
    }

    /** `INSERT INTO employees`, or `INSERT OR IGNORE` when `orIgnore` holds. A row whose email
        is present is refused (`None`). The plain INSERT then aborts and its id is not used; the
        OR IGNORE form skips the row but has used up its id, as for `admins`. */
    method InsertEmployee(row: EmployeeRow, orIgnore: bool) returns (id: Option<nat>)
      requires Valid()
      modifies this
      ensures Valid()
      ensures admins == old(admins) && nextAdminId == old(nextAdminId)
      ensures EmailTaken(old(employees), row.email) && !orIgnore ==> id.None? && unchanged(this)
      ensures EmailTaken(old(employees), row.email) && orIgnore ==>
        id.None? && employees == old(employees) && nextEmployeeId == old(nextEmployeeId) + 1
      ensures !EmailTaken(old(employees), row.email) ==>
        && id == Some(old(nextEmployeeId))
        && employees == old(employees)[old(nextEmployeeId) := row]
        && nextEmployeeId == old(nextEmployeeId) + 1
    {
      var clash := FindByEmail(EmployeeCredentials(employees), row.email);
      assert forall k :: k in employees ==> k in EmployeeCredentials(employees)
                                            && EmployeeCredentials(employees)[k].email == employees[k].email;
      if clash.Some? {
        assert employees[clash.value].email == row.email;
        if orIgnore {
          nextEmployeeId := nextEmployeeId + 1;
        }
        return None;
      }
      id := Some(nextEmployeeId);
      employees := employees[nextEmployeeId := row];
      nextEmployeeId := nextEmployeeId + 1;
    }

    /** `UPDATE employees ... WHERE id = ?` of a row that exists: refused, changing nothing, when
        another row already holds the new email. */
    method ReplaceEmployee(id: nat, row: EmployeeRow) returns (stored: bool)
      requires Valid() && id in employees
      modifies this
      ensures Valid()
      ensures admins == old(admins) && nextAdminId == old(nextAdminId) && nextEmployeeId == old(nextEmployeeId)
      ensures stored <==> !EmailTakenByOther(old(employees), row.email, id)
      ensures stored ==> employees == old(employees)[id := row]
      ensures !stored ==> unchanged(this)
    {
      var holder := FindByEmail(EmployeeCredentials(employees), row.email);
      assert forall k :: k in employees ==> k in EmployeeCredentials(employees)
                                            && EmployeeCredentials(employees)[k].email == employees[k].email;
      if holder.Some? && holder.value != id {
        assert employees[holder.value].email == row.email;
        return false;
      }
      employees := employees[id := row];
      stored := true;
    }

    /** `SELECT <columns> FROM employees ORDER BY id`. */
    method SelectAll() returns (rows: seq<Summary>)
      requires Valid()
      ensures ListsTable(rows, employees)
    {
      rows := [];
      var id: nat := 1;
      while id < nextEmployeeId
        invariant 1 <= id <= nextEmployeeId
        invariant ListsBelow(rows, employees, id)
      {
        ListsBelowStep(rows, employees, id);
        if id in employees {
          rows := rows + [Summarize(id, employees[id])];
        }
        id := id + 1;
      }
      ListsBelowAll(rows, employees, id);
    }

    /** `initializeDatabase`: `INSERT OR IGNORE` the sample administrator and employee; a row
        whose email is already present is not stored, but still uses up an id of its table. */
    method Initialize(adminSalt: nat, employeeSalt: nat, now: nat, today: string)
      requires Valid()
      modifies this
      ensures Valid()
      ensures AdminEmailTaken(old(admins), "admin@company.com")
              ==> admins == old(admins) && nextAdminId == old(nextAdminId) + 1
      ensures !AdminEmailTaken(old(admins), "admin@company.com")
              ==> admins == old(admins)[old(nextAdminId) := SeedAdmin(adminSalt, now)]
                  && nextAdminId == old(nextAdminId) + 1
      ensures EmailTaken(old(employees), "barathg.work@gmail.com")
              ==> employees == old(employees) && nextEmployeeId == old(nextEmployeeId) + 1
      ensures !EmailTaken(old(employees), "barathg.work@gmail.com")
              ==> employees == old(employees)[old(nextEmployeeId) := SeedEmployee(employeeSalt, now, today)]
                  && nextEmployeeId == old(nextEmployeeId) + 1
      ensures AdminEmailTaken(admins, "admin@company.com")
      ensures EmailTaken(employees, "barathg.work@gmail.com")
    {
      var admin := InsertAdmin(SeedAdmin(adminSalt, now));
      if admin.Some? {
        assert admins[admin.value].email == "admin@company.com";
      }
      var employee := InsertEmployee(SeedEmployee(employeeSalt, now, today), true);
      if employee.Some? {
        assert employees[employee.value].email == "barathg.work@gmail.com";
      }
    }

    /** `POST /api/login`. */
    method Login(email: Field, password: Field, userType: Field, dbFault: bool, now: nat) returns (r: Response)
      requires Valid()
      ensures !(Truthy(email) && Truthy(password) && Truthy(userType)) ==> r == FieldsRequired
      ensures Truthy(email) && Truthy(password) && Truthy(userType) && dbFault ==> r == InternalError
      ensures Truthy(email) && Truthy(password) && Truthy(userType) && !dbFault ==>
        var table := Partition(userType.value);
        && (r.status == 200 <==> exists id :: id in table && table[id].email == email.value
                                              && Bcrypt.Compare(password.value, table[id].password))
        && (r.status != 200 ==> r == InvalidCredentials)
      ensures r.status == 200 ==>
        && email.Some? && userType.Some? && r.body.LoginBody?
        && var id := r.body.user.id;
        && id in Partition(userType.value)
        && var user := Partition(userType.value)[id];
        && user.email == email.value
        && r == Response(200, LoginBody(Jwt.Sign(Jwt.Claims(id, email.value, userType.value), secret, now),
                                        userType.value, LoginUser(id, user.email, user.firstName, user.lastName)))
    {
      if !(Truthy(email) && Truthy(password) && Truthy(userType)) {
        return FieldsRequired;
      }
      if dbFault {
        return InternalError;
      }
      var table := Partition(userType.value);
      assert forall i, j :: i in table && j in table && table[i].email == table[j].email ==> i == j;
      var found := FindByEmail(table, email.value);
      if found.None? {
        return InvalidCredentials;
      }
      var id := found.value;
      var user := table[id];
      if !Bcrypt.Compare(password.value, user.password) {
        assert forall j :: j in table && table[j].email == email.value ==> j == id;
        return InvalidCredentials;
      }
      var token := Jwt.Sign(Jwt.Claims(id, user.email, userType.value), secret, now);
      r := Response(200, LoginBody(token, userType.value, LoginUser(id, user.email, user.firstName, user.lastName)));
      assert id in table && table[id].email == email.value && Bcrypt.Compare(password.value, table[id].password);
      assert Partition(userType.value) == table;
    }

    /** `GET /api/employees` (administrators only). */
    method ListEmployees(authorization: Field, dbFault: bool, now: nat) returns (r: Response)
      requires Valid()
      ensures AdminGate(authorization, secret, now).Failure? ==> r == AdminGate(authorization, secret, now).error
      ensures AdminGate(authorization, secret, now).Success? && dbFault ==> r == InternalError
      ensures AdminGate(authorization, secret, now).Success? && !dbFault ==>
        r.status == 200 && r.body.EmployeeListBody? && ListsTable(r.body.employees, employees)
    {
      var gate := AdminGate(authorization, secret, now);
      if gate.Failure? {
        return gate.error;
      }
      if dbFault {
        return InternalError;
      }
      var rows := SelectAll();
      r := Response(200, EmployeeListBody(rows));
    }

    /** `GET /api/employees/:id` as written: the caller passes when an administrator, or when
        `parseInt` of the id is their own id; the row is then looked up by SQLite's reading of
        the same text. */
    method GetEmployeeAsWritten(authorization: Field, idParam: string, dbFault: bool, now: nat)
      returns (r: Response)
      requires Valid()
      ensures Authenticate(authorization, secret, now).Failure? ==> r == Authenticate(authorization, secret, now).error
      ensures Authenticate(authorization, secret, now).Success? ==>
        var caller := Authenticate(authorization, secret, now).value;
        && (!MayView(caller, idParam) ==> r == AccessDenied)
        && (MayView(caller, idParam) && dbFault ==> r == InternalError)
        && (MayView(caller, idParam) && !dbFault && SelectedId(employees, idParam).None? ==> r == NotFound)
        && (MayView(caller, idParam) && !dbFault && SelectedId(employees, idParam).Some? ==>
              var id := SelectedId(employees, idParam).value;
              r == Response(200, EmployeeBody(Summarize(id, employees[id]))))
      ensures r.status == 200 ==>
        && Authenticate(authorization, secret, now).Success?
        && r.body.EmployeeBody? && r.body.employee.id in employees
        && MayView(Authenticate(authorization, secret, now).value, idParam)
    {
      var auth := Authenticate(authorization, secret, now);
      if auth.Failure? {
        return auth.error;
      }
      var caller := auth.value;
      if !MayView(caller, idParam) {
        return AccessDenied;
      }
      if dbFault {
        return InternalError;
      }
      var selected := SelectedId(employees, idParam);
      if selected.None? {
        return NotFound;
      }
      var id := selected.value;
      r := Response(200, EmployeeBody(Summarize(id, employees[id])));
    }

    /** `GET /api/employees/:id` with the check made on the id the lookup uses: an
        administrator sees any row, anyone else only their own. */
    method GetEmployee(authorization: Field, idParam: string, dbFault: bool, now: nat) returns (r: Response)
      requires Valid()
      ensures Authenticate(authorization, secret, now).Failure? ==> r == Authenticate(authorization, secret, now).error
      ensures Authenticate(authorization, secret, now).Success? ==>
        var caller := Authenticate(authorization, secret, now).value;
        && (!MayViewRow(caller, idParam) ==> r == AccessDenied)
        && (MayViewRow(caller, idParam) && dbFault ==> r == InternalError)
        && (MayViewRow(caller, idParam) && !dbFault && SelectedId(employees, idParam).None? ==> r == NotFound)
        && (MayViewRow(caller, idParam) && !dbFault && SelectedId(employees, idParam).Some? ==>
              var id := SelectedId(employees, idParam).value;
              r == Response(200, EmployeeBody(Summarize(id, employees[id]))))
      ensures r.status == 200 ==>
        && Authenticate(authorization, secret, now).Success?
        && r.body.EmployeeBody? && r.body.employee.id in employees
        && (IsAdmin(Authenticate(authorization, secret, now).value)
            || r.body.employee.id == Authenticate(authorization, secret, now).value.id)
    {
      var auth := Authenticate(authorization, secret, now);
      if auth.Failure? {
        return auth.error;
      }
      var caller := auth.value;
      if !MayViewRow(caller, idParam) {
        return AccessDenied;
      }
      if dbFault {
        return InternalError;
      }
      var selected := SelectedId(employees, idParam);
      if selected.None? {
        return NotFound;
      }
      var id := selected.value;
      r := Response(200, EmployeeBody(Summarize(id, employees[id])));
    }

    /** `POST /api/employees` (administrators only). */
    method CreateEmployee(authorization: Field, firstName: Field, lastName: Field, email: Field,
                          phone: Field, position: Field, department: Field, salary: Option<int>,
                          password: Field, salt: nat, dbFault: bool, now: nat, today: string)
      returns (r: Response)
      requires Valid()
      modifies this
      ensures Valid()
      ensures admins == old(admins) && nextEmployeeId >= old(nextEmployeeId)
      ensures AdminGate(authorization, secret, now).Failure? ==>
        r == AdminGate(authorization, secret, now).error && unchanged(this)
      ensures AdminGate(authorization, secret, now).Success? ==>
        var required := Truthy(firstName) && Truthy(lastName) && Truthy(email)
                        && Truthy(position) && Truthy(department) && Truthy(password);
        && (!required ==> r == RequiredFieldsMissing && unchanged(this))
        && (required && dbFault ==> r == InternalError && unchanged(this))
        && (required && !dbFault && EmailTaken(old(employees), email.value) ==> r == EmailExists && unchanged(this))
        && (required && !dbFault && !EmailTaken(old(employees), email.value) ==>
              var id := old(nextEmployeeId);
              var row := EmployeeRow(firstName.value, lastName.value, email.value, phone, position.value,
                                     department.value, salary, Bcrypt.Hash(password.value, salt), today,
                                     Some("Active"), now, now);
              && employees == old(employees)[id := row]
              && nextEmployeeId == id + 1
              && r == Response(201, EmployeeBody(Summarize(id, row))))
      ensures r.status == 201 ==> r.body.EmployeeBody? && forall k :: k in old(employees) ==> k < r.body.employee.id
    {
      var gate := AdminGate(authorization, secret, now);
      if gate.Failure? {
        return gate.error;
      }
      if !(Truthy(firstName) && Truthy(lastName) && Truthy(email)
           && Truthy(position) && Truthy(department) && Truthy(password)) {
        return RequiredFieldsMissing;
      }
      var hashed := Bcrypt.Hash(password.value, salt);
      if dbFault {
        return InternalError;
      }
      var row := EmployeeRow(firstName.value, lastName.value, email.value, phone, position.value,
                             department.value, salary, hashed, today, Some("Active"), now, now);
      var id := InsertEmployee(row, false);
      if id.None? {
        return EmailExists;
      }
      r := Response(201, EmployeeBody(Summarize(id.value, row)));
    }

    /** `PUT /api/employees/:id` (administrators only). The UPDATE writes all eight columns,
        absent ones as NULL; an id that selects no row changes nothing and is answered 404,
        and the store's refusal of NULL in a NOT NULL column or of a second use of an email is
        answered 500. */
    method UpdateEmployee(authorization: Field, idParam: string, firstName: Field, lastName: Field,
                          email: Field, phone: Field, position: Field, department: Field,
                          salary: Option<int>, status: Field, dbFault: bool, now: nat)
      returns (r: Response)
      requires Valid()
      modifies this
      ensures Valid()
      ensures admins == old(admins) && nextEmployeeId == old(nextEmployeeId)
      ensures employees.Keys == old(employees).Keys
      ensures AdminGate(authorization, secret, now).Failure? ==>
        r == AdminGate(authorization, secret, now).error && unchanged(this)
      ensures AdminGate(authorization, secret, now).Success? ==>
        && (dbFault ==> r == InternalError && unchanged(this))
        && (!dbFault && SelectedId(old(employees), idParam).None? ==> r == NotFound && unchanged(this))
        && (!dbFault && SelectedId(old(employees), idParam).Some? ==>
              var id := SelectedId(old(employees), idParam).value;
              var storable := firstName.Some? && lastName.Some? && email.Some? && position.Some? && department.Some?;
              && (!storable ==> r == InternalError && unchanged(this))
              && (storable && EmailTakenByOther(old(employees), email.value, id) ==> r == InternalError && unchanged(this))
              && (storable && !EmailTakenByOther(old(employees), email.value, id) ==>
                    var row := old(employees)[id].(firstName := firstName.value, lastName := lastName.value,
                                                   email := email.value, phone := phone, position := position.value,
                                                   department := department.value, salary := salary,
                                                   status := status, updatedAt := now);
                    employees == old(employees)[id := row] && r == Response(200, EmployeeBody(Summarize(id, row)))))
    {
      var gate := AdminGate(authorization, secret, now);
      if gate.Failure? {
        return gate.error;
      }
      if dbFault {
        return InternalError;
      }
      var selected := SelectedId(employees, idParam);
      if selected.None? {
        return NotFound;
      }
      var id := selected.value;
      if !(firstName.Some? && lastName.Some? && email.Some? && position.Some? && department.Some?) {
        return InternalError;
      }
      var row := employees[id].(firstName := firstName.value, lastName := lastName.value,
                                email := email.value, phone := phone, position := position.value,
                                department := department.value, salary := salary,
                                status := status, updatedAt := now);
      var stored := ReplaceEmployee(id, row);
      if !stored {
        return InternalError;
      }
      r := Response(200, EmployeeBody(Summarize(id, row)));
    }

    /** `DELETE /api/employees/:id` (administrators only). */
    method DeleteEmployee(authorization: Field, idParam: string, dbFault: bool, now: nat) returns (r: Response)
      requires Valid()
      modifies this
      ensures Valid()
      ensures admins == old(admins) && nextEmployeeId == old(nextEmployeeId)
      ensures AdminGate(authorization, secret, now).Failure? ==>
        r == AdminGate(authorization, secret, now).error && unchanged(this)
      ensures AdminGate(authorization, secret, now).Success? ==>
        && (dbFault ==> r == InternalError && unchanged(this))
        && (!dbFault && SelectedId(old(employees), idParam).None? ==> r == NotFound && unchanged(this))
        && (!dbFault && SelectedId(old(employees), idParam).Some? ==>
              employees == old(employees) - {SelectedId(old(employees), idParam).value} && r == Deleted)
    {
      var gate := AdminGate(authorization, secret, now);
      if gate.Failure? {
        return gate.error;
      }
      if dbFault {
        return InternalError;
      }
      var selected := SelectedId(employees, idParam);
      if selected.None? {
        return NotFound;
      }
      employees := employees - {selected.value};
      r := Deleted;
    }
  }

  // ---------------------------------------------------------------------------
  // Request sequences against a freshly seeded database

  /** A new store after `initializeDatabase`: exactly the seeded administrator and employee, each at id 1. */
  method SeededDatabase(secret: string, now: nat) returns (db: Database)
    ensures fresh(db) && db.Valid() && db.secret == secret
    ensures db.admins == map[1 := SeedAdmin(7, now)]
    ensures db.employees == map[1 := SeedEmployee(8, now, "2025-01-01")]
    ensures db.nextAdminId == 2 && db.nextEmployeeId == 2
  {
    db := new Database(secret);
    assert !AdminEmailTaken(db.admins, "admin@company.com") && !EmailTaken(db.employees, "barathg.work@gmail.com");
    db.Initialize(7, 8, now, "2025-01-01");
    assert db.admins == map[1 := SeedAdmin(7, now)];
    assert db.employees == map[1 := SeedEmployee(8, now, "2025-01-01")];
  }

  /** A restart on the same database file seeds again: both sample rows are already there and
      are kept, but each `INSERT OR IGNORE` uses up an id, so the next employee created gets
      id 3 rather than 2. */
  method RestartedDatabase(secret: string, now: nat, later: nat) returns (db: Database)
    ensures fresh(db) && db.Valid() && db.secret == secret
    ensures db.admins == map[1 := SeedAdmin(7, now)]
    ensures db.employees == map[1 := SeedEmployee(8, now, "2025-01-01")]
    ensures db.nextAdminId == 3 && db.nextEmployeeId == 3
  {
    db := SeededDatabase(secret, now);
    assert db.admins[1].email == "admin@company.com";
    assert db.employees[1].email == "barathg.work@gmail.com";
    db.Initialize(9, 10, later, "2025-06-01");
  }

  /** The seeded administrator asks to delete an id no row has: 404. */
  method AdminDeletesMissingEmployee(secret: string, now: nat) returns (deletion: Response)
    ensures deletion == NotFound
  {
    var db, header := AdminSession(secret, now);
    var missing := Decimal(9999);
    SqliteIntegerOfDecimal(9999);
    assert SelectedId(db.employees, missing).None?;
    deletion := db.DeleteEmployee(header, missing, false, now);
  }

  /** The Authorization header the dashboards send with a token: `Bearer <token>`. */
  method BearerHeader(token: string, ghost claims: Jwt.Claims, secret: string, ghost iat: nat, now: nat)
    returns (header: Field)
    requires token == Jwt.Sign(claims, secret, iat) && now < iat + Jwt.ExpiresIn
    ensures Authenticate(header, secret, now) == Success(claims)
  {
    header := Some("Bearer" + " " + token);
    SignedTokenAdmitted("Bearer", claims, secret, iat, now);
  }

  /** A login against a partition holding one row, at id 1, whose hash matches the password:
      200, with a token for that row's claims. */
  method SignsInAlone(db: Database, email: string, password: string, userType: string, cred: Credential,
                      now: nat) returns (login: Response)
    requires db.Valid() && email != "" && password != "" && userType != ""
    requires db.Partition(userType) == map[1 := cred]
    requires cred.email == email && Bcrypt.Compare(password, cred.password)
    ensures login.status == 200 && login.body.LoginBody? && login.body.userType == userType
    ensures login.body.user.id == 1
    ensures login.body.token == Jwt.Sign(Jwt.Claims(1, email, userType), db.secret, now)
  {
    ghost var t := db.Partition(userType);
    assert 1 in t && t[1].email == email && Bcrypt.Compare(password, t[1].password);
    login := db.Login(Some(email), Some(password), Some(userType), false, now);
    assert db.Partition(userType) == t;
    assert exists id :: id in t && t[id].email == email && Bcrypt.Compare(password, t[id].password);
    assert login.body.user.id in t;
  }

  /** The seeded administrator's login against a freshly seeded database. */
  method AdminSignsIn(db: Database, now: nat) returns (login: Response)
    requires db.Valid() && db.admins == map[1 := SeedAdmin(7, now)]
    ensures login.status == 200 && login.body.LoginBody? && login.body.userType == "admin"
    ensures login.body.token == Jwt.Sign(Jwt.Claims(login.body.user.id, "admin@company.com", "admin"), db.secret, now)
  {
    var cred := Credential("admin@company.com", Bcrypt.Hash("admin123", 7), "BARATH", "G");
    assert db.Partition("admin") == map[1 := cred];
    Bcrypt.CompareHash("admin123", 7);
    login := SignsInAlone(db, "admin@company.com", "admin123", "admin", cred, now);
  }

  /** The seeded employee's login against a freshly seeded database. */
  method EmployeeSignsIn(db: Database, now: nat) returns (login: Response)
    requires db.Valid() && db.employees == map[1 := SeedEmployee(8, now, "2025-01-01")]
    ensures login.status == 200 && login.body.LoginBody? && login.body.user.id == 1
    ensures login.body.token == Jwt.Sign(Jwt.Claims(1, "barathg.work@gmail.com", "employee"), db.secret, now)
  {
    var cred := Credential("barathg.work@gmail.com", Bcrypt.Hash("employee123", 8), "Barath", "G");
    assert db.Partition("employee") == map[1 := cred];
    Bcrypt.CompareHash("employee123", 8);
    login := SignsInAlone(db, "barathg.work@gmail.com", "employee123", "employee", cred, now);
  }

  /** A new seeded store and the Authorization header of the seeded employee's login. */
  method EmployeeSession(secret: string, now: nat) returns (db: Database, header: Field)
    ensures fresh(db) && db.Valid() && db.secret == secret
    ensures db.employees == map[1 := SeedEmployee(8, now, "2025-01-01")]
    ensures Authenticate(header, secret, now) == Success(Jwt.Claims(1, "barathg.work@gmail.com", "employee"))
  {
    db := SeededDatabase(secret, now);
    var login := EmployeeSignsIn(db, now);
    header := BearerHeader(login.body.token, Jwt.Claims(1, "barathg.work@gmail.com", "employee"), secret, now, now);
  }

  /** The seeded employee signs in and reads their own record at `/api/employees/1`. */
  method EmployeeReadsOwnRecord(secret: string, now: nat) returns (own: Response)
    ensures own.status == 200 && own.body.EmployeeBody? && own.body.employee.email == "barathg.work@gmail.com"
  {
    var db, header := EmployeeSession(secret, now);
    var path := Decimal(1);
    SqliteIntegerOfDecimal(1);
    assert SelectedId(db.employees, path) == Some(1);
    own := db.GetEmployee(header, path, false, now);
  }

  /** The seeded employee is refused every record but their own, whatever the text of the id. */
  method EmployeeRefusedOtherRecord(secret: string, now: nat, path: string) returns (other: Response)
    requires SqliteInteger(path) != Some(1)
    ensures other == AccessDenied
  {
    var db, header := EmployeeSession(secret, now);
    other := db.GetEmployee(header, path, false, now);
  }

  /** As written, an employee with id `a` who asks for `/api/employees/<a>e3` passes the
      `parseInt` check and is served the row with id `a * 1000`, when there is one; the
      corrected handler refuses the same request. */
  method ExponentIdReadsOtherRow(db: Database, header: Field, caller: Jwt.Claims, now: nat)
    returns (leaked: Response, refused: Response)
    requires db.Valid() && !IsAdmin(caller) && caller.id >= 1 && caller.id * 1000 in db.employees
    requires Authenticate(header, db.secret, now) == Success(caller)
    ensures leaked.status == 200 && leaked.body.EmployeeBody?
    ensures leaked.body.employee.id == caller.id * 1000 != caller.id
    ensures refused == AccessDenied
  {
    var path := Decimal(caller.id) + "e" + Decimal(3);
    ExponentIdPassesCheck(caller, 3);
    assert Pow10(3) == 1000;
    leaked := db.GetEmployeeAsWritten(header, path, false, now);
    refused := db.GetEmployee(header, path, false, now);
  }

  /** A freshly seeded database and the Authorization header of the seeded administrator's login. */
  method AdminSession(secret: string, now: nat) returns (db: Database, header: Field)
    ensures fresh(db) && db.Valid() && db.secret == secret
    ensures db.employees == map[1 := SeedEmployee(8, now, "2025-01-01")]
    ensures AdminGate(header, secret, now).Success?
  {
    db := SeededDatabase(secret, now);
    var login := AdminSignsIn(db, now);
    header := BearerHeader(login.body.token, Jwt.Claims(login.body.user.id, "admin@company.com", "admin"),
                           secret, now, now);
  }

  /** An employee the administrator creates is then served, unchanged, at `/api/employees/<id>`. */
  method CreatedEmployeeIsServed(secret: string, now: nat) returns (created: Response, fetched: Response)
    ensures created.status == 201 && created.body.EmployeeBody?
    ensures fetched == Response(200, created.body)
  {
    var db, header := AdminSession(secret, now);
    assert !EmailTaken(db.employees, "asha@company.com");
    created := AdminCreatesEmployee(db, header, now);
    var id := created.body.employee.id;
    SqliteIntegerOfDecimal(id);
    fetched := db.GetEmployee(header, Decimal(id), false, now);
  }

  /** An administrator's `POST /api/employees` with every required field and an unused email. */
  method AdminCreatesEmployee(db: Database, header: Field, now: nat) returns (created: Response)
    requires db.Valid() && AdminGate(header, db.secret, now).Success?
    requires !EmailTaken(db.employees, "asha@company.com")
    modifies db
    ensures db.Valid()
    ensures created.status == 201 && created.body.EmployeeBody? && created.body.employee.id in db.employees
    ensures created.body.employee == Summarize(created.body.employee.id, db.employees[created.body.employee.id])
  {
    created := db.CreateEmployee(header, Some("Asha"), Some("R"), Some("asha@company.com"), None,
                                 Some("Analyst"), Some("Finance"), Some(50000), Some("secret1"),
                                 9, false, now, "2025-01-02");
  }

  /** Deleting the seeded employee succeeds once; afterwards its id selects nothing. */
  method DeleteIsNotRepeatable(secret: string, now: nat) returns (first: Response, second: Response)
    ensures first == Deleted && second == NotFound
  {
    var db, header := AdminSession(secret, now);
    SqliteIntegerOfDecimal(1);
    first := db.DeleteEmployee(header, Decimal(1), false, now);
    second := db.DeleteEmployee(header, Decimal(1), false, now);
  }
}
