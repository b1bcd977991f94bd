/** The PostgreSQL-backed service of `user-auth/backend/server.js`: a `users` table whose email
    column is unique, and the register, login and profile handlers over it. The database
    driver is replaced by a map keyed by email, and a failure of the connection or of any
    other statement is a boolean the caller passes in. */
module UserAuthBackend {
  import opened Wrappers
  import Bcrypt

  /** A row of `users`. The hash is what `bcrypt.hash` returned for the submitted password. */
  datatype User = User(firstName: string, lastName: string, email: string, dateOfBirth: string,
                       password: Bcrypt.PasswordHash)

  /** The four columns the profile query selects; the password column is not among them. */
  datatype UserInfo = UserInfo(firstName: string, lastName: string, email: string, dateOfBirth: string)

  function Project(u: User): (info: UserInfo)
    ensures info.firstName == u.firstName && info.lastName == u.lastName
    ensures info.email == u.email && info.dateOfBirth == u.dateOfBirth
  {
    UserInfo(u.firstName, u.lastName, u.email, u.dateOfBirth)
  }

  /** A reply is plain text sent with `res.send`, or a profile row sent with `res.json`. */
  datatype Body = Text(text: string) | Info(info: UserInfo)
  datatype Reply = Reply(status: nat, body: Body)

  const Registered := Reply(201, Text("User registered successfully"))
  const EmailExists := Reply(400, Text("Email already exists"))
  const RegistrationFailed := Reply(500, Text("Registration failed"))
  const LoginSuccessful := Reply(200, Text("Login successful"))
  const InvalidEmailOrPassword := Reply(401, Text("Invalid email or password"))
  const LoginFailed := Reply(500, Text("Login failed"))
  const UserNotFound := Reply(404, Text("User not found"))
  const ProfileFailed := Reply(500, Text("Failed to load user info"))

  class UserTable {
    /** The rows, keyed by the unique email column. */
    var users: map<string, User>

    /** Every row is stored under its own email, so no two rows share one. */
    ghost predicate Valid()
      reads this
    {
      forall e :: e in users ==> users[e].email == e
    }

    constructor ()
      ensures Valid() && users == map[]
    {
      users := map[];
    }

    /** `POST /api/users/register`. A missing password makes `bcrypt.hash` throw before the
        insert; a store failure gives 500; a duplicate email is the unique violation 23505. */
    method Register(firstName: string, lastName: string, email: string, dateOfBirth: string,
                    password: Option<string>, salt: nat, storeFault: bool) returns (r: Reply)
      requires Valid()
      modifies this
      ensures Valid()
      ensures password.None? || storeFault ==> r == RegistrationFailed && unchanged(this)
      ensures password.Some? && !storeFault && email in old(users) ==> r == EmailExists && unchanged(this)
      ensures password.Some? && !storeFault && email !in old(users) ==>
                r == Registered
                && users == old(users)[email := User(firstName, lastName, email, dateOfBirth,
                                                     Bcrypt.Hash(password.value, salt))]
    {
      if password.None? || storeFault {
        return RegistrationFailed;
      }
      if email in users {
        return EmailExists;
      }
      users := users[email := User(firstName, lastName, email, dateOfBirth, Bcrypt.Hash(password.value, salt))];
      r := Registered;
    }

    /** `POST /api/users/login`. An absent email is sent as SQL NULL and matches no row; an
        absent password makes `bcrypt.compare` throw once a row is found. The table is read only. */
    method Login(email: Option<string>, password: Option<string>, storeFault: bool) returns (r: Reply)
      ensures r in {LoginSuccessful, InvalidEmailOrPassword, LoginFailed}
      ensures storeFault ==> r == LoginFailed
      ensures !storeFault && (email.None? || email.value !in users) ==> r == InvalidEmailOrPassword
      ensures !storeFault && email.Some? && email.value in users ==>
                r == (if password.None? then LoginFailed
                      else if Bcrypt.Compare(password.value, users[email.value].password) then LoginSuccessful
                      else InvalidEmailOrPassword)
      ensures r == LoginSuccessful <==>
                !storeFault && email.Some? && email.value in users && password.Some?
                && Bcrypt.Compare(password.value, users[email.value].password)
    {
      if storeFault {
        return LoginFailed;
      }
      if email.None? || email.value !in users {
        return InvalidEmailOrPassword;
      }
      var user := users[email.value];
      if password.None? {
        return LoginFailed;
      }
      if Bcrypt.Compare(password.value, user.password) {
        r := LoginSuccessful;
      } else {
        r := InvalidEmailOrPassword;
      }
    }

    /** `GET /api/users/profile?email=…`: the four public columns of the row, or 404. */
    method Profile(email: Option<string>, storeFault: bool) returns (r: Reply)
      requires Valid()
      ensures r in {ProfileFailed, UserNotFound} || (r.status == 200 && r.body.Info?)
      ensures storeFault ==> r == ProfileFailed
      ensures !storeFault && (email.None? || email.value !in users) ==> r == UserNotFound
      ensures !storeFault && email.Some? && email.value in users ==>
                r == Reply(200, Info(Project(users[email.value]))) && r.body.info.email == email.value
    {
      if storeFault {
        return ProfileFailed;
      }
      if email.None? || email.value !in users {
        return UserNotFound;
      }
      r := Reply(200, Info(Project(users[email.value])));
    }
  }

  /** Signing in with the password just registered succeeds, whatever the salt. */
  method RegisterThenLogin(table: UserTable, firstName: string, lastName: string, email: string,
                           dateOfBirth: string, password: string, salt: nat)
      returns (registered: Reply, login: Reply)
    requires table.Valid() && email !in table.users
    modifies table
    ensures table.Valid()
    ensures registered == Registered && login == LoginSuccessful
  {
    registered := table.Register(firstName, lastName, email, dateOfBirth, Some(password), salt, false);
    Bcrypt.CompareHash(password, salt);
    login := table.Login(Some(email), Some(password), false);
  }

  /** A second registration with the same email is refused and keeps the first row, so the
      second password signs in only when bcrypt cannot tell it from the first. */
  method RegisterTwice(table: UserTable, email: string, first: string, second: string, salt: nat)
      returns (again: Reply, login: Reply)
    requires table.Valid() && email !in table.users
    modifies table
    ensures table.Valid()
    ensures again == EmailExists
    ensures table.users == old(table.users)[email := User("A", "B", email, "2000-01-01", Bcrypt.Hash(first, salt))]
    ensures login == if Bcrypt.Key(second) == Bcrypt.Key(first) then LoginSuccessful else InvalidEmailOrPassword
  {
    var registered := table.Register("A", "B", email, "2000-01-01", Some(first), salt, false);
    again := table.Register("C", "D", email, "2001-02-02", Some(second), salt + 1, false);
    Bcrypt.CompareIffSameKey(first, second, salt);
    login := table.Login(Some(email), Some(second), false);
  }

  /** The profile after a registration shows what was submitted, without the password. */
  method RegisterThenProfile(table: UserTable, firstName: string, lastName: string, email: string,
                             dateOfBirth: string, password: string, salt: nat)
      returns (profile: Reply)
    requires table.Valid() && email !in table.users
    modifies table
    ensures table.Valid()
    ensures profile == Reply(200, Info(UserInfo(firstName, lastName, email, dateOfBirth)))
  {
    var registered := table.Register(firstName, lastName, email, dateOfBirth, Some(password), salt, false);
    profile := table.Profile(Some(email), false);
  }
}
