/** The checks the sign-in and registration pages of `user-auth/auth.js` make before anything
    is sent: the email shape, the password length, the age rule, and the order in which the
    two forms report the first failing check. */
module ClientValidation {
  import opened Wrappers
  import opened JsText

  // ---------------------------------------------------------------------------
  // Email

  /** A non-empty run of characters matched by `[^\s@]`. */
  predicate PlainRun(t: string) {
    |t| >= 1 && forall k :: 0 <= k < |t| ==> !IsWhitespace(t[k]) && t[k] != '@'
  }

  /** `validateEmail`: the text matches `^[^\s@]+@[^\s@]+\.[^\s@]+$`, that is, it is three
      plain runs joined by an `@` and a `.`. */
  predicate ValidateEmail(email: string) {
    exists i, j :: 0 <= i < j < |email| && email[i] == '@' && email[j] == '.'
      && PlainRun(email[..i]) && PlainRun(email[i + 1..j]) && PlainRun(email[j + 1..])
  }

  /** The shape the pattern stands for: no white space, exactly one `@`, something before it,
      and a `.` that is neither the first nor the last character after it. */
  ghost predicate WellFormedEmail(s: string) {
    && (forall k :: 0 <= k < |s| ==> !IsWhitespace(s[k]))
    && exists a :: 0 < a < |s| && s[a] == '@'
         && (forall k :: 0 <= k < |s| && s[k] == '@' ==> k == a)
         && exists d :: a + 1 < d < |s| - 1 && s[d] == '.'
  }

  lemma ValidateEmailShape(s: string)
    ensures ValidateEmail(s) <==> WellFormedEmail(s)
  {
    if ValidateEmail(s) {
      MatchIsWellFormed(s);
    }
    if WellFormedEmail(s) {
      WellFormedMatches(s);
    }
  }

  lemma MatchIsWellFormed(s: string)
    requires ValidateEmail(s)
    ensures WellFormedEmail(s)
  {
    var i, j :| 0 <= i < j < |s| && s[i] == '@' && s[j] == '.'
      && PlainRun(s[..i]) && PlainRun(s[i + 1..j]) && PlainRun(s[j + 1..]);
    assert s[..i] == s[0..i] && s[j + 1..] == s[j + 1..|s|];
    ThreeRuns(s, i, j);
    assert exists d :: i + 1 < d < |s| - 1 && s[d] == '.' by {
      assert s[j] == '.';
    }
  }

  /** Characters of three plain runs joined by `@` and `.` are plain, except the one `@`. */
  lemma ThreeRuns(s: string, i: int, j: int)
    requires 0 <= i < j < |s| && s[i] == '@' && s[j] == '.'
    requires PlainRun(s[0..i]) && PlainRun(s[i + 1..j]) && PlainRun(s[j + 1..|s|])
    ensures 0 < i && i + 1 < j < |s| - 1
    ensures forall k :: 0 <= k < |s| ==> !IsWhitespace(s[k]) && (s[k] == '@' ==> k == i)
  {
    forall k | 0 <= k < |s|
      ensures !IsWhitespace(s[k]) && (s[k] == '@' ==> k == i)
    {
      if k < i {
        PlainChar(s, 0, i, k);
      } else if i < k < j {
        PlainChar(s, i + 1, j, k);
      } else if j < k {
        PlainChar(s, j + 1, |s|, k);
      }
    }
  }

  /** Every character of a plain run is plain. */
  lemma PlainChar(s: string, lo: int, hi: int, k: int)
    requires 0 <= lo <= k < hi <= |s| && PlainRun(s[lo..hi])
    ensures !IsWhitespace(s[k]) && s[k] != '@'
  {
    assert s[k] == s[lo..hi][k - lo];
  }

  lemma WellFormedMatches(s: string)
    requires WellFormedEmail(s)
    ensures ValidateEmail(s)
  {
    var a :| 0 < a < |s| && s[a] == '@'
      && (forall k :: 0 <= k < |s| && s[k] == '@' ==> k == a)
      && exists d :: a + 1 < d < |s| - 1 && s[d] == '.';
    var d :| a + 1 < d < |s| - 1 && s[d] == '.';
    PlainSlice(s, 0, a);
    PlainSlice(s, a + 1, d);
    PlainSlice(s, d + 1, |s|);
    assert s[0..a] == s[..a] && s[d + 1..|s|] == s[d + 1..];
  }

  /** A non-empty stretch of plain characters is a plain run. */
  lemma PlainSlice(s: string, lo: int, hi: int)
    requires 0 <= lo < hi <= |s|
    requires forall k :: lo <= k < hi ==> !IsWhitespace(s[k]) && s[k] != '@'
    ensures PlainRun(s[lo..hi])
  {
    var t := s[lo..hi];
    forall k | 0 <= k < |t| ensures !IsWhitespace(t[k]) && t[k] != '@' {
      assert t[k] == s[lo + k];
    }
  }

  // ---------------------------------------------------------------------------
  // Password

  /** `validatePassword`: at least six UTF-16 code units. */
  predicate ValidatePassword(password: string) {
    Utf16Length(password) >= 6
  }

  /** Six characters always suffice; on text inside the Basic Multilingual Plane the rule is
      exactly "at least six characters", while three characters outside it already pass. */
  lemma ValidatePasswordLength(password: string)
    ensures |password| >= 6 ==> ValidatePassword(password)
    ensures |password| < 3 ==> !ValidatePassword(password)
    ensures (forall i :: 0 <= i < |password| ==> password[i] as int < 0x1_0000)
            ==> (ValidatePassword(password) <==> |password| >= 6)
  {
    if forall i :: 0 <= i < |password| ==> password[i] as int < 0x1_0000 {
      Utf16LengthOfBmp(password);
    }
  }

  // ---------------------------------------------------------------------------
  // Age

  /** A calendar date as `getFullYear`, `getMonth` and `getDate` report it. */
  datatype Date = Date(year: int, month: int, day: int)

  /** Calendar order on dates. */
  predicate OnOrBefore(a: Date, b: Date) {
    a.year < b.year || (a.year == b.year && (a.month < b.month || (a.month == b.month && a.day <= b.day)))
  }

  /** The `n`th birthday. */
  function Anniversary(birth: Date, n: int): Date {
    Date(birth.year + n, birth.month, birth.day)
  }

  /** `calculateAge` with today's date passed in: the difference of the years, less one while
      this year's birthday is still ahead. The result is the number of birthdays reached. */
  function CalculateAge(birth: Date, today: Date): (age: int)
    ensures OnOrBefore(Anniversary(birth, age), today)
    ensures !OnOrBefore(Anniversary(birth, age + 1), today)
  {
    var age := today.year - birth.year;
    var monthDiff := today.month - birth.month;
    if monthDiff < 0 || (monthDiff == 0 && today.day < birth.day) then age - 1 else age
  }

  /** Birthdays come in order. */
  lemma AnniversariesOrdered(birth: Date, n: int, m: int, today: Date)
    requires n <= m && OnOrBefore(Anniversary(birth, m), today)
    ensures OnOrBefore(Anniversary(birth, n), today)
  {
  }

  /** The age is the only number of years whose birthday is reached while the next is not. */
  lemma AgeIsUnique(birth: Date, today: Date, n: int)
    requires OnOrBefore(Anniversary(birth, n), today) && !OnOrBefore(Anniversary(birth, n + 1), today)
    ensures CalculateAge(birth, today) == n
  {
    var age := CalculateAge(birth, today);
    if n < age {
      AnniversariesOrdered(birth, n + 1, age, today);
    } else if age < n {
      AnniversariesOrdered(birth, age + 1, n, today);
    }
  }

  lemma AgeOnBirthDate(birth: Date)
    ensures CalculateAge(birth, birth) == 0
  {
    AgeIsUnique(birth, birth, 0);
  }

  /** The age never goes down as time passes. */
  lemma AgeMonotone(birth: Date, earlier: Date, later: Date)
    requires OnOrBefore(earlier, later)
    ensures CalculateAge(birth, earlier) <= CalculateAge(birth, later)
  {
    var a := CalculateAge(birth, earlier);
    var b := CalculateAge(birth, later);
    if b < a {
      AnniversariesOrdered(birth, b + 1, a, earlier);
    }
  }

  /** The registration page's age rule holds from the thirteenth birthday on. */
  lemma AtLeastThirteenIff(birth: Date, today: Date)
    ensures CalculateAge(birth, today) >= 13 <==> OnOrBefore(Anniversary(birth, 13), today)
  {
    var age := CalculateAge(birth, today);
    if age >= 13 {
      AnniversariesOrdered(birth, 13, age, today);
    } else if OnOrBefore(Anniversary(birth, 13), today) {
      AnniversariesOrdered(birth, age + 1, 13, today);
    }
  }

  /** Leap years of the Gregorian calendar, which `Date` follows. */
  predicate LeapYear(year: int) {
    year % 4 == 0 && (year % 100 != 0 || year % 400 == 0)
  }

  /** The length of a month; months count from 0, as `getMonth` reports them. */
  function DaysInMonth(year: int, month: int): (n: int)
    requires 0 <= month <= 11
    ensures 28 <= n <= 31
  {
    if month == 1 then (if LeapYear(year) then 29 else 28)
    else if month == 3 || month == 5 || month == 8 || month == 10 then 30
    else 31
  }

  /** A date that names a day of the calendar. */
  predicate ValidDate(d: Date) {
    0 <= d.month <= 11 && 1 <= d.day <= DaysInMonth(d.year, d.month)
  }

  /** The day before: the previous day of the month, or the last day of the previous month. */
  function PreviousDay(d: Date): Date
    requires 0 <= d.month <= 11 && d.day >= 1
  {
    if d.day > 1 then Date(d.year, d.month, d.day - 1)
    else if d.month > 0 then Date(d.year, d.month - 1, DaysInMonth(d.year, d.month - 1))
    else Date(d.year - 1, 11, 31)
  }

  /** The day before a date is the latest calendar day that comes before it. */
  lemma PreviousDayIsPredecessor(d: Date)
    requires ValidDate(d)
    ensures ValidDate(PreviousDay(d))
    ensures !OnOrBefore(d, PreviousDay(d))
    ensures forall e :: ValidDate(e) && !OnOrBefore(d, e) ==> OnOrBefore(e, PreviousDay(d))
  {
  }

  /** A calendar day comes on or after a date exactly when it comes after the date's day
      before, even when the date itself is not a calendar day (29 February of a common year). */
  lemma AfterPreviousDay(a: Date, d: Date)
    requires 0 <= a.month <= 11 && a.day >= 1 && ValidDate(d)
    ensures OnOrBefore(a, d) <==> !OnOrBefore(d, PreviousDay(a))
  {
  }

  /** On the day before the thirteenth birthday the age is 12; on the birthday it is 13. For a
      birth on 29 February the anniversary falls in a common year, and its day before is the 28th.
      On every calendar day the age is at least 13 exactly when that day comes after the day
      before the birthday, so for 29 February the first such day is 1 March. */
  lemma ThirteenthBirthday(birth: Date)
    requires 0 <= birth.month <= 11 && birth.day >= 1
    ensures CalculateAge(birth, PreviousDay(Anniversary(birth, 13))) == 12
    ensures CalculateAge(birth, Anniversary(birth, 13)) == 13
    ensures forall d :: ValidDate(d) ==>
              (CalculateAge(birth, d) >= 13 <==> !OnOrBefore(d, PreviousDay(Anniversary(birth, 13))))
  {
    AgeIsUnique(birth, PreviousDay(Anniversary(birth, 13)), 12);
    AgeIsUnique(birth, Anniversary(birth, 13), 13);
    forall d | ValidDate(d)
      ensures CalculateAge(birth, d) >= 13 <==> !OnOrBefore(d, PreviousDay(Anniversary(birth, 13)))
    {
      AtLeastThirteenIff(birth, d);
      AfterPreviousDay(Anniversary(birth, 13), d);
    }
  }

  // ---------------------------------------------------------------------------
  // The two forms

  const NamesRequired := "Please enter both first and last name"
  const InvalidEmail := "Please enter a valid email address"
  const BirthDateRequired := "Please enter your date of birth"
  const TooYoung := "You must be at least 13 years old to register"
  const PasswordTooShort := "Password must be at least 6 characters long"
  const PasswordsDiffer := "Passwords do not match"

  /** The date-of-birth field as `new Date` reads it: empty, text that makes an Invalid Date,
      or a date. */
  datatype DateInput = Blank | Unparsable | Entered(date: Date)

  datatype Registration = Registration(
    firstName: string, lastName: string, email: string, dateOfBirth: DateInput,
    password: string, confirmPassword: string)

  /** `age < 13` at line 114; the age of an Invalid Date is NaN, which is not below 13. */
  predicate Underage(dateOfBirth: DateInput, today: Date) {
    dateOfBirth.Entered? && CalculateAge(dateOfBirth.date, today) < 13
  }

  /** The registration handler's checks: the message it shows, or `None` when it sends the request. */
  function RegisterCheck(form: Registration, today: Date): Option<string> {
    if Trim(form.firstName) == "" || Trim(form.lastName) == "" then Some(NamesRequired)
    else if !ValidateEmail(form.email) then Some(InvalidEmail)
    else if form.dateOfBirth.Blank? then Some(BirthDateRequired)
    else if Underage(form.dateOfBirth, today) then Some(TooYoung)
    else if !ValidatePassword(form.password) then Some(PasswordTooShort)
    else if form.password != form.confirmPassword then Some(PasswordsDiffer)
    else None
  }

  /** The sign-in handler's checks. */
  function LoginCheck(email: string, password: string): Option<string> {
    if !ValidateEmail(email) then Some(InvalidEmail)
    else if !ValidatePassword(password) then Some(PasswordTooShort)
    else None
  }

  /** A check of a form and the message shown when it fails. */
  datatype Rule = Rule(holds: bool, message: string)

  /** The message of the first rule that fails, or `None` when all hold. */
  function FirstFailure(rules: seq<Rule>): (r: Option<string>)
    ensures r.None? <==> forall k :: 0 <= k < |rules| ==> rules[k].holds
    ensures r.Some? ==> exists k :: 0 <= k < |rules| && !rules[k].holds && rules[k].message == r.value
                                    && forall m :: 0 <= m < k ==> rules[m].holds
  {
    if rules == [] then None
    else if !rules[0].holds then Some(rules[0].message)
    else
      var r := FirstFailure(rules[1..]);
      assert forall k :: 1 <= k < |rules| ==> rules[k] == rules[1..][k - 1];
      r
  }

  /** A list of six rules reports the first of them that fails. */
  lemma {:induction false} FirstFailureOfSix(r0: Rule, r1: Rule, r2: Rule, r3: Rule, r4: Rule, r5: Rule)
    ensures FirstFailure([r0, r1, r2, r3, r4, r5])
            == if !r0.holds then Some(r0.message)
               else if !r1.holds then Some(r1.message)
               else if !r2.holds then Some(r2.message)
               else if !r3.holds then Some(r3.message)
               else if !r4.holds then Some(r4.message)
               else if !r5.holds then Some(r5.message)
               else None
  {
    var t5 := [r5];
    var t4 := [r4, r5];
    var t3 := [r3, r4, r5];
    var t2 := [r2, r3, r4, r5];
    var t1 := [r1, r2, r3, r4, r5];
    var t0 := [r0, r1, r2, r3, r4, r5];
    assert t5[1..] == [] && t4[1..] == t5 && t3[1..] == t4;
    assert t2[1..] == t3 && t1[1..] == t2 && t0[1..] == t1;
    assert FirstFailure(t5) == if !r5.holds then Some(r5.message) else None;
    assert FirstFailure(t4) == if !r4.holds then Some(r4.message) else FirstFailure(t5);
    assert FirstFailure(t3) == if !r3.holds then Some(r3.message) else FirstFailure(t4);
    assert FirstFailure(t2) == if !r2.holds then Some(r2.message) else FirstFailure(t3);
    assert FirstFailure(t1) == if !r1.holds then Some(r1.message) else FirstFailure(t2);
    assert FirstFailure(t0) == if !r0.holds then Some(r0.message) else FirstFailure(t1);
  }

  /** The registration rules in the order the handler applies them. */
  function RegisterRules(form: Registration, today: Date): seq<Rule> {
    [ Rule(!AllWhitespace(form.firstName) && !AllWhitespace(form.lastName), NamesRequired),
      Rule(ValidateEmail(form.email), InvalidEmail),
      Rule(!form.dateOfBirth.Blank?, BirthDateRequired),
      Rule(!Underage(form.dateOfBirth, today), TooYoung),
      Rule(ValidatePassword(form.password), PasswordTooShort),
      Rule(form.password == form.confirmPassword, PasswordsDiffer) ]
  }

  /** Registration reports the first failing check in the order names, email, date of birth,
      age, password, confirmation, and sends the request exactly when all six hold. */
  lemma RegisterReportsFirstFailure(form: Registration, today: Date)
    ensures RegisterCheck(form, today) == FirstFailure(RegisterRules(form, today))
  {
    TrimEmptyIffBlank(form.firstName);
    TrimEmptyIffBlank(form.lastName);
    var rules := RegisterRules(form, today);
    FirstFailureOfSix(rules[0], rules[1], rules[2], rules[3], rules[4], rules[5]);
    assert rules == [rules[0], rules[1], rules[2], rules[3], rules[4], rules[5]];
  }

  /** Sign-in reports an invalid email before a short password. */
  lemma LoginReportsFirstFailure(email: string, password: string)
    ensures LoginCheck(email, password)
            == FirstFailure([Rule(ValidateEmail(email), InvalidEmail), Rule(ValidatePassword(password), PasswordTooShort)])
  {
    var rules := [Rule(ValidateEmail(email), InvalidEmail), Rule(ValidatePassword(password), PasswordTooShort)];
    assert rules[1..][1..] == [];
  }

  /** A registration with a birth date is refused for age exactly until the thirteenth birthday. */
  lemma RegisterAgeRule(form: Registration, today: Date)
    requires !AllWhitespace(form.firstName) && !AllWhitespace(form.lastName) && ValidateEmail(form.email)
    requires form.dateOfBirth.Entered?
    ensures RegisterCheck(form, today) == Some(TooYoung)
            <==> !OnOrBefore(Anniversary(form.dateOfBirth.date, 13), today)
  {
    TrimEmptyIffBlank(form.firstName);
    TrimEmptyIffBlank(form.lastName);
    AtLeastThirteenIff(form.dateOfBirth.date, today);
  }
}
