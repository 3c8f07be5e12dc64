/** The Express route handlers of `Backend/routes/adminRoutes.js`,
    `Backend/routes/internRoutes.js` and `Backend/routes/attendanceRoutes.js`
    over one in-memory database. Read-only routes are functions of the
    collections; routes that write are methods of `Store`. Every handler is
    reached after `authenticateJWT` where the router says so; the middleware
    itself is the `Auth` module. The clock, the database's fresh `_id`s,
    `bcrypt` and `jwt.sign` are parameters. */
module Backend {
  import opened Wrappers
  import opened Seqs
  import opened Strings
  import opened Calendar
  import opened Models
  import opened Auth
  import opened InternIds
  import opened WorkingHours

  // ---------------------------------------------------------------------
  // Lookups

  /** Some intern has this `_id`. */
  predicate HasIntern(interns: seq<Intern>, id: string) {
    exists i :: 0 <= i < |interns| && interns[i].id == id
  }

  /** `Intern.findOne({ email })`. Mongoose drops a filter key whose value is
      `undefined`, so a missing email matches the first intern. */
  function FindByEmail(interns: seq<Intern>, email: Option<string>): (r: Option<Intern>)
    ensures email.Some? ==> (r.None? <==> forall i :: 0 <= i < |interns| ==> interns[i].email != email)
    ensures email.Some? && r.Some? ==> r.value.email == email && r.value in interns
    ensures email.None? ==> (r.None? <==> interns == [])
  {
    if email.None? then (if interns == [] then None else Some(interns[0]))
    else Find(interns, (i: Intern) => i.email == email)
  }

  /** `Intern.findById(id)`. */
  function FindById(interns: seq<Intern>, id: string): (r: Option<Intern>)
    ensures r.None? <==> !HasIntern(interns, id)
    ensures r.Some? ==> r.value.id == id && r.value in interns
  {
    Find(interns, (i: Intern) => i.id == id)
  }

  /** Every intern with `_id` `id` replaced by `x`. */
  function ReplaceIntern(interns: seq<Intern>, id: string, x: Intern): (r: seq<Intern>)
    ensures |r| == |interns|
    ensures forall k :: 0 <= k < |r| ==> r[k] == if interns[k].id == id then x else interns[k]
  {
    seq(|interns|, k requires 0 <= k < |interns| => if interns[k].id == id then x else interns[k])
  }

  /** Replacing a record by one with the same `_id` whose email and
      `internId` no other record holds keeps the collection unique. */
  lemma ReplaceUnique(interns: seq<Intern>, id: string, x: Intern)
    requires UniqueInterns(interns) && x.id == id
    requires forall k :: 0 <= k < |interns| && interns[k].id != id ==>
      interns[k].email != x.email && interns[k].internId != x.internId
    ensures UniqueInterns(ReplaceIntern(interns, id, x))
  {
  }

  // ---------------------------------------------------------------------
  // Login (`POST /interns/login`)

  datatype LoginReply =
    | NotFound
    | InvalidCredentials
    | NotApproved
    | LoggedIn(payload: Payload)
    | LoginError

  function LoginStatus(r: LoginReply): int {
    match r
    case NotFound => 404
    case InvalidCredentials => 401
    case NotApproved => 401
    case LoggedIn(_) => 200
    case LoginError => 500
  }

  /** `bcrypt.compare(password, intern.password)` succeeds. */
  predicate Accepts(i: Intern, password: string, matches: (string, string) -> bool) {
    i.password.Some? && matches(password, i.password.value)
  }

  /** The decision chain of the login route: unknown email, wrong password,
      missing approval, in that order. `bcrypt.compare` is `matches`; it
      throws (500) when either side is missing. The token signs the intern's
      `_id` and role. */
  function Login(interns: seq<Intern>, email: Option<string>, password: Option<string>,
                 matches: (string, string) -> bool): (r: LoginReply)
    ensures email.Some? ==> (r == NotFound <==> forall i :: 0 <= i < |interns| ==> interns[i].email != email)
    ensures r.LoggedIn? ==> password.Some? && (exists i :: 0 <= i < |interns|
                                                  && (email.Some? ==> interns[i].email == email)
                                                  && interns[i].status == Some("approved")
                                                  && Accepts(interns[i], password.value, matches)
                                                  && r.payload == Payload(interns[i].id, interns[i].role))
    ensures r == NotApproved ==> password.Some? && (exists i :: 0 <= i < |interns|
                                                      && Accepts(interns[i], password.value, matches)
                                                      && interns[i].status != Some("approved"))
  {
    match FindByEmail(interns, email)
    case None => NotFound
    case Some(i) =>
      if password.None? || i.password.None? then LoginError
      else if !matches(password.value, i.password.value) then InvalidCredentials
      else if i.status != Some("approved") then NotApproved
      else LoggedIn(Payload(i.id, i.role))
  }

  /** A wrong password is reported as such whatever the approval status:
      the password check comes first. */
  lemma WrongPasswordFirst(interns: seq<Intern>, email: string, password: string,
                           matches: (string, string) -> bool, i: Intern)
    requires FindByEmail(interns, Some(email)) == Some(i)
    requires i.password.Some? && !matches(password, i.password.value)
    ensures Login(interns, Some(email), Some(password), matches) == InvalidCredentials
    ensures LoginStatus(Login(interns, Some(email), Some(password), matches)) == 401
  {
  }

  /** A correct password on an account that is not approved gives 401. */
  lemma UnapprovedRefused(interns: seq<Intern>, email: string, password: string,
                          matches: (string, string) -> bool, i: Intern)
    requires FindByEmail(interns, Some(email)) == Some(i)
    requires i.password.Some? && matches(password, i.password.value)
    requires i.status != Some("approved")
    ensures Login(interns, Some(email), Some(password), matches) == NotApproved
    ensures LoginStatus(Login(interns, Some(email), Some(password), matches)) == 401
  {
  }

  // ---------------------------------------------------------------------
  // Registration (`POST /admin/intern/register`, `POST /interns/register`)

  /** The intern part of the 201 response. */
  datatype Registered = Registered(
    internId: string, firstName: Option<string>, lastName: Option<string>,
    email: Option<string>, plainPassword: string)

  /** The unique indexes on `email` and `internId` reject `x`. */
  predicate Collides(interns: seq<Intern>, x: Intern) {
    exists i :: 0 <= i < |interns| && (interns[i].email == x.email || interns[i].internId == x.internId)
  }

  /** Adding a record that no unique index rejects and whose `_id` is new
      keeps the collection unique. */
  lemma AppendUnique(interns: seq<Intern>, x: Intern)
    requires UniqueInterns(interns) && !HasIntern(interns, x.id) && !Collides(interns, x)
    ensures UniqueInterns(interns + [x])
  {
    var s := interns + [x];
    forall a, b | 0 <= a < b < |s|
      ensures s[a].id != s[b].id && s[a].email != s[b].email && s[a].internId != s[b].internId
    {
      if b == |interns| {
        assert s[a] == interns[a];
      }
    }
  }

  // ---------------------------------------------------------------------
  // Profile update (`PUT /interns/:id`)

  /** The ten fields of the request body; `None` is `undefined`, which
      `findByIdAndUpdate` leaves alone. */
  datatype ProfileUpdate = ProfileUpdate(
    firstName: Option<string>, lastName: Option<string>, email: Option<string>,
    phone: Option<string>, dob: Option<Date>, nationality: Option<string>,
    designation: Option<string>, currentAddress: Option<string>,
    education: Option<seq<EducationRow>>, experience: Option<seq<ExperienceRow>>)

  /** A field of the update: the given value, or the current one when the
      request leaves it `undefined`. */
  function Overwrite<T>(current: T, given: Option<T>): T {
    if given.Some? then given.value else current
  }

  /** The same for a field that is optional in the record. */
  function OverwriteOption<T>(current: Option<T>, given: Option<T>): Option<T> {
    if given.Some? then given else current
  }

  /** The updated record: each of the ten fields that the request carries is
      replaced; `_id`, `internId`, password, role, status, join date and
      `profileUpdated` never change. */
  function ApplyProfile(i: Intern, u: ProfileUpdate): (r: Intern)
    ensures r.id == i.id && r.internId == i.internId && r.password == i.password
    ensures r.role == i.role && r.status == i.status && r.dateOfJoining == i.dateOfJoining
    ensures r.profileUpdated == i.profileUpdated
    ensures u.email.Some? ==> r.email == u.email
    ensures u.email.None? ==> r.email == i.email
    ensures u.firstName.Some? ==> r.firstName == u.firstName
    ensures u.firstName.None? ==> r.firstName == i.firstName
    ensures u.lastName.Some? ==> r.lastName == u.lastName
    ensures u.lastName.None? ==> r.lastName == i.lastName
    ensures u.phone.Some? ==> r.phone == u.phone
    ensures u.phone.None? ==> r.phone == i.phone
    ensures u.dob.Some? ==> r.dob == u.dob
    ensures u.dob.None? ==> r.dob == i.dob
    ensures u.nationality.Some? ==> r.nationality == u.nationality
    ensures u.nationality.None? ==> r.nationality == i.nationality
    ensures u.designation.Some? ==> r.designation == u.designation
    ensures u.designation.None? ==> r.designation == i.designation
    ensures u.currentAddress.Some? ==> r.currentAddress == u.currentAddress
    ensures u.currentAddress.None? ==> r.currentAddress == i.currentAddress
    ensures u.education.Some? ==> r.education == u.education.value
    ensures u.education.None? ==> r.education == i.education
    ensures u.experience.Some? ==> r.experience == u.experience.value
    ensures u.experience.None? ==> r.experience == i.experience
  {
    i.(firstName := OverwriteOption(i.firstName, u.firstName),
       lastName := OverwriteOption(i.lastName, u.lastName),
       email := OverwriteOption(i.email, u.email),
       phone := OverwriteOption(i.phone, u.phone),
       dob := OverwriteOption(i.dob, u.dob),
       nationality := OverwriteOption(i.nationality, u.nationality),
       designation := OverwriteOption(i.designation, u.designation),
       currentAddress := OverwriteOption(i.currentAddress, u.currentAddress),
       education := Overwrite(i.education, u.education),
       experience := Overwrite(i.experience, u.experience))
  }

  /** An empty request changes nothing. */
  lemma ApplyProfileEmpty(i: Intern)
    ensures ApplyProfile(i, ProfileUpdate(None, None, None, None, None, None, None, None, None, None)) == i
  {
  }

  /** Applying the same request twice is applying it once. */
  lemma ApplyProfileIdempotent(i: Intern, u: ProfileUpdate)
    ensures ApplyProfile(ApplyProfile(i, u), u) == ApplyProfile(i, u)
  {
  }

  // ---------------------------------------------------------------------
  // Working hours (`GET` and `PUT /admin/working-hours`)

  /** The GET reply: 400, the 500 of a failed cast, or 200 with the hours. */
  datatype HoursReply = HoursBadRequest | HoursCastError | HoursOk(hours: int)

  /** `MonthlyHours.findOne({ month, year })`. */
  function FindOverride(overrides: seq<MonthlyHours>, month: int, year: int): (r: Option<MonthlyHours>)
    ensures r.Some? ==> r.value in overrides && r.value.month == month && r.value.year == year
    ensures r.None? <==> forall k :: 0 <= k < |overrides| ==> (overrides[k].month, overrides[k].year) != (month, year)
  {
    Find(overrides, (o: MonthlyHours) => o.month == month && o.year == year)
  }

  /** A query parameter is falsy when it is missing or empty; "0" is
      truthy. */
  predicate FalsyQuery(q: Option<string>) {
    q.None? || q.value == ""
  }

  /** The GET handler over the query strings `month` and `year`. After the
      guard, `findOne` casts both to numbers; a failed cast is caught as a
      500. The `Date` arithmetic then reads the same numbers. */
  function WorkingHoursReply(overrides: seq<MonthlyHours>, holidays: seq<Holiday>,
                             month: Option<string>, year: Option<string>): (r: HoursReply)
    ensures r.HoursBadRequest? <==> FalsyQuery(month) || FalsyQuery(year)
    ensures r.HoursCastError? <==>
      !FalsyQuery(month) && !FalsyQuery(year) && (CastNumber(month.value).None? || CastNumber(year.value).None?)
    ensures r.HoursOk? ==> CastNumber(month.value).Some? && CastNumber(year.value).Some?
    ensures r.HoursOk? ==>
      var m, y := CastNumber(month.value).value, CastNumber(year.value).value;
      if FindOverride(overrides, m, y).Some? then r.hours == FindOverride(overrides, m, y).value.hours
      else 0 <= r.hours <= 8 * MonthLength(y, m) && r.hours % 8 == 0
  {
    if FalsyQuery(month) || FalsyQuery(year) then HoursBadRequest
    else if CastNumber(month.value).None? || CastNumber(year.value).None? then HoursCastError
    else
      var m, y := CastNumber(month.value).value, CastNumber(year.value).value;
      match FindOverride(overrides, m, y)
      case Some(o) => HoursOk(o.hours)
      case None => HoursOk(DefaultHours(y, m, holidays))
  }

  /** The pages build the query from numbers (`?month=${month}&year=${year}`);
      such a query is never refused and never fails the cast. */
  lemma NumericQueryAnswered(overrides: seq<MonthlyHours>, holidays: seq<Holiday>, month: int, year: int)
    ensures WorkingHoursReply(overrides, holidays, Some(IntToString(month)), Some(IntToString(year))).HoursOk?
  {
    CastNumberOfString(month);
    CastNumberOfString(year);
  }

  /** A truthy month that is not a number, such as "abc", is a 500. */
  lemma NonNumericQueryFails(overrides: seq<MonthlyHours>, holidays: seq<Holiday>, month: string, year: Option<string>)
    requires |month| > 1 && !IsDigit(month[1]) && !FalsyQuery(year)
    ensures WorkingHoursReply(overrides, holidays, Some(month), year) == HoursCastError
  {
    CastNumberRejects(month, 1);
  }

  /** An override is returned whatever the holidays are. */
  lemma OverrideIgnoresHolidays(overrides: seq<MonthlyHours>, hs: seq<Holiday>, gs: seq<Holiday>, month: int, year: int)
    requires FindOverride(overrides, month, year).Some?
    ensures WorkingHoursReply(overrides, hs, Some(IntToString(month)), Some(IntToString(year)))
         == WorkingHoursReply(overrides, gs, Some(IntToString(month)), Some(IntToString(year)))
         == HoursOk(FindOverride(overrides, month, year).value.hours)
  {
    CastNumberOfString(month);
    CastNumberOfString(year);
  }

  /** Without an override and without holidays the reply lies between 160
      and 184 hours. */
  lemma DefaultReplyBounds(overrides: seq<MonthlyHours>, month: int, year: int)
    requires FindOverride(overrides, month, year).None?
    ensures WorkingHoursReply(overrides, [], Some(IntToString(month)), Some(IntToString(year))).HoursOk?
    ensures 160 <= WorkingHoursReply(overrides, [], Some(IntToString(month)), Some(IntToString(year))).hours <= 184
  {
    CastNumberOfString(month);
    CastNumberOfString(year);
    NoHolidayBounds(year, month);
  }

  /** Month "0" passes the GET guard and the cast, and is read as December
      of the year before. */
  lemma MonthZeroIsDecember(overrides: seq<MonthlyHours>, holidays: seq<Holiday>, year: int)
    ensures WorkingHoursReply(overrides, holidays, Some("0"), Some(IntToString(year))).HoursOk?
    ensures TargetMonth(year, 0) == (ConstructorYear(year) - 1, 12)
  {
    NumericQueryAnswered(overrides, holidays, 0, year);
  }

  /** At most one override per (month, year). */
  predicate UniqueOverrides(overrides: seq<MonthlyHours>) {
    forall a, b :: 0 <= a < b < |overrides| ==>
      (overrides[a].month, overrides[a].year) != (overrides[b].month, overrides[b].year)
  }

  /** `findOneAndUpdate({ month, year }, { hours }, { upsert: true })`: the
      first matching override takes the hours, else a new one is appended. */
  function Upsert(overrides: seq<MonthlyHours>, month: int, year: int, hours: int): (r: seq<MonthlyHours>)
    ensures MonthlyHours(month, year, hours) in r
    ensures |overrides| <= |r| <= |overrides| + 1
  {
    if overrides == [] then [MonthlyHours(month, year, hours)]
    else if overrides[0].month == month && overrides[0].year == year then
      [MonthlyHours(month, year, hours)] + overrides[1..]
    else [overrides[0]] + Upsert(overrides[1..], month, year, hours)
  }

  /** After the upsert the lookup for (month, year) finds the new hours. */
  lemma {:induction false} UpsertFinds(overrides: seq<MonthlyHours>, month: int, year: int, hours: int)
    ensures FindOverride(Upsert(overrides, month, year, hours), month, year) == Some(MonthlyHours(month, year, hours))
  {
    if overrides != [] && !(overrides[0].month == month && overrides[0].year == year) {
      UpsertFinds(overrides[1..], month, year, hours);
      var r := Upsert(overrides, month, year, hours);
      assert r[1..] == Upsert(overrides[1..], month, year, hours);
    }
  }

  /** The lookup for any other (month, year) is unchanged. */
  lemma {:induction false} UpsertOthers(overrides: seq<MonthlyHours>, month: int, year: int, hours: int, m: int, y: int)
    requires (m, y) != (month, year)
    ensures FindOverride(Upsert(overrides, month, year, hours), m, y) == FindOverride(overrides, m, y)
  {
    if overrides != [] {
      var r := Upsert(overrides, month, year, hours);
      if overrides[0].month == month && overrides[0].year == year {
        assert r[1..] == overrides[1..];
      } else {
        UpsertOthers(overrides[1..], month, year, hours, m, y);
        assert r[1..] == Upsert(overrides[1..], month, year, hours);
      }
    }
  }

  /** Every element of the upsert is the new override or an old one. */
  lemma {:induction false} UpsertElements(overrides: seq<MonthlyHours>, month: int, year: int, hours: int)
    ensures forall o :: o in Upsert(overrides, month, year, hours) ==>
      o == MonthlyHours(month, year, hours) || o in overrides
  {
    if overrides != [] && !(overrides[0].month == month && overrides[0].year == year) {
      UpsertElements(overrides[1..], month, year, hours);
    }
  }

  /** The upsert keeps at most one override per (month, year). */
  lemma {:induction false} UpsertUnique(overrides: seq<MonthlyHours>, month: int, year: int, hours: int)
    requires UniqueOverrides(overrides)
    ensures UniqueOverrides(Upsert(overrides, month, year, hours))
  {
    if overrides != [] {
      var r := Upsert(overrides, month, year, hours);
      var rest := overrides[1..];
      assert UniqueOverrides(rest) by {
        forall a, b | 0 <= a < b < |rest| ensures (rest[a].month, rest[a].year) != (rest[b].month, rest[b].year) {
          assert rest[a] == overrides[a + 1] && rest[b] == overrides[b + 1];
        }
      }
      if overrides[0].month == month && overrides[0].year == year {
        forall a, b | 0 <= a < b < |r| ensures (r[a].month, r[a].year) != (r[b].month, r[b].year) {
          assert r[b] == overrides[b];
          if a > 0 {
            assert r[a] == overrides[a];
          }
        }
      } else {
        UpsertUnique(rest, month, year, hours);
        UpsertElements(rest, month, year, hours);
        var tail := Upsert(rest, month, year, hours);
        assert r == [overrides[0]] + tail;
        forall b | 0 <= b < |tail| ensures (tail[b].month, tail[b].year) != (overrides[0].month, overrides[0].year) {
          assert tail[b] in tail;
          if tail[b] != MonthlyHours(month, year, hours) {
            var k :| 0 <= k < |rest| && rest[k] == tail[b];
            assert rest[k] == overrides[k + 1];
          }
        }
        forall a, b | 0 <= a < b < |r| ensures (r[a].month, r[a].year) != (r[b].month, r[b].year) {
          assert r[b] == tail[b - 1];
          if a > 0 {
            assert r[a] == tail[a - 1];
          }
        }
      }
    }
  }

  /** JSON falsiness of a number field: missing or 0. */
  predicate FalsyNumber(n: Option<int>) {
    n.None? || n.value == 0
  }

  /** A number field of a JSON body as Express hands it over: a JSON number,
      or a string such as the answer to a `prompt`. */
  datatype NumberField = JsonNumber(n: int) | JsonString(s: string)

  /** JavaScript falsiness of such a field: missing, 0 or "". The string
      "0" is truthy. */
  predicate FalsyField(f: Option<NumberField>) {
    f.None? || (f.value.JsonNumber? && f.value.n == 0) || (f.value.JsonString? && f.value.s == "")
  }

  /** Mongoose's cast of a string to a `Number` path, for an optional sign
      followed by decimal digits; `None` is the cast error. */
  function CastNumber(s: string): (r: Option<int>) {
    var body := if s != [] && (s[0] == '-' || s[0] == '+') then s[1..] else s;
    if body != [] && AllDigits(body) then
      var v: int := DigitsValue(body);
      Some(if s[0] == '-' then -v else v)
    else None
  }

  /** The cast reads back what `String(n)` wrote. */
  lemma CastNumberOfString(n: int)
    ensures CastNumber(IntToString(n)) == Some(n)
  {
    var m: nat := if n < 0 then -n else n;
    NatToStringValue(m);
    if n < 0 {
      assert IntToString(n)[1..] == NatToString(m);
    }
  }

  /** A character other than a digit after the sign position is a cast
      error. */
  lemma CastNumberRejects(s: string, k: int)
    requires 0 < k < |s| && !IsDigit(s[k])
    ensures CastNumber(s) == None
  {
    var body := if s[0] == '-' || s[0] == '+' then s[1..] else s;
    assert !IsDigit(body[k - (|s| - |body|)]);
  }

  /** What `PUT /admin/working-hours` does with its body. */
  datatype HoursPut = PutBadRequest | PutCastError | PutStored(hours: int)

  /** The guard `!month || !year || !hours`, then the cast of `hours` by
      `findOneAndUpdate`: a JSON number is stored as it is, a string through
      `CastNumber`. */
  function PutHoursOutcome(month: Option<int>, year: Option<int>, hours: Option<NumberField>): (r: HoursPut)
    ensures r.PutBadRequest? <==> FalsyNumber(month) || FalsyNumber(year) || FalsyField(hours)
    ensures r.PutCastError? ==> hours.value.JsonString? && CastNumber(hours.value.s).None?
    ensures r.PutStored? ==>
      if hours.value.JsonNumber? then r.hours == hours.value.n else CastNumber(hours.value.s) == Some(r.hours)
  {
    if FalsyNumber(month) || FalsyNumber(year) || FalsyField(hours) then PutBadRequest
    else match hours.value
      case JsonNumber(n) => PutStored(n)
      case JsonString(t) => if CastNumber(t).Some? then PutStored(CastNumber(t).value) else PutCastError
  }

  /** The string "0" passes the guard and is stored as 0 hours. */
  lemma ZeroStringStored(month: int, year: int)
    requires month != 0 && year != 0
    ensures PutHoursOutcome(Some(month), Some(year), Some(JsonString("0"))) == PutStored(0)
  {
    CastNumberOfString(0);
  }

  /** A truthy string that is not a number passes the guard and fails the
      cast. */
  lemma NonNumericStringFails(month: int, year: int, t: string)
    requires month != 0 && year != 0 && |t| > 1 && !IsDigit(t[1])
    ensures PutHoursOutcome(Some(month), Some(year), Some(JsonString(t))) == PutCastError
  {
    CastNumberRejects(t, 1);
  }

  // ---------------------------------------------------------------------
  // Attendance (`POST /attendance/mark`, `GET /attendance/:internId`)

  /** `Attendance.find({ internId })`: the records of that intern, in
      store order. */
  function AttendanceOf(attendance: seq<Attendance>, internId: string): (r: seq<Attendance>)
    ensures forall x :: x in r <==> x in attendance && x.internId == internId
    ensures IsSubsequence(r, attendance)
  {
    var p := (x: Attendance) => x.internId == internId;
    assert forall x :: x in Filter(attendance, p) <==> x in attendance && p(x) by {
      forall x ensures x in Filter(attendance, p) <==> x in attendance && p(x) {
        FilterMembership(attendance, p, x);
      }
    }
    FilterIsSubsequence(attendance, p);
    Filter(attendance, p)
  }

  /** `Attendance.findOne({ internId, date })` finds a record. */
  predicate AttendanceExists(attendance: seq<Attendance>, internId: string, date: Date) {
    exists k :: 0 <= k < |attendance| && attendance[k].internId == internId && attendance[k].date == date
  }

  /** `moment(date).startOf('day').isAfter(today)`, where a missing date is
      now and so never in the future. */
  predicate Future(date: Option<Date>, today: Date) {
    date.Some? && Before(today, date.value)
  }

  /** `Attendance.findOne({ internId, date })`, an undefined key dropped
      from the filter. */
  predicate AttendanceFound(attendance: seq<Attendance>, internId: Option<string>, date: Option<Date>) {
    exists k :: 0 <= k < |attendance| &&
      (internId.None? || attendance[k].internId == internId.value) &&
      (date.None? || attendance[k].date == date.value)
  }

  /** With both keys present the lookup finds exactly an existing
      (internId, date) pair; with a key missing it finds more. */
  lemma FoundExists(attendance: seq<Attendance>, internId: string, date: Date)
    ensures AttendanceFound(attendance, Some(internId), Some(date)) <==> AttendanceExists(attendance, internId, date)
    ensures AttendanceExists(attendance, internId, date) ==>
      AttendanceFound(attendance, None, Some(date)) && AttendanceFound(attendance, Some(internId), None)
  {
    if AttendanceExists(attendance, internId, date) {
      var k :| 0 <= k < |attendance| && attendance[k].internId == internId && attendance[k].date == date;
      assert AttendanceFound(attendance, None, Some(date));
      assert AttendanceFound(attendance, Some(internId), None);
    }
  }

  /** Appending a record whose (internId, date) is new keeps the pairs
      distinct. */
  lemma AppendAttendanceUnique(attendance: seq<Attendance>, a: Attendance)
    requires UniqueAttendance(attendance) && !AttendanceExists(attendance, a.internId, a.date)
    ensures UniqueAttendance(attendance + [a])
  {
    var s := attendance + [a];
    forall x, y | 0 <= x < y < |s| ensures (s[x].internId, s[x].date) != (s[y].internId, s[y].date) {
      if y == |attendance| {
        assert s[x] == attendance[x];
      }
    }
  }

  // ---------------------------------------------------------------------
  // Report (`GET /admin/report`)

  datatype ReportRow = ReportRow(firstName: string, lastName: string, designation: string,
                                 attendance: seq<Attendance>)

  /** `value || "N/A"`. */
  function OrNA(s: Option<string>): (r: string)
    ensures r != ""
    ensures Filled(s) ==> r == s.value
    ensures !Filled(s) ==> r == "N/A"
  {
    if s.Some? && s.value != "" then s.value else "N/A"
  }

  /** A record belongs to an intern when it carries either the intern's
      `_id` or its business `internId`. An intern without an `internId`
      matches by `_id` only: the stored query would drop the undefined key
      and match every record, but the schema requires an `internId`. */
  predicate BelongsTo(i: Intern, a: Attendance) {
    a.internId == i.id || Some(a.internId) == i.internId
  }

  /** The row of one intern: names and designation or "N/A", and exactly
      the attendance records that belong to it, in store order. */
  function ReportRowOf(i: Intern, attendance: seq<Attendance>): (row: ReportRow)
    ensures row.firstName == OrNA(i.firstName) && row.lastName == OrNA(i.lastName)
    ensures row.designation == OrNA(i.designation)
    ensures forall a :: a in row.attendance <==> a in attendance && BelongsTo(i, a)
    ensures IsSubsequence(row.attendance, attendance)
  {
    var p := (a: Attendance) => BelongsTo(i, a);
    assert forall a :: a in Filter(attendance, p) <==> a in attendance && p(a) by {
      forall a ensures a in Filter(attendance, p) <==> a in attendance && p(a) {
        FilterMembership(attendance, p, a);
      }
    }
    FilterIsSubsequence(attendance, p);
    ReportRow(OrNA(i.firstName), OrNA(i.lastName), OrNA(i.designation), Filter(attendance, p))
  }

  // ---------------------------------------------------------------------
  // Holidays

  /** `Holiday.findOne({ date, _id: { $ne: id } })`; without a date the
      filter is `{ _id: { $ne: id } }`. */
  function ConflictingHoliday(holidays: seq<Holiday>, id: string, date: Option<Date>): (r: Option<Holiday>)
    ensures r.Some? ==> r.value in holidays && r.value.id != id
    ensures r.Some? && date.Some? ==> r.value.date == date.value
    ensures r.None? <==> forall k :: 0 <= k < |holidays| ==>
      holidays[k].id == id || (date.Some? && holidays[k].date != date.value)
  {
    Find(holidays, (h: Holiday) => (date.None? || h.date == date.value) && h.id != id)
  }

  /** `Holiday.findByIdAndDelete(id)`: the holidays without that `_id`. */
  function RemoveHoliday(holidays: seq<Holiday>, id: string): (r: seq<Holiday>)
    ensures forall h :: h in r <==> h in holidays && h.id != id
    ensures IsSubsequence(r, holidays)
  {
    var p := (h: Holiday) => h.id != id;
    assert forall h :: h in Filter(holidays, p) <==> h in holidays && p(h) by {
      forall h ensures h in Filter(holidays, p) <==> h in holidays && p(h) {
        FilterMembership(holidays, p, h);
      }
    }
    FilterIsSubsequence(holidays, p);
    Filter(holidays, p)
  }

  predicate HasHoliday(holidays: seq<Holiday>, id: string) {
    exists k :: 0 <= k < |holidays| && holidays[k].id == id
  }

  /** `$set: { name, date }` on holiday `id`; an `undefined` value is left
      out of the update. */
  function SetHoliday(holidays: seq<Holiday>, id: string, name: Option<string>, date: Option<Date>): (r: seq<Holiday>)
    ensures |r| == |holidays|
    ensures forall k :: 0 <= k < |r| ==> r[k] == if holidays[k].id != id then holidays[k]
      else Holiday(id, name.GetOr(holidays[k].name), date.GetOr(holidays[k].date))
  {
    seq(|holidays|, k requires 0 <= k < |holidays| =>
      if holidays[k].id != id then holidays[k]
      else Holiday(id, name.GetOr(holidays[k].name), date.GetOr(holidays[k].date)))
  }

  predicate DistinctHolidayIds(holidays: seq<Holiday>) {
    forall a, b :: 0 <= a < b < |holidays| ==> holidays[a].id != holidays[b].id
  }

  // ---------------------------------------------------------------------
  // Send email (`POST /admin/send-email`)

  datatype EmailReply = EmailBadRequest | EmailSent(to: seq<Option<string>>)

  /** The guard, then `Intern.find({ _id: { $in: recipients } })`'s emails in
      store order. */
  function SendEmailReply(interns: seq<Intern>, subject: Option<string>, message: Option<string>,
                          recipients: Option<seq<string>>): (r: EmailReply)
    ensures r.EmailBadRequest? <==> !Filled(subject) || !Filled(message) || recipients.None? || recipients.value == []
    ensures r.EmailSent? ==> |r.to| <= |interns|
    ensures r.EmailSent? ==> forall e :: e in r.to ==>
      exists i :: 0 <= i < |interns| && interns[i].id in recipients.value && interns[i].email == e
    ensures r.EmailSent? ==> forall i :: 0 <= i < |interns| && interns[i].id in recipients.value ==>
      interns[i].email in r.to
  {
    if !Filled(subject) || !Filled(message) || recipients.None? || recipients.value == [] then EmailBadRequest
    else
      var chosen := Filter(interns, (i: Intern) => i.id in recipients.value);
      var to := seq(|chosen|, k requires 0 <= k < |chosen| => chosen[k].email);
      assert forall k :: 0 <= k < |chosen| ==> chosen[k] in interns by {
        forall k | 0 <= k < |chosen| ensures chosen[k] in interns {
          FilterMembership(interns, (i: Intern) => i.id in recipients.value, chosen[k]);
        }
      }
      assert forall i :: 0 <= i < |interns| && interns[i].id in recipients.value ==> interns[i].email in to by {
        forall i | 0 <= i < |interns| && interns[i].id in recipients.value ensures interns[i].email in to {
          FilterMembership(interns, (i: Intern) => i.id in recipients.value, interns[i]);
          var k :| 0 <= k < |chosen| && chosen[k] == interns[i];
          assert to[k] == interns[i].email;
        }
      }
      EmailSent(to)
  }

  // ---------------------------------------------------------------------
  // The database

  class Store {
    var interns: seq<Intern>
    var attendance: seq<Attendance>
    var holidays: seq<Holiday>
    var overrides: seq<MonthlyHours>

    /** The unique indexes and distinct `_id`s of every collection. */
    predicate Valid()
      reads this
    {
      UniqueInterns(interns) && UniqueAttendance(attendance)
      && UniqueOverrides(overrides) && DistinctHolidayIds(holidays)
    }

    constructor ()
      ensures Valid()
      ensures interns == [] && attendance == [] && holidays == [] && overrides == []
    {
      interns, attendance, holidays, overrides := [], [], [], [];
    }

    /** Registration: an email already held gives 400; otherwise the ID is
        generated from the greatest existing one and the current month and
        year, the password is the hash of that ID, and the record is saved
        (201, the ID returned as the plain password) unless validation or a
        unique index rejects it (500). */
    method Register(input: InternInput, now: Date, freshId: string, hash: string -> string)
      returns (status: int, reply: Option<Registered>)
      requires Valid() && !HasIntern(interns, freshId)
      modifies this
      ensures Valid()
      ensures attendance == old(attendance) && holidays == old(holidays) && overrides == old(overrides)
      ensures FindByEmail(old(interns), input.email).Some? ==>
        status == 400 && interns == old(interns) && reply.None?
      ensures FindByEmail(old(interns), input.email).None? ==>
        var id := GenerateInternId(old(interns), now.month, now.year);
        var rec := NewIntern(freshId, input, id, hash(id), now);
        if ValidIntern(rec) && !Collides(old(interns), rec) then
          status == 201 && interns == old(interns) + [rec]
          && reply == Some(Registered(id, input.firstName, input.lastName, input.email, id))
        else
          status == 500 && interns == old(interns) && reply.None?
    {
      if FindByEmail(interns, input.email).Some? {
        return 400, None;
      }
      var internId := GenerateInternId(interns, now.month, now.year);
      var plainPassword := internId;
      var intern := NewIntern(freshId, input, internId, hash(plainPassword), now);
      if !ValidIntern(intern) || Collides(interns, intern) {
        return 500, None;
      }
      AppendUnique(interns, intern);
      interns := interns + [intern];
      return 201, Some(Registered(internId, input.firstName, input.lastName, input.email, plainPassword));
    }

    /** `PUT /interns/:id`: 404 for an unknown `_id`; 500 when the new email
        is another intern's; otherwise the record is updated in place. */
    method UpdateProfile(id: string, u: ProfileUpdate) returns (status: int)
      requires Valid()
      modifies this
      ensures Valid()
      ensures attendance == old(attendance) && holidays == old(holidays) && overrides == old(overrides)
      ensures !HasIntern(old(interns), id) ==> status == 404 && interns == old(interns)
      ensures HasIntern(old(interns), id) ==>
        var updated := ApplyProfile(FindById(old(interns), id).value, u);
        if exists k :: 0 <= k < |old(interns)| && old(interns)[k].id != id && old(interns)[k].email == updated.email then
          status == 500 && interns == old(interns)
        else
          status == 200 && interns == ReplaceIntern(old(interns), id, updated)
    {
      var found := FindById(interns, id);
      if found.None? {
        return 404;
      }
      var updated := ApplyProfile(found.value, u);
      if exists k :: 0 <= k < |interns| && interns[k].id != id && interns[k].email == updated.email {
        return 500;
      }
      forall k | 0 <= k < |interns| && interns[k].id != id
        ensures interns[k].internId != updated.internId
      {
        var j :| 0 <= j < |interns| && interns[j] == found.value;
      }
      ReplaceUnique(interns, id, updated);
      interns := ReplaceIntern(interns, id, updated);
      return 200;
    }

    /** `PUT /admin/interns/status/:id`: 404 for an unknown `_id`; otherwise
        the status is set and the document saved, which re-runs validation
        (500 when the stored record does not pass it). */
    method UpdateStatus(id: string, newStatus: Option<string>) returns (status: int)
      requires Valid()
      modifies this
      ensures Valid()
      ensures attendance == old(attendance) && holidays == old(holidays) && overrides == old(overrides)
      ensures !HasIntern(old(interns), id) ==> status == 404 && interns == old(interns)
      ensures HasIntern(old(interns), id) ==>
        var updated := FindById(old(interns), id).value.(status := newStatus);
        if ValidIntern(updated) then
          status == 200 && interns == ReplaceIntern(old(interns), id, updated)
        else
          status == 500 && interns == old(interns)
    {
      var found := FindById(interns, id);
      if found.None? {
        return 404;
      }
      var updated := found.value.(status := newStatus);
      if !ValidIntern(updated) {
        return 500;
      }
      forall k | 0 <= k < |interns| && interns[k].id != id
        ensures interns[k].email != updated.email && interns[k].internId != updated.internId
      {
        var j :| 0 <= j < |interns| && interns[j] == found.value;
      }
      ReplaceUnique(interns, id, updated);
      interns := ReplaceIntern(interns, id, updated);
      return 200;
    }

    /** `DELETE /admin/interns/:id`: 404 and no change for an unknown `_id`;
        otherwise the intern goes, and so does every attendance record whose
        `internId` is that `_id`. */
    method DeleteIntern(id: string) returns (status: int)
      requires Valid()
      modifies this
      ensures Valid()
      ensures holidays == old(holidays) && overrides == old(overrides)
      ensures !HasIntern(old(interns), id) ==>
        status == 404 && interns == old(interns) && attendance == old(attendance)
      ensures HasIntern(old(interns), id) ==> (
        && status == 200
        && interns == Filter(old(interns), (i: Intern) => i.id != id)
        && attendance == Filter(old(attendance), (a: Attendance) => a.internId != id))
    {
      if FindById(interns, id).None? {
        return 404;
      }
      var keepIntern := (i: Intern) => i.id != id;
      var keepRecord := (a: Attendance) => a.internId != id;
      FilterIsSubsequence(interns, keepIntern);
      FilterIsSubsequence(attendance, keepRecord);
      SubsequenceUniqueInterns(Filter(interns, keepIntern), interns);
      SubsequenceUniqueAttendance(Filter(attendance, keepRecord), attendance);
      interns := Filter(interns, keepIntern);
      attendance := Filter(attendance, keepRecord);
      return 200;
    }

    /** `POST /attendance/mark`. A body field that is absent is `None`:
        `moment(undefined)` is now, so a missing date passes the future-day
        check, and `findOne` drops an undefined key from its filter. A day
        after today gives 400 first; then any record matching the filter
        gives 400; a missing or empty `internId` or a missing date fails
        validation (500); otherwise one record is added. */
    method MarkAttendance(internId: Option<string>, date: Option<Date>, hours: Option<int>,
                          dayTask: Option<string>, today: Date)
      returns (status: int)
      requires Valid()
      modifies this
      ensures Valid()
      ensures interns == old(interns) && holidays == old(holidays) && overrides == old(overrides)
      ensures Future(date, today) ==> status == 400 && attendance == old(attendance)
      ensures !Future(date, today) && AttendanceFound(old(attendance), internId, date) ==>
        status == 400 && attendance == old(attendance)
      ensures !Future(date, today) && !AttendanceFound(old(attendance), internId, date)
              && (!Filled(internId) || date.None?) ==>
        status == 500 && attendance == old(attendance)
      ensures !Future(date, today) && !AttendanceFound(old(attendance), internId, date)
              && Filled(internId) && date.Some? ==>
        status == 201 && attendance == old(attendance) + [Attendance(internId.value, date.value, hours, dayTask)]
    {
      if Future(date, today) {
        return 400;
      }
      if AttendanceFound(attendance, internId, date) {
        return 400;
      }
      if !Filled(internId) || date.None? {
        return 500;
      }
      var record := Attendance(internId.value, date.value, hours, dayTask);
      FoundExists(attendance, record.internId, record.date);
      AppendAttendanceUnique(attendance, record);
      attendance := attendance + [record];
      return 201;
    }

    /** `PUT /admin/working-hours`: any falsy field gives 400; a `hours`
        string that does not cast gives 500; otherwise the override for
        (month, year) is created or replaced. */
    method PutWorkingHours(month: Option<int>, year: Option<int>, hours: Option<NumberField>) returns (status: int)
      requires Valid()
      modifies this
      ensures Valid()
      ensures interns == old(interns) && attendance == old(attendance) && holidays == old(holidays)
      ensures PutHoursOutcome(month, year, hours).PutBadRequest? ==> status == 400 && overrides == old(overrides)
      ensures PutHoursOutcome(month, year, hours).PutCastError? ==> status == 500 && overrides == old(overrides)
      ensures PutHoursOutcome(month, year, hours).PutStored? ==>
        status == 200 && overrides == Upsert(old(overrides), month.value, year.value, PutHoursOutcome(month, year, hours).hours)
    {
      var outcome := PutHoursOutcome(month, year, hours);
      if outcome.PutBadRequest? {
        return 400;
      }
      if outcome.PutCastError? {
        return 500;
      }
      UpsertUnique(overrides, month.value, year.value, outcome.hours);
      overrides := Upsert(overrides, month.value, year.value, outcome.hours);
      return 200;
    }

    /** `POST /admin/holidays`. */
    method AddHoliday(name: string, date: Date, freshId: string) returns (status: int)
      requires Valid() && !HasHoliday(holidays, freshId)
      modifies this
      ensures Valid()
      ensures interns == old(interns) && attendance == old(attendance) && overrides == old(overrides)
      ensures status == 201 && holidays == old(holidays) + [Holiday(freshId, name, date)]
    {
      holidays := holidays + [Holiday(freshId, name, date)];
      return 201;
    }

    /** `PATCH /admin/holidays/:id`: the first other holiday on the new date
        is deleted, then the target is updated; an unknown target gives 404
        after the deletion. */
    method PatchHoliday(id: string, name: Option<string>, date: Option<Date>) returns (status: int)
      requires Valid()
      modifies this
      ensures Valid()
      ensures interns == old(interns) && attendance == old(attendance) && overrides == old(overrides)
      ensures var conflict := ConflictingHoliday(old(holidays), id, date);
        var kept := if conflict.Some? then RemoveHoliday(old(holidays), conflict.value.id) else old(holidays);
        if HasHoliday(old(holidays), id) then
          status == 200 && holidays == SetHoliday(kept, id, name, date)
        else
          status == 404 && holidays == kept
    {
      var conflict := ConflictingHoliday(holidays, id, date);
      if conflict.Some? {
        RemoveKeepsOthers(holidays, conflict.value.id, id);
        holidays := RemoveHoliday(holidays, conflict.value.id);
      }
      if !HasHoliday(holidays, id) {
        return 404;
      }
      SetHolidayDistinct(holidays, id, name, date);
      holidays := SetHoliday(holidays, id, name, date);
      return 200;
    }

    /** `DELETE /admin/holidays/:id`. */
    method DeleteHoliday(id: string) returns (status: int)
      requires Valid()
      modifies this
      ensures Valid()
      ensures interns == old(interns) && attendance == old(attendance) && overrides == old(overrides)
      ensures !HasHoliday(old(holidays), id) ==> status == 404 && holidays == old(holidays)
      ensures HasHoliday(old(holidays), id) ==> status == 200 && holidays == RemoveHoliday(old(holidays), id)
    {
      if !HasHoliday(holidays, id) {
        return 404;
      }
      RemoveKeepsOthers(holidays, id, id);
      holidays := RemoveHoliday(holidays, id);
      return 200;
    }

    /** `GET /admin/report`: one row per intern, in store order. */
    method Report() returns (report: seq<ReportRow>)
      ensures |report| == |interns|
      ensures forall k :: 0 <= k < |interns| ==> report[k] == ReportRowOf(interns[k], attendance)
    {
      report := [];
      var k := 0;
      while k < |interns|
        invariant 0 <= k <= |interns|
        invariant |report| == k
        invariant forall j :: 0 <= j < k ==> report[j] == ReportRowOf(interns[j], attendance)
      {
        var row := ReportRowOf(interns[k], attendance);
        report := report + [row];
        k := k + 1;
      }
    }
  }

  // ---------------------------------------------------------------------
  // Uniqueness survives removal

  lemma SubsequenceUniqueInterns(r: seq<Intern>, s: seq<Intern>)
    requires IsSubsequence(r, s) && UniqueInterns(s)
    ensures UniqueInterns(r)
  {
    SubsequencePairwise(r, s, (a: Intern, b: Intern) =>
      a.id != b.id && a.email != b.email && a.internId != b.internId);
  }

  lemma SubsequenceUniqueAttendance(r: seq<Attendance>, s: seq<Attendance>)
    requires IsSubsequence(r, s) && UniqueAttendance(s)
    ensures UniqueAttendance(r)
  {
    SubsequencePairwise(r, s, (a: Attendance, b: Attendance) => (a.internId, a.date) != (b.internId, b.date));
  }

  lemma SubsequenceDistinctIds(r: seq<Holiday>, s: seq<Holiday>)
    requires IsSubsequence(r, s) && DistinctHolidayIds(s)
    ensures DistinctHolidayIds(r)
  {
    SubsequencePairwise(r, s, (a: Holiday, b: Holiday) => a.id != b.id);
  }

  /** Removing holiday `gone` keeps the ids distinct and keeps every other
      holiday, in particular `id` when it differs from `gone`. */
  lemma RemoveKeepsOthers(holidays: seq<Holiday>, gone: string, id: string)
    requires DistinctHolidayIds(holidays)
    ensures DistinctHolidayIds(RemoveHoliday(holidays, gone))
    ensures id != gone ==> (HasHoliday(RemoveHoliday(holidays, gone), id) <==> HasHoliday(holidays, id))
  {
    var r := RemoveHoliday(holidays, gone);
    SubsequenceDistinctIds(r, holidays);
    if id != gone && HasHoliday(holidays, id) {
      var k :| 0 <= k < |holidays| && holidays[k].id == id;
      assert holidays[k] in r;
    }
  }

  /** Updating one holiday in place keeps the ids distinct. */
  lemma SetHolidayDistinct(holidays: seq<Holiday>, id: string, name: Option<string>, date: Option<Date>)
    requires DistinctHolidayIds(holidays)
    ensures DistinctHolidayIds(SetHoliday(holidays, id, name, date))
  {
  }

  /** A freshly registered intern has no status, so even the right
      password only yields "not approved" until an admin approves it. */
  lemma NewInternLogin(interns: seq<Intern>, freshId: string, input: InternInput, internId: string,
                       hashed: string, now: Date, password: string, matches: (string, string) -> bool)
    requires input.email.Some? && FindByEmail(interns, input.email).None?
    ensures var x := NewIntern(freshId, input, internId, hashed, now);
      Login(interns + [x], input.email, Some(password), matches)
        == if matches(password, hashed) then NotApproved else InvalidCredentials
  {
    var x := NewIntern(freshId, input, internId, hashed, now);
    var all := interns + [x];
    var r := FindByEmail(all, input.email);
    assert all[|interns|] == x;
    var k :| 0 <= k < |all| && all[k] == r.value;
  }

  /** A patch without a date deletes some other holiday whenever there is
      one: the conflict filter is then `{ _id: { $ne: id } }`. */
  lemma PatchWithoutDateDeletes(holidays: seq<Holiday>, id: string)
    requires DistinctHolidayIds(holidays) && |holidays| >= 2
    ensures ConflictingHoliday(holidays, id, None).Some?
    ensures |RemoveHoliday(holidays, ConflictingHoliday(holidays, id, None).value.id)| == |holidays| - 1
  {
    if holidays[0].id == id {
      assert holidays[1].id != id;
    }
    var c := ConflictingHoliday(holidays, id, None).value;
    var k :| 0 <= k < |holidays| && holidays[k] == c;
    RemoveOneId(holidays, c.id, k);
  }

  /** With distinct ids, removing the id held at position `k` drops exactly
      one holiday. */
  lemma {:induction false} RemoveOneId(holidays: seq<Holiday>, id: string, k: nat)
    requires DistinctHolidayIds(holidays) && k < |holidays| && holidays[k].id == id
    ensures |RemoveHoliday(holidays, id)| == |holidays| - 1
  {
    var p := (h: Holiday) => h.id != id;
    var n := |holidays| - 1;
    var init := holidays[..n];
    assert holidays == init + [holidays[n]];
    FilterAppend(init, [holidays[n]], p);
    if k == n {
      assert forall j :: 0 <= j < |init| ==> p(init[j]) by {
        forall j | 0 <= j < |init| ensures p(init[j]) {
          assert init[j] == holidays[j];
        }
      }
      FilterAll(init, p);
    } else {
      assert DistinctHolidayIds(init) by {
        forall a, b | 0 <= a < b < |init| ensures init[a].id != init[b].id {
          assert init[a] == holidays[a] && init[b] == holidays[b];
        }
      }
      assert init[k] == holidays[k];
      RemoveOneId(init, id, k);
    }
  }
}
