/** The database records (Mongoose schemas) and what it takes for a record to
    pass validation on `save()`. A missing JSON field is `None`. Mongoose's
    `required` rejects a missing value and, for strings, the empty string; an
    `enum` rejects any present value outside the list. */
module Models {
  import opened Wrappers
  import opened Seqs
  import opened Calendar

  /** The designations an intern record accepts. */
  const Designations: seq<string> :=
    ["Frontend", "Backend", "MERN", "MEAN", "Salesforce", "Cloud", "Design", "Sale", "Marketing"]

  /** A required string field: present and non-empty. */
  predicate Filled(s: Option<string>) {
    s.Some? && s.value != ""
  }

  datatype EducationRow = EducationRow(
    degree: Option<string>, duration: Option<string>, institute: Option<string>, grade: Option<string>)

  datatype ExperienceRow = ExperienceRow(
    company: Option<string>, duration: Option<string>, role: Option<string>)

  /** An intern document. `id` is the database `_id`; `internId` is the
      business identifier `OM...`. `status` is written and read by the routes
      although the schema does not declare it. */
  datatype Intern = Intern(
    id: string,
    firstName: Option<string>,
    lastName: Option<string>,
    email: Option<string>,
    phone: Option<string>,
    dob: Option<Date>,
    nationality: Option<string>,
    internId: Option<string>,
    designation: Option<string>,
    currentAddress: Option<string>,
    dateOfJoining: Date,
    profileUpdated: bool,
    password: Option<string>,
    role: string,
    status: Option<string>,
    education: seq<EducationRow>,
    experience: seq<ExperienceRow>)

  predicate ValidEducation(e: EducationRow) {
    Filled(e.degree) && Filled(e.duration) && Filled(e.institute) && Filled(e.grade)
  }

  predicate ValidExperience(e: ExperienceRow) {
    Filled(e.company) && Filled(e.duration) && Filled(e.role)
  }

  /** Document-level validation of an intern (uniqueness is a property of the
      collection, `UniqueInterns`). */
  predicate ValidIntern(i: Intern) {
    && Filled(i.firstName) && Filled(i.lastName) && Filled(i.email) && Filled(i.phone)
    && i.dob.Some? && Filled(i.nationality) && Filled(i.internId)
    && Filled(i.designation) && i.designation.value in Designations
    && Filled(i.currentAddress)
    && (forall k :: 0 <= k < |i.education| ==> ValidEducation(i.education[k]))
    && (forall k :: 0 <= k < |i.experience| ==> ValidExperience(i.experience[k]))
  }

  /** The unique indexes on `email` and `internId`, and distinct `_id`s. */
  predicate UniqueInterns(s: seq<Intern>) {
    forall a, b :: 0 <= a < b < |s| ==>
      s[a].id != s[b].id && s[a].email != s[b].email && s[a].internId != s[b].internId
  }

  /** The fields a registration request supplies. */
  datatype InternInput = InternInput(
    firstName: Option<string>,
    lastName: Option<string>,
    email: Option<string>,
    phone: Option<string>,
    dob: Option<Date>,
    nationality: Option<string>,
    designation: Option<string>,
    currentAddress: Option<string>,
    education: seq<EducationRow>,
    experience: seq<ExperienceRow>)

  /** `new Intern({...})` with the schema defaults: role "intern",
      `profileUpdated` false, `dateOfJoining` now, and no status. */
  function NewIntern(id: string, input: InternInput, internId: string, password: string, now: Date): (i: Intern)
    ensures i.role == "intern" && !i.profileUpdated && i.dateOfJoining == now && i.status.None?
    ensures i.id == id && i.internId == Some(internId) && i.password == Some(password)
    ensures i.email == input.email && i.designation == input.designation
  {
    Intern(id, input.firstName, input.lastName, input.email, input.phone, input.dob,
           input.nationality, Some(internId), input.designation, input.currentAddress,
           now, false, Some(password), "intern", None, input.education, input.experience)
  }

  /** A registration record passes validation exactly when every required
      input field is filled, the designation is one of the nine, every nested
      row is complete and the generated ID is non-empty. */
  lemma NewInternValid(id: string, input: InternInput, internId: string, password: string, now: Date)
    ensures ValidIntern(NewIntern(id, input, internId, password, now)) <==>
      && Filled(input.firstName) && Filled(input.lastName) && Filled(input.email)
      && Filled(input.phone) && input.dob.Some? && Filled(input.nationality)
      && internId != "" && Filled(input.designation) && input.designation.value in Designations
      && Filled(input.currentAddress)
      && (forall k :: 0 <= k < |input.education| ==> ValidEducation(input.education[k]))
      && (forall k :: 0 <= k < |input.experience| ==> ValidExperience(input.experience[k]))
  {
  }

  /** A daily task document. */
  datatype Task = Task(
    id: string,
    designation: Option<string>,
    internId: Option<string>,
    date: Option<Date>,
    title: Option<string>,
    description: Option<string>)

  /** Designation is optional but restricted to the nine values; internId,
      date, title and description are required. */
  predicate ValidTask(t: Task) {
    && (t.designation.Some? ==> t.designation.value in Designations)
    && Filled(t.internId) && t.date.Some? && Filled(t.title) && Filled(t.description)
  }

  /** The document `POST /admin/tasks` builds: it never sets `internId`. */
  function TaskFromRequest(id: string, designation: Option<string>, date: Option<Date>,
                           title: Option<string>, description: Option<string>): (t: Task)
    ensures t.internId.None?
  {
    Task(id, designation, None, date, title, description)
  }

  /** So no task created through that route passes validation. */
  lemma TaskFromRequestInvalid(id: string, designation: Option<string>, date: Option<Date>,
                               title: Option<string>, description: Option<string>)
    ensures !ValidTask(TaskFromRequest(id, designation, date, title, description))
  {
  }

  /** A task without a designation can still be valid. */
  lemma TaskDesignationOptional(id: string, d: Date)
    ensures ValidTask(Task(id, None, Some("OM12024001"), Some(d), Some("t"), Some("d")))
    ensures !ValidTask(Task(id, Some("QA"), Some("OM12024001"), Some(d), Some("t"), Some("d")))
  {
  }

  /** An attendance document; `internId` holds either kind of intern
      identifier. */
  datatype Attendance = Attendance(internId: string, date: Date, hours: Option<int>, dayTask: Option<string>)

  /** At most one record per (internId, date). */
  predicate UniqueAttendance(s: seq<Attendance>) {
    forall a, b :: 0 <= a < b < |s| ==> (s[a].internId, s[a].date) != (s[b].internId, s[b].date)
  }

  /** A holiday document. */
  datatype Holiday = Holiday(id: string, name: string, date: Date)

  /** A monthly working-hours override. */
  datatype MonthlyHours = MonthlyHours(month: int, year: int, hours: int)

  /** A task-status document. */
  datatype TaskStatus = TaskStatus(internId: string, taskId: string, status: string, date: Date)
}
