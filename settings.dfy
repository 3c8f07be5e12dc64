/** The admin settings page (`new-frontend/pages/admin/settings.js`): the
    password change and the creation of another admin. */
module Settings {
  import opened Wrappers
  import opened Models

  datatype PasswordForm = PasswordForm(currentPassword: string, newPassword: string, confirmPassword: string)

  /** The body of the password update. */
  datatype PasswordRequest = PasswordRequest(currentPassword: string, newPassword: string, adminId: Option<string>)

  /** `handlePasswordUpdate`: a new password that differs from its
      confirmation sends nothing; otherwise the request carries the current
      and new password, and a successful update clears all three fields. */
  function PasswordUpdate(f: PasswordForm, adminId: Option<string>, succeeded: bool): (r: (Option<PasswordRequest>, PasswordForm))
    ensures r.0.None? <==> f.newPassword != f.confirmPassword
    ensures r.0.Some? ==> r.0.value == PasswordRequest(f.currentPassword, f.newPassword, adminId)
    ensures r.0.Some? && succeeded ==> r.1 == PasswordForm("", "", "")
    ensures r.0.None? || !succeeded ==> r.1 == f
  {
    if f.newPassword != f.confirmPassword then (None, f)
    else (Some(PasswordRequest(f.currentPassword, f.newPassword, adminId)),
          if succeeded then PasswordForm("", "", "") else f)
  }

  /** The guard compares the two fields only: the blank form, or one whose
      new password is empty, is sent. */
  lemma EmptyPasswordSent(current: string, adminId: Option<string>)
    ensures PasswordUpdate(PasswordForm(current, "", ""), adminId, true).0 == Some(PasswordRequest(current, "", adminId))
  {
  }

  datatype AdminForm = AdminForm(firstName: string, lastName: string, designation: string, email: string,
                                 phone: string, password: string, confirmPassword: string)

  const BlankAdmin := AdminForm("", "", "", "", "", "", "")

  datatype CreateOutcome = PasswordsDiffer | EmailOfIntern | Sent(request: AdminForm)

  /** Some intern already has this email. */
  predicate InternEmail(interns: seq<Intern>, email: string) {
    exists k :: 0 <= k < |interns| && interns[k].email == Some(email)
  }

  /** `handleCreateAdmin`: refused when the passwords differ, then when an
      intern has the email; otherwise the whole form is sent, and a
      successful creation resets every field. */
  function CreateAdmin(f: AdminForm, interns: seq<Intern>, succeeded: bool): (r: (CreateOutcome, AdminForm))
    ensures f.password != f.confirmPassword ==> r.0 == PasswordsDiffer
    ensures f.password == f.confirmPassword && InternEmail(interns, f.email) ==> r.0 == EmailOfIntern
    ensures r.0.Sent? <==> f.password == f.confirmPassword && !InternEmail(interns, f.email)
    ensures r.0.Sent? ==> r.0.request == f
    ensures r.0.Sent? && succeeded ==> r.1 == BlankAdmin
    ensures !r.0.Sent? || !succeeded ==> r.1 == f
  {
    if f.password != f.confirmPassword then (PasswordsDiffer, f)
    else if InternEmail(interns, f.email) then (EmailOfIntern, f)
    else (Sent(f), if succeeded then BlankAdmin else f)
  }

  /** A created admin never shares an email with a listed intern. */
  lemma CreatedAdminEmailFree(f: AdminForm, interns: seq<Intern>, succeeded: bool)
    requires CreateAdmin(f, interns, succeeded).0.Sent?
    ensures forall k :: 0 <= k < |interns| ==> interns[k].email != Some(f.email)
  {
  }

  /** The two passwords of the reset form agree, so the reset form itself
      is sent unless an intern has the empty email. */
  lemma BlankAdminSent(interns: seq<Intern>, succeeded: bool)
    requires forall k :: 0 <= k < |interns| ==> interns[k].email != Some("")
    ensures CreateAdmin(BlankAdmin, interns, succeeded).0 == Sent(BlankAdmin)
  {
  }
}
