/** The admin interns page (`new-frontend/pages/admin/interns.js`): the
    search box over every string-valued field of an intern document, and
    the add/edit modal's form state. */
module InternsPage {
  import opened Wrappers
  import opened Seqs
  import opened Strings
  import opened Calendar
  import opened Models

  /** The optional string fields of an intern document. */
  function OptionalStrings(i: Intern): seq<Option<string>> {
    [i.firstName, i.lastName, i.email, i.phone, i.nationality, i.internId,
     i.designation, i.currentAddress, i.password, i.status]
  }

  /** The present strings among `os`. */
  function Present(os: seq<Option<string>>): (r: seq<string>)
    ensures forall v :: v in r <==> Some(v) in os
  {
    if os == [] then []
    else Present(os[..|os| - 1]) + (if os[|os| - 1].Some? then [os[|os| - 1].value] else [])
  }

  /** The string values of an intern as the JSON response carries them
      (their order does not matter to `some`): the `_id`, the role, the
      dates as ISO strings and every present optional string;
      `profileUpdated` and the education and experience arrays are not
      strings. */
  function StringValues(i: Intern): (vs: seq<string>)
    ensures forall v :: v in vs <==>
      || v == i.id || v == i.role || v == IsoString(i.dateOfJoining)
      || (i.dob.Some? && v == IsoString(i.dob.value))
      || Some(v) in OptionalStrings(i)
  {
    var fixed := [i.id, i.role, IsoString(i.dateOfJoining)];
    var born := if i.dob.Some? then [IsoString(i.dob.value)] else [];
    var rest := Present(OptionalStrings(i));
    assert forall v :: v in fixed + born + rest <==> v in fixed || v in born || v in rest;
    fixed + born + rest
  }

  /** `Object.values(emp).some(v => typeof v === "string" && ...)`. */
  predicate Matches(i: Intern, term: string) {
    exists v :: v in StringValues(i) && ContainsIgnoreCase(v, term)
  }

  /** The filtered list: the interns that match, in their original order. */
  function Search(interns: seq<Intern>, term: string): (r: seq<Intern>)
    ensures forall i :: i in r <==> i in interns && Matches(i, term)
    ensures IsSubsequence(r, interns)
  {
    FilterSpec(interns, i => Matches(i, term));
    Filter(interns, i => Matches(i, term))
  }

  /** Every intern has a string `_id`, so the empty term keeps them all. */
  lemma SearchEmpty(interns: seq<Intern>)
    ensures Search(interns, "") == interns
  {
    forall k | 0 <= k < |interns| ensures Matches(interns[k], "") {
      ContainsIgnoreCaseEmpty(interns[k].id);
    }
    FilterAll(interns, i => Matches(i, ""));
  }

  /** A term found in the hashed password matches as well: the search looks
      at every string the document carries. */
  lemma SearchSeesPassword(i: Intern, term: string)
    requires i.password.Some? && ContainsIgnoreCase(i.password.value, term)
    ensures Search([i], term) == [i]
  {
    assert Some(i.password.value) in OptionalStrings(i);
    assert i.password.value in StringValues(i);
  }

  /** The eight blank fields of `initialFormData`. */
  const InitialFields: seq<string> :=
    ["firstName", "lastName", "email", "phone", "dob", "passportNumber", "designation", "currentAddress"]

  function InitialFormData(): (m: map<string, string>)
    ensures m.Keys == set f | f in InitialFields
    ensures forall f :: f in m ==> m[f] == ""
  {
    map f | f in InitialFields :: ""
  }

  /** The modal's form: the blank fields or an intern document. */
  datatype FormData = Blank(fields: map<string, string>) | Employee(intern: Intern)

  datatype ModalState = ModalState(showModal: bool, currentEmployee: Option<Intern>, formData: FormData)

  /** `handleOpenModal(employee = null)`: show the modal, remember the
      employee and load it into the form, or the blank form without one. */
  function OpenModal(st: ModalState, employee: Option<Intern>): (r: ModalState)
    ensures r.showModal && r.currentEmployee == employee
    ensures employee.None? ==> r.formData == Blank(InitialFormData())
    ensures employee.Some? ==> r.formData == Employee(employee.value)
  {
    ModalState(true, employee, if employee.Some? then Employee(employee.value) else Blank(InitialFormData()))
  }

  /** `handleCloseModal`: hide the modal, forget the employee, blank the form. */
  function CloseModal(st: ModalState): (r: ModalState)
    ensures !r.showModal && r.currentEmployee.None? && r.formData == Blank(InitialFormData())
  {
    ModalState(false, None, Blank(InitialFormData()))
  }

  /** Closing forgets everything that opening loaded, and opening without an
      employee shows the same blank form that closing leaves behind. */
  lemma CloseAfterOpen(st: ModalState, employee: Option<Intern>)
    ensures CloseModal(OpenModal(st, employee)) == CloseModal(st)
    ensures OpenModal(CloseModal(st), None).formData == CloseModal(st).formData
  {
  }
}
