/** The profile page's form (`new-frontend/pages/intern/profile.js`):
    loading an intern into it, editing and adding rows, and the payload it
    submits. */
module ProfileForm {
  import opened Wrappers
  import opened Seqs
  import opened Strings
  import opened Calendar
  import opened Models
  import opened FormRows

  /** The text fields of the form, `internId` among them. */
  datatype Text = Text(firstName: string, lastName: string, email: string, phone: string, dob: string,
                       nationality: string, internId: string, designation: string, currentAddress: string)

  /** The same fields without `internId`: what the payload carries. */
  datatype Editable = Editable(firstName: string, lastName: string, email: string, phone: string, dob: string,
                               nationality: string, designation: string, currentAddress: string)

  const BlankText := Text("", "", "", "", "", "", "", "", "")

  /** `dob ? new Date(dob).toISOString().split("T")[0] : ""`. */
  function DobField(dob: Option<Date>): (s: string)
    ensures dob.None? ==> s == ""
    ensures dob.Some? ==> s == IsoDate(dob.value) && Some(s) == SplitPiece(IsoString(dob.value), "T", 0)
  {
    if dob.None? then ""
    else
      IsoStringDatePart(dob.value);
      SplitPiece(IsoString(dob.value), "T", 0).value
  }

  /** The text fields `loadProfile` puts in the form: each missing string
      becomes "" and the birth date its `YYYY-MM-DD` prefix. */
  function LoadedText(data: Intern): (t: Text)
    ensures t.firstName == data.firstName.GetOr("") && t.lastName == data.lastName.GetOr("")
    ensures t.email == data.email.GetOr("") && t.phone == data.phone.GetOr("")
    ensures t.dob == DobField(data.dob) && t.nationality == data.nationality.GetOr("")
    ensures t.internId == data.internId.GetOr("") && t.designation == data.designation.GetOr("")
    ensures t.currentAddress == data.currentAddress.GetOr("")
  {
    Text(data.firstName.GetOr(""), data.lastName.GetOr(""), data.email.GetOr(""), data.phone.GetOr(""),
         DobField(data.dob), data.nationality.GetOr(""), data.internId.GetOr(""),
         data.designation.GetOr(""), data.currentAddress.GetOr(""))
  }

  /** A required field of a valid record survives loading unchanged. */
  lemma LoadedValidIntern(data: Intern)
    requires ValidIntern(data)
    ensures Some(LoadedText(data).firstName) == data.firstName && Some(LoadedText(data).email) == data.email
    ensures Some(LoadedText(data).internId) == data.internId && Some(LoadedText(data).designation) == data.designation
    ensures Some(LoadedText(data).currentAddress) == data.currentAddress
    ensures LoadedText(data).dob == IsoDate(data.dob.value)
  {
  }

  /** A JSON object has a key exactly for each field that holds a value. */
  function Put(m: map<string, string>, k: string, v: Option<string>): (r: map<string, string>)
    ensures v.Some? ==> r == m[k := v.value]
    ensures v.None? ==> r == m
  {
    if v.Some? then m[k := v.value] else m
  }

  /** A stored education row as the page receives it. */
  function EducationFields(e: EducationRow): (m: map<string, string>)
    ensures forall k :: k in m ==> k in EducationKeys
    ensures e.degree.Some? <==> "degree" in m
    ensures e.degree.Some? ==> m["degree"] == e.degree.value
    ensures ValidEducation(e) ==> m.Keys == set k | k in EducationKeys
  {
    Put(Put(Put(Put(map[], "degree", e.degree), "duration", e.duration), "institute", e.institute), "grade", e.grade)
  }

  /** A stored experience row as the page receives it. */
  function ExperienceFields(e: ExperienceRow): (m: map<string, string>)
    ensures forall k :: k in m ==> k in ExperienceKeys
    ensures e.company.Some? <==> "company" in m
    ensures e.company.Some? ==> m["company"] == e.company.value
    ensures ValidExperience(e) ==> m.Keys == set k | k in ExperienceKeys
  {
    Put(Put(Put(map[], "company", e.company), "duration", e.duration), "role", e.role)
  }

  function EducationValues(s: seq<EducationRow>): (r: seq<map<string, string>>)
    ensures |r| == |s| && forall k :: 0 <= k < |s| ==> r[k] == EducationFields(s[k])
  {
    seq(|s|, k requires 0 <= k < |s| => EducationFields(s[k]))
  }

  function ExperienceValues(s: seq<ExperienceRow>): (r: seq<map<string, string>>)
    ensures |r| == |s| && forall k :: 0 <= k < |s| ==> r[k] == ExperienceFields(s[k])
  {
    seq(|s|, k requires 0 <= k < |s| => ExperienceFields(s[k]))
  }

  /** What `handleSubmit` sends: a copy of the form without `internId`. */
  datatype Payload = Payload(fields: Editable,
                             education: seq<map<string, string>>, experience: seq<map<string, string>>)

  /** `delete updatedData.internId` on a copy of the text fields. */
  function WithoutInternId(t: Text): (e: Editable)
    ensures e.firstName == t.firstName && e.lastName == t.lastName && e.email == t.email
    ensures e.phone == t.phone && e.dob == t.dob && e.nationality == t.nationality
    ensures e.designation == t.designation && e.currentAddress == t.currentAddress
  {
    Editable(t.firstName, t.lastName, t.email, t.phone, t.dob, t.nationality, t.designation, t.currentAddress)
  }

  /** Two forms that differ only in `internId` submit the same fields. */
  lemma InternIdNotSubmitted(t: Text, id: string)
    ensures WithoutInternId(t.(internId := id)) == WithoutInternId(t)
  {
  }

  class Form {
    var top: Text
    var education: seq<Row>
    var experience: seq<Row>

    function Rows(s: Section): seq<Row>
      reads this
    {
      if s.Education? then education else experience
    }

    predicate Valid()
      reads this
    {
      Separate(education, experience)
    }

    /** The form before loading: blank text fields and no rows. */
    constructor ()
      ensures Valid()
      ensures top == BlankText && education == [] && experience == []
    {
      top := BlankText;
      education := [];
      experience := [];
    }

    /** `loadProfile`: the form is replaced by the fetched intern, with
        fresh row objects holding its rows. */
    method LoadProfile(data: Intern)
      modifies this
      ensures Valid()
      ensures top == LoadedText(data)
      ensures Values(education) == EducationValues(data.education)
      ensures Values(experience) == ExperienceValues(data.experience)
      ensures forall k :: 0 <= k < |education| ==> fresh(education[k])
      ensures forall k :: 0 <= k < |experience| ==> fresh(experience[k])
    {
      top := LoadedText(data);
      LoadRows(EducationValues(data.education), ExperienceValues(data.experience));
    }

    /** The rows of a loaded intern, each in a new row object. */
    method LoadRows(ev: seq<map<string, string>>, xv: seq<map<string, string>>)
      modifies this
      ensures Valid()
      ensures top == old(top)
      ensures Values(education) == ev && Values(experience) == xv
      ensures forall k :: 0 <= k < |education| ==> fresh(education[k])
      ensures forall k :: 0 <= k < |experience| ==> fresh(experience[k])
    {
      var e, x := FreshSections(ev, xv);
      education, experience := e, x;
    }

    /** The payload `handleSubmit` sends. */
    function SubmitPayload(): (p: Payload)
      reads this, education, experience
      ensures p.fields == WithoutInternId(top)
      ensures p.education == Values(education) && p.experience == Values(experience)
    {
      Payload(WithoutInternId(top), Values(education), Values(experience))
    }

    /** `handleEducationChange` / `handleExperienceChange`: the named key of
        row `index` takes the value, in place; `ok` is false when there is
        no such row and the assignment throws. */
    method ChangeRow(s: Section, index: int, name: string, value: string) returns (ok: bool)
      requires Valid()
      modifies Rows(s)
      ensures ok <==> 0 <= index < |Rows(s)|
      ensures ok ==> Values(Rows(s)) == old(Values(Rows(s)))[index := old(Rows(s)[index].fields)[name := value]]
      ensures !ok ==> Values(Rows(s)) == old(Values(Rows(s)))
      ensures Values(Rows(s.Other())) == old(Values(Rows(s.Other())))
    {
      ok := SetField(Rows(s), index, name, value);
    }

    /** `addEducation`: one fresh blank degree/duration/institute/grade row. */
    method AddEducation()
      requires Valid()
      modifies this
      ensures Valid()
      ensures top == old(top) && experience == old(experience)
      ensures |education| == |old(education)| + 1 && education[..|old(education)|] == old(education)
      ensures fresh(education[|old(education)|])
      ensures Values(education) == old(Values(education)) + [Blank(EducationKeys)]
      ensures Values(experience) == old(Values(experience))
    {
      ghost var before := Values(education);
      var r := new Row(Blank(EducationKeys));
      assert Values(education) == before;
      SeparateAdd(education, experience, r);
      ValuesSnoc(education, r);
      education := education + [r];
    }

    /** `addExperience`: one fresh blank company/duration/role row. */
    method AddExperience()
      requires Valid()
      modifies this
      ensures Valid()
      ensures top == old(top) && education == old(education)
      ensures |experience| == |old(experience)| + 1 && experience[..|old(experience)|] == old(experience)
      ensures fresh(experience[|old(experience)|])
      ensures Values(experience) == old(Values(experience)) + [Blank(ExperienceKeys)]
      ensures Values(education) == old(Values(education))
    {
      ghost var before := Values(experience);
      var r := new Row(Blank(ExperienceKeys));
      assert Values(experience) == before;
      SeparateAdd(education, experience, r);
      ValuesSnoc(experience, r);
      experience := experience + [r];
    }
  }
}
