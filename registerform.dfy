/** The registration form (`new-frontend/pages/intern/register.js`): eight
    text fields and the education and experience lists. */
module RegisterForm {
  import opened Seqs
  import opened Strings
  import opened FormRows

  /** The text fields of the initial form. */
  const TopFields: seq<string> :=
    ["firstName", "lastName", "email", "phone", "dob", "nationality", "designation", "currentAddress"]

  /** The single row shape `addField` appends to either list. */
  const AddedKeys: seq<string> := ["degree", "duration", "institute", "grade", "company", "role"]

  /** The placeholders of the two sections' inputs; an input edits the key
      `label.toLowerCase()`. */
  const EducationLabels: seq<string> := ["Degree", "Duration", "Institute", "Grade"]
  const ExperienceLabels: seq<string> := ["Company", "Duration", "Role"]

  lemma LowerIs(s: string, t: string)
    requires |s| == |t| && forall i :: 0 <= i < |s| ==> LowerChar(s[i]) == t[i]
    ensures Lower(s) == t
  {
  }

  /** The inputs edit exactly the keys of the initial rows, and every one of
      them is a key of the rows `addField` appends. */
  lemma NestedKeysAreLabels()
    ensures |EducationLabels| == |EducationKeys| && |ExperienceLabels| == |ExperienceKeys|
    ensures forall k :: 0 <= k < |EducationLabels| ==> Lower(EducationLabels[k]) == EducationKeys[k]
    ensures forall k :: 0 <= k < |ExperienceLabels| ==> Lower(ExperienceLabels[k]) == ExperienceKeys[k]
    ensures forall k :: k in EducationKeys ==> k in AddedKeys
    ensures forall k :: k in ExperienceKeys ==> k in AddedKeys
  {
    LowerIs("Degree", "degree");
    LowerIs("Duration", "duration");
    LowerIs("Institute", "institute");
    LowerIs("Grade", "grade");
    LowerIs("Company", "company");
    LowerIs("Role", "role");
  }

  class Form {
    var top: map<string, string>
    var education: seq<Row>
    var experience: seq<Row>

    function Rows(s: Section): seq<Row>
      reads this
    {
      if s.Education? then education else experience
    }

    predicate Valid()
      reads this
    {
      Separate(education, experience)
    }

    /** The initial form: blank text fields, one blank education row and one
        blank experience row. */
    constructor ()
      ensures Valid()
      ensures top == Blank(TopFields)
      ensures Values(education) == [Blank(EducationKeys)]
      ensures Values(experience) == [Blank(ExperienceKeys)]
    {
      top := Blank(TopFields);
      var e := new Row(Blank(EducationKeys));
      var x := new Row(Blank(ExperienceKeys));
      education := [e];
      experience := [x];
    }

    /** `handleChange`: one text field takes the typed value. */
    method HandleChange(name: string, value: string)
      modifies this
      ensures top == old(top)[name := value]
      ensures education == old(education) && experience == old(experience)
      ensures Values(education) == old(Values(education)) && Values(experience) == old(Values(experience))
    {
      top := top[name := value];
    }

    /** `handleNestedChange(index, type, field, value)`: only `field` of row
        `index` of the chosen list changes; `ok` is false when there is no
        such row and the update throws. */
    method HandleNestedChange(index: int, s: Section, field: string, value: string) returns (ok: bool)
      requires Valid()
      modifies Rows(s)
      ensures ok <==> 0 <= index < |Rows(s)|
      ensures ok ==> Values(Rows(s)) == old(Values(Rows(s)))[index := old(Rows(s)[index].fields)[field := value]]
      ensures !ok ==> Values(Rows(s)) == old(Values(Rows(s)))
      ensures Values(Rows(s.Other())) == old(Values(Rows(s.Other())))
    {
      ok := SetField(Rows(s), index, field, value);
    }

    /** `addField(type)`: one fresh row with the six blank keys is appended
        to the chosen list. */
    method AddField(s: Section)
      requires Valid()
      modifies this
      ensures Valid()
      ensures top == old(top) && Rows(s.Other()) == old(Rows(s.Other()))
      ensures |Rows(s)| == |old(Rows(s))| + 1 && Rows(s)[..|old(Rows(s))|] == old(Rows(s))
      ensures fresh(Rows(s)[|old(Rows(s))|])
      ensures Values(Rows(s)) == old(Values(Rows(s))) + [Blank(AddedKeys)]
      ensures Values(Rows(s.Other())) == old(Values(Rows(s.Other())))
    {
      if s.Education? {
        AddEducationRow();
      } else {
        AddExperienceRow();
      }
    }

    /** `addField("education")`. */
    method AddEducationRow()
      requires Valid()
      modifies this
      ensures Valid()
      ensures top == old(top) && experience == old(experience)
      ensures |education| == |old(education)| + 1 && education[..|old(education)|] == old(education)
      ensures fresh(education[|old(education)|])
      ensures Values(education) == old(Values(education)) + [Blank(AddedKeys)]
      ensures Values(experience) == old(Values(experience))
    {
      ghost var vx := Values(experience);
      var grown := AppendRow(education, experience, Blank(AddedKeys));
      assert Values(experience) == vx;
      education := grown;
    }

    /** `addField("experience")`. */
    method AddExperienceRow()
      requires Valid()
      modifies this
      ensures Valid()
      ensures top == old(top) && education == old(education)
      ensures |experience| == |old(experience)| + 1 && experience[..|old(experience)|] == old(experience)
      ensures fresh(experience[|old(experience)|])
      ensures Values(experience) == old(Values(experience)) + [Blank(AddedKeys)]
      ensures Values(education) == old(Values(education))
    {
      ghost var ve := Values(education);
      SeparateSymmetric(education, experience);
      var grown := AppendRow(experience, education, Blank(AddedKeys));
      assert Values(education) == ve;
      SeparateSymmetric(grown, education);
      experience := grown;
    }

    /** `removeField(type, index)`: the row at `index` leaves the chosen
        list, the others keep their order; an index past the end removes
        nothing. */
    method RemoveField(s: Section, index: int)
      requires Valid()
      modifies this
      ensures Valid()
      ensures top == old(top) && Rows(s.Other()) == old(Rows(s.Other()))
      ensures Rows(s) == DropIndex(old(Rows(s)), index)
      ensures Values(Rows(s)) == DropIndex(old(Values(Rows(s))), index)
    {
      if s.Education? {
        RemoveEducationRow(index);
      } else {
        RemoveExperienceRow(index);
      }
    }

    /** `removeField("education", index)`. */
    method RemoveEducationRow(index: int)
      requires Valid()
      modifies this
      ensures Values(education) == DropIndex(old(Values(education)), index)
      ensures Valid()
      ensures top == old(top)
      ensures experience == old(experience)
      ensures education == DropIndex(old(education), index)
    {
      var kept := DropIndex(education, index);
      SeparateDrop(education, experience, index);
      ValuesDropIndex(education, index);
      ghost var vs := Values(kept);
      assert vs == DropIndex(Values(education), index);
      education := kept;
      assert Values(education) == vs;
    }

    /** `removeField("experience", index)`. */
    method RemoveExperienceRow(index: int)
      requires Valid()
      modifies this
      ensures Values(experience) == DropIndex(old(Values(experience)), index)
      ensures Valid()
      ensures top == old(top)
      ensures education == old(education)
      ensures experience == DropIndex(old(experience), index)
    {
      var kept := DropIndex(experience, index);
      SeparateDrop(education, experience, index);
      ValuesDropIndex(experience, index);
      ghost var vs := Values(kept);
      assert vs == DropIndex(Values(experience), index);
      experience := kept;
      assert Values(experience) == vs;
    }
  }
}
