/** The people directory (`new-frontend/pages/intern/people.js`): interns are
    found by a case-insensitive search over "first last internId". */
module People {
  import opened Wrappers
  import opened Seqs
  import opened Strings
  import opened Calendar
  import opened Models

  /** `${firstName} ${lastName} ${internId}`. */
  function Label(i: Intern): string {
    i.firstName.GetOr("undefined") + " " + i.lastName.GetOr("undefined") + " " + i.internId.GetOr("undefined")
  }

  predicate Matches(i: Intern, search: string) {
    ContainsIgnoreCase(Label(i), search)
  }

  /** `filteredInterns`: the interns whose label contains the search, in
      their original order. */
  function FilteredInterns(interns: seq<Intern>, search: string): (r: seq<Intern>)
    ensures forall i :: i in r <==> i in interns && Matches(i, search)
    ensures IsSubsequence(r, interns)
  {
    FilterSpec(interns, i => Matches(i, search));
    Filter(interns, i => Matches(i, search))
  }

  lemma FilteredEmpty(interns: seq<Intern>)
    ensures FilteredInterns(interns, "") == interns
  {
    forall k | 0 <= k < |interns| ensures Matches(interns[k], "") {
      ContainsIgnoreCaseEmpty(Label(interns[k]));
    }
    FilterAll(interns, i => Matches(i, ""));
  }

  /** What a part of a text contains, the text contains. */
  lemma ContainsIgnoreCaseWithin(a: string, m: string, b: string, term: string)
    requires ContainsIgnoreCase(m, term)
    ensures ContainsIgnoreCase(a + m + b, term)
  {
    LowerAppend(a, m);
    LowerAppend(a + m, b);
    ContainsExtend(Lower(m), Lower(a), Lower(term));
    ContainsExtend(Lower(a) + Lower(m), Lower(b), Lower(term));
  }

  lemma ContainsIgnoreCaseSelf(s: string)
    ensures ContainsIgnoreCase(s, s)
  {
    assert OccursAt(Lower(s), Lower(s), 0);
  }

  /** Each field on its own is found in the label, whatever its case. */
  lemma PartsFound(f: string, l: string, d: string)
    ensures ContainsIgnoreCase(f + " " + l + " " + d, f)
    ensures ContainsIgnoreCase(f + " " + l + " " + d, l)
    ensures ContainsIgnoreCase(f + " " + l + " " + d, d)
  {
    ContainsIgnoreCaseSelf(f);
    ExtendRight(f, " ", f);
    ExtendRight(f + " ", l, f);
    ExtendRight(f + " " + l, " ", f);
    ExtendRight(f + " " + l + " ", d, f);
    ContainsIgnoreCaseSelf(l);
    ExtendLeft(f + " ", l, l);
    ExtendRight(f + " " + l, " ", l);
    ExtendRight(f + " " + l + " ", d, l);
    ContainsIgnoreCaseSelf(d);
    ExtendLeft(f + " " + l + " ", d, d);
  }

  lemma ExtendRight(x: string, y: string, t: string)
    requires ContainsIgnoreCase(x, t)
    ensures ContainsIgnoreCase(x + y, t)
  {
    LowerAppend(x, y);
    ContainsExtend(Lower(x), Lower(y), Lower(t));
  }

  lemma ExtendLeft(y: string, x: string, t: string)
    requires ContainsIgnoreCase(x, t)
    ensures ContainsIgnoreCase(y + x, t)
  {
    LowerAppend(y, x);
    ContainsExtend(Lower(x), Lower(y), Lower(t));
  }

  lemma FieldFound(i: Intern)
    ensures i.firstName.Some? ==> Matches(i, i.firstName.value)
    ensures i.lastName.Some? ==> Matches(i, i.lastName.value)
    ensures i.internId.Some? ==> Matches(i, i.internId.value)
  {
    PartsFound(i.firstName.GetOr("undefined"), i.lastName.GetOr("undefined"), i.internId.GetOr("undefined"));
  }

  /** A match may run across the field boundary: "doe om" is in neither
      field of Jane Doe, OM12024001, but is in her label. */
  lemma MatchSpansFields(i: Intern)
    requires i.firstName == Some("Jane") && i.lastName == Some("Doe") && i.internId == Some("OM12024001")
    ensures Matches(i, "doe om")
    ensures !ContainsIgnoreCase("Doe", "doe om") && !ContainsIgnoreCase("OM12024001", "doe om")
  {
    JaneLabel(i);
    LowerDoeOm();
    ContainsIgnoreCaseWithin("Jane ", "Doe OM", "12024001", "doe om");
    LowerId();
    LacksFirst("om12024001", "doe om");
  }

  lemma JaneLabel(i: Intern)
    requires i.firstName == Some("Jane") && i.lastName == Some("Doe") && i.internId == Some("OM12024001")
    ensures Label(i) == "Jane " + "Doe OM" + "12024001"
  {
    assert i.firstName.GetOr("undefined") == "Jane";
    assert i.lastName.GetOr("undefined") == "Doe";
    assert i.internId.GetOr("undefined") == "OM12024001";
  }

  lemma LowerDoeOm()
    ensures Lower("doe om") == "doe om"
    ensures ContainsIgnoreCase("Doe OM", "doe om")
  {
    assert Lower("Doe OM") == "doe om";
    assert OccursAt(Lower("Doe OM"), Lower("doe om"), 0);
  }

  lemma LowerId()
    ensures Lower("OM12024001") == "om12024001"
    ensures 'd' !in "om12024001"
  {
  }

  /** A text without the first character of a term does not contain it. */
  lemma LacksFirst(s: string, t: string)
    requires t != [] && t[0] !in s
    ensures !Contains(s, t)
  {
    forall k | 0 <= k <= |s| ensures !OccursAt(s, t, k) {
      if k + |t| <= |s| {
        assert s[k] in s;
        assert s[k..k + |t|][0] != t[0];
      }
    }
  }
}
