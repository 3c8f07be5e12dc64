/** The business identifier given to a new intern (`adminRoutes.js` and
    `internRoutes.js` duplicate the same code): `OM`, the month without
    padding, the year, and a sequence number left-padded to three digits. The
    sequence continues from the last three characters of the greatest
    existing `internId` in string order. */
module InternIds {
  import opened Wrappers
  import opened Seqs
  import opened Strings
  import opened Models

  /** The greatest string of `s` in code-point order, the order of the
      database's sort on UTF-8 strings. */
  function MaxString(s: seq<string>): (m: Option<string>)
    ensures m.None? <==> s == []
    ensures m.Some? ==> m.value in s
    ensures m.Some? ==> forall i :: 0 <= i < |s| ==> s[i] == m.value || LexLess(s[i], m.value)
  {
    if s == [] then None
    else
      var last := s[|s| - 1];
      match MaxString(s[..|s| - 1])
      case None => Some(last)
      case Some(m) =>
        if LexLess(m, last) then
          assert forall i :: 0 <= i < |s| - 1 ==> s[i] == m || LexLess(s[i], m);
          forall i | 0 <= i < |s| - 1 && s[i] != m ensures LexLess(s[i], last) {
            LexLessTransitive(s[i], m, last);
          }
          Some(last)
        else
          LexLessTotal(m, last);
          Some(m)
  }

  /** The `internId`s that are present, in store order. */
  function PresentIds(interns: seq<Intern>): (ids: seq<string>)
    ensures forall x :: x in ids <==> exists i :: 0 <= i < |interns| && interns[i].internId == Some(x)
  {
    if interns == [] then []
    else
      var last := interns[|interns| - 1];
      PresentIds(interns[..|interns| - 1]) + (if last.internId.Some? then [last.internId.value] else [])
  }

  /** `Intern.findOne().sort({ internId: -1 })?.internId`: documents without
      an `internId` sort below every string. */
  function LastInternId(interns: seq<Intern>): (r: Option<string>)
    ensures r.Some? ==> exists i :: 0 <= i < |interns| && interns[i].internId == r
    ensures r.Some? ==> forall i :: 0 <= i < |interns| && interns[i].internId.Some? ==>
      interns[i].internId == r || LexLess(interns[i].internId.value, r.value)
    ensures r.None? <==> forall i :: 0 <= i < |interns| ==> interns[i].internId.None?
  {
    var ids := PresentIds(interns);
    var m := MaxString(ids);
    if m.None? then
      m
    else
      forall i | 0 <= i < |interns| && interns[i].internId.Some?
        ensures interns[i].internId == m || LexLess(interns[i].internId.value, m.value)
      {
        var x := interns[i].internId.value;
        assert x in ids;
        var j :| 0 <= j < |ids| && ids[j] == x;
      }
      m
  }

  /** `nextSequence`: 1 without a (truthy) last ID, else
      `parseInt(lastId.slice(-3), 10) + 1`, where `None` stands for `NaN`. */
  function NextSequence(lastId: Option<string>): (n: Option<int>)
    ensures lastId.None? || lastId == Some("") ==> n == Some(1)
  {
    match lastId
    case None => Some(1)
    case Some(id) =>
      if id == "" then Some(1)
      else
        match ParseInt(SliceLast(id, 3))
        case None => None
        case Some(v) => Some(v + 1)
  }

  /** `String(nextSequence).padStart(3, '0')`; `String(NaN)` is "NaN". */
  function SequenceText(n: Option<int>): (s: string)
    ensures |s| >= 3
  {
    match n
    case None => "NaN"
    case Some(v) => PadStart(IntToString(v), 3, '0')
  }

  /** `OM${currentMonth}${currentYear}${sequence}`. */
  function MakeInternId(month: int, year: int, n: Option<int>): (id: string)
    ensures |id| >= 6 && id[..2] == "OM"
  {
    "OM" + IntToString(month) + IntToString(year) + SequenceText(n)
  }

  /** The ID a registration generates against the current collection:
      "OM", the unpadded month and the year, then at least three characters
      of sequence. */
  function GenerateInternId(interns: seq<Intern>, month: int, year: int): (id: string)
    ensures var prefix := "OM" + IntToString(month) + IntToString(year);
      |id| >= |prefix| + 3 && id[..|prefix|] == prefix
  {
    var prefix := "OM" + IntToString(month) + IntToString(year);
    var id := MakeInternId(month, year, NextSequence(LastInternId(interns)));
    assert id == prefix + SequenceText(NextSequence(LastInternId(interns)));
    id
  }

  /** The three-digit rendering of a sequence below 1000. */
  function Pad3(n: nat): (s: string)
    requires n < 1000
    ensures |s| == 3 && AllDigits(s) && DigitsValue(s) == n
  {
    NatToStringLength(n, 3);
    Calendar.PaddedValue(n, 3);
    PadStart(NatToString(n), 3, '0')
  }

  /** With no intern holding an ID the sequence starts at 001. */
  lemma FirstInternId(interns: seq<Intern>, month: int, year: int)
    requires forall i :: 0 <= i < |interns| ==> interns[i].internId.None?
    ensures GenerateInternId(interns, month, year) == "OM" + IntToString(month) + IntToString(year) + "001"
  {
    assert NatToString(1) == "1";
  }

  /** Three trailing digits with value `v` continue the sequence at `v + 1`. */
  lemma NextAfterDigits(prefix: string, last3: string)
    requires |last3| == 3 && AllDigits(last3)
    ensures NextSequence(Some(prefix + last3)) == Some(DigitsValue(last3) + 1)
  {
    SliceLastAppend(prefix, last3);
    ParseIntDigits(last3);
    NextOfParsed(prefix + last3, DigitsValue(last3));
  }

  lemma SliceLastAppend(prefix: string, last3: string)
    requires |last3| == 3
    ensures SliceLast(prefix + last3, 3) == last3
  {
    assert (prefix + last3)[|prefix|..] == last3;
  }

  /** A non-empty last ID whose final three characters parse to `v`. */
  lemma NextOfParsed(id: string, v: int)
    requires id != "" && ParseInt(SliceLast(id, 3)) == Some(v)
    ensures NextSequence(Some(id)) == Some(v + 1)
  {
  }

  /** After three trailing digits worth `n` below 999 comes `n + 1`, padded
      to three digits. */
  lemma SequenceSuccessor(prefix: string, last3: string)
    requires |last3| == 3 && AllDigits(last3) && DigitsValue(last3) < 999
    ensures SequenceText(NextSequence(Some(prefix + last3))) == Pad3(DigitsValue(last3) + 1)
  {
    NextAfterDigits(prefix, last3);
    SequenceTextPad3(DigitsValue(last3) + 1);
  }

  lemma SequenceTextPad3(v: nat)
    requires v < 1000
    ensures SequenceText(Some(v)) == Pad3(v)
  {
    assert IntToString(v) == NatToString(v);
  }

  lemma Value999()
    ensures AllDigits("999") && DigitsValue("999") == 999
  {
    assert "999"[..2] == "99" && "99"[..1] == "9" && "9"[..0] == "";
  }

  lemma Value000()
    ensures AllDigits("000") && DigitsValue("000") == 0
  {
    assert "000"[..2] == "00" && "00"[..1] == "0" && "0"[..0] == "";
  }

  lemma Text1000()
    ensures IntToString(1000) == "1000"
  {
    assert NatToString(10) == "10";
    assert NatToString(100) == "100";
    assert NatToString(1000) == "1000";
  }

  lemma Text1()
    ensures SequenceText(Some(1)) == "001"
  {
    assert NatToString(1) == "1";
  }

  /** After `...999` comes `...1000`. */
  lemma SequenceAfter999(prefix: string)
    ensures SequenceText(NextSequence(Some(prefix + "999"))) == "1000"
  {
    Value999();
    NextAfterDigits(prefix, "999");
    assert NextSequence(Some(prefix + "999")) == Some(1000);
    Text1000();
  }

  /** After `...1000` comes `...001`: `slice(-3)` of "1000" is "000". */
  lemma SequenceAfter1000(prefix: string)
    ensures SequenceText(NextSequence(Some(prefix + "1000"))) == "001"
  {
    assert prefix + "1000" == (prefix + "1") + "000";
    Value000();
    NextAfterDigits(prefix + "1", "000");
    assert NextSequence(Some(prefix + "1000")) == Some(1);
    Text1();
  }

  /** A last ID whose three final characters are not digits gives `NaN`, and
      the ID ends in "NaN". */
  lemma SequenceNotANumber(prefix: string)
    ensures NextSequence(Some(prefix + "abc")) == None
    ensures SequenceText(NextSequence(Some(prefix + "abc"))) == "NaN"
  {
    assert SliceLast(prefix + "abc", 3) == "abc";
  }

  /** An ID below the current greatest one leaves the greatest one in place. */
  lemma LastInternIdKeeps(interns: seq<Intern>, x: Intern)
    requires LastInternId(interns).Some? && x.internId.Some?
    requires LexLess(x.internId.value, LastInternId(interns).value)
    ensures LastInternId(interns + [x]) == LastInternId(interns)
  {
    var m := LastInternId(interns).value;
    var all := interns + [x];
    var r := LastInternId(all);
    var i :| 0 <= i < |interns| && interns[i].internId == Some(m);
    assert all[i] == interns[i];
    assert all[|interns|] == x;
    var j :| 0 <= j < |all| && all[j].internId == r;
    if r != Some(m) {
      assert LexLess(m, r.value);
      if j < |interns| {
        assert all[j] == interns[j];
        LexLessAsymmetric(m, r.value);
      } else {
        LexLessTransitive(m, r.value, m);
        LexLessIrreflexive(m);
      }
    }
  }

  /** The prefix a registration in `month`/`year` gives its IDs. */
  function IdPrefix(month: int, year: int): string {
    "OM" + IntToString(month) + IntToString(year)
  }

  /** Once the greatest ID of a month reads `...999`, every registration that
      month generates `...1000`; that ID sorts below `...999`, so storing it
      does not move the greatest ID and the next registration generates the
      same `...1000` again, which the unique index on `internId` rejects. */
  lemma RolloverRepeats(interns: seq<Intern>, month: int, year: int, saved: Intern)
    requires LastInternId(interns) == Some(IdPrefix(month, year) + "999")
    requires saved.internId == Some(GenerateInternId(interns, month, year))
    ensures GenerateInternId(interns, month, year) == IdPrefix(month, year) + "1000"
    ensures GenerateInternId(interns + [saved], month, year) == GenerateInternId(interns, month, year)
  {
    var p := IdPrefix(month, year);
    SequenceAfter999(p);
    assert GenerateInternId(interns, month, year) == p + "1000";
    assert LexLess("1000", "999");
    LexLessCommonPrefix(p, "1000", "999");
    LastInternIdKeeps(interns, saved);
  }
}
