/** The admin e-mail page (`new-frontend/pages/admin/email.js`): choosing
    recipients, narrowing the list by designation and the send guard. */
module EmailPage {
  import opened Wrappers
  import opened Seqs
  import opened Models
  import opened Backend

  predicate Differs(id: string, x: string) {
    x != id
  }

  /** `s` with every copy of `id` dropped, read front to back: every other
      id keeps its number of copies. */
  function Without(s: seq<string>, id: string): (r: seq<string>)
    ensures forall x :: multiset(r)[x] == if x == id then 0 else multiset(s)[x]
  {
    if s == [] then []
    else
      assert s == [s[0]] + s[1..];
      if s[0] == id then Without(s[1..], id) else [s[0]] + Without(s[1..], id)
  }

  lemma {:induction false} WithoutSnoc(s: seq<string>, x: string, id: string)
    ensures Without(s + [x], id) == Without(s, id) + (if x != id then [x] else [])
  {
    if s != [] {
      assert (s + [x])[1..] == s[1..] + [x];
      WithoutSnoc(s[1..], x, id);
    }
  }

  /** The page's `filter((internId) => internId !== id)` is `Without`. */
  lemma {:induction false} FilterIsWithout(s: seq<string>, id: string)
    ensures Filter(s, x => Differs(id, x)) == Without(s, id)
  {
    if s != [] {
      var init := s[..|s| - 1];
      assert s == init + [s[|s| - 1]];
      FilterIsWithout(init, id);
      WithoutSnoc(init, s[|s| - 1], id);
    }
  }

  /** `handleSelectIntern(id)`: a selected id is removed everywhere it
      occurs; any other id is appended. */
  function Toggle(selected: seq<string>, id: string): (r: seq<string>)
    ensures r == if id in selected then Without(selected, id) else selected + [id]
    ensures id in selected ==> id !in r && IsSubsequence(r, selected)
    ensures id in selected ==> forall x :: x in r <==> x in selected && x != id
  {
    if id in selected then
      FilterSpec(selected, x => Differs(id, x));
      FilterIsWithout(selected, id);
      Filter(selected, x => Differs(id, x))
    else selected + [id]
  }

  /** Toggling the same id twice gives back the same selected set. */
  lemma ToggleTwice(selected: seq<string>, id: string)
    ensures forall x :: x in Toggle(Toggle(selected, id), id) <==> x in selected
  {
  }

  /** Toggling an absent id twice gives back the selection itself. */
  lemma ToggleTwiceAbsent(selected: seq<string>, id: string)
    requires id !in selected
    ensures Toggle(Toggle(selected, id), id) == selected
  {
    FilterSnoc(selected, id, x => Differs(id, x));
    FilterAll(selected, x => Differs(id, x));
  }

  /** Toggling keeps a selection free of repeats. */
  lemma ToggleNoDuplicates(selected: seq<string>, id: string)
    requires NoDuplicates(selected)
    ensures NoDuplicates(Toggle(selected, id))
  {
    if id in selected {
      SubsequencePairwise(Toggle(selected, id), selected, (a: string, b: string) => a != b);
    }
  }

  /** The selection after a run of clicks, starting from none. */
  function Clicks(ids: seq<string>): seq<string> {
    if ids == [] then [] else Toggle(Clicks(ids[..|ids| - 1]), ids[|ids| - 1])
  }

  /** However the admin clicks, no intern is selected twice. */
  lemma {:induction false} ClicksNoDuplicates(ids: seq<string>)
    ensures NoDuplicates(Clicks(ids))
  {
    if ids != [] {
      ClicksNoDuplicates(ids[..|ids| - 1]);
      ToggleNoDuplicates(Clicks(ids[..|ids| - 1]), ids[|ids| - 1]);
    }
  }

  predicate HasDesignation(designation: string, i: Intern) {
    i.designation == Some(designation)
  }

  /** `filteredInterns`: every intern for the empty designation, else those
      with exactly that designation, in order. */
  function FilteredInterns(interns: seq<Intern>, designation: string): (r: seq<Intern>)
    ensures designation == "" ==> r == interns
    ensures designation != "" ==> IsSubsequence(r, interns)
    ensures designation != "" ==> forall i :: i in r <==> i in interns && i.designation == Some(designation)
  {
    if designation == "" then interns
    else
      FilterSpec(interns, i => HasDesignation(designation, i));
      Filter(interns, i => HasDesignation(designation, i))
  }

  datatype EmailForm = EmailForm(subject: string, message: string, selected: seq<string>)

  /** The body of `POST /admin/send-email`. */
  datatype EmailRequest = EmailRequest(subject: string, message: string, recipients: seq<string>)

  /** `handleSendEmail`: an empty subject or message or no selection sends
      nothing; otherwise the request carries the form as it is, and the
      form is cleared when the request succeeds. */
  function SendEmail(form: EmailForm, succeeded: bool): (r: (Option<EmailRequest>, EmailForm))
    ensures r.0.None? <==> form.subject == "" || form.message == "" || |form.selected| == 0
    ensures r.0.Some? ==> r.0.value == EmailRequest(form.subject, form.message, form.selected)
    ensures r.0.Some? && succeeded ==> r.1 == EmailForm("", "", [])
    ensures r.0.None? || !succeeded ==> r.1 == form
  {
    if form.subject == "" || form.message == "" || |form.selected| == 0 then (None, form)
    else (Some(EmailRequest(form.subject, form.message, form.selected)),
          if succeeded then EmailForm("", "", []) else form)
  }

  /** A request the page sends always passes the server's own guard. */
  lemma SentRequestAccepted(interns: seq<Intern>, form: EmailForm, succeeded: bool)
    requires SendEmail(form, succeeded).0.Some?
    ensures SendEmailReply(interns, Some(form.subject), Some(form.message), Some(form.selected)).EmailSent?
  {
  }
}
