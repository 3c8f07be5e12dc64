/** The admin holiday and working-hours page
    (`new-frontend/pages/admin/working-hours.js`): the holiday form, the
    calendar click that loads it and the guards before each request. */
module WorkingHoursPage {
  import opened Wrappers
  import opened Seqs
  import opened Calendar
  import opened Models
  import Backend

  /** A holiday as the page holds it; `id` is `null` for a new one. */
  datatype HolidayView = HolidayView(id: Option<string>, name: string, date: string)

  const BlankHoliday := HolidayView(None, "", "")

  /** `fetchHolidays`: the stored holidays with their dates as
      `YYYY-MM-DD`. */
  function Views(holidays: seq<Holiday>): (vs: seq<HolidayView>)
    ensures |vs| == |holidays|
    ensures forall k :: 0 <= k < |holidays| ==>
      vs[k] == HolidayView(Some(holidays[k].id), holidays[k].name, MomentDate(holidays[k].date))
  {
    seq(|holidays|, k requires 0 <= k < |holidays| =>
      HolidayView(Some(holidays[k].id), holidays[k].name, MomentDate(holidays[k].date)))
  }

  datatype Page = Page(holidays: seq<HolidayView>, selectedDate: Option<string>, form: HolidayView)

  datatype Request =
    | PatchHoliday(id: string, name: string, date: string)
    | PostHoliday(name: string, date: string)
    | DeleteHoliday(id: string)
    | PutWorkingHours(month: int, year: int, hours: string)

  /** A truthy id: present and non-empty. */
  predicate HasId(v: HolidayView) {
    v.id.Some? && v.id.value != ""
  }

  /** The form after a save or a delete. */
  function Reset(p: Page): (r: Page)
    ensures r.form == BlankHoliday && r.selectedDate.None? && r.holidays == p.holidays
  {
    p.(form := BlankHoliday, selectedDate := None)
  }

  /** `handleAddOrUpdateHoliday`: nothing without a name and a date; a
      PATCH for a holiday with an id, else a POST; a successful save resets
      the form. */
  function Save(p: Page, succeeded: bool): (r: (Option<Request>, Page))
    ensures r.0.None? <==> p.form.name == "" || p.form.date == ""
    ensures r.0.Some? && HasId(p.form) ==> r.0.value == PatchHoliday(p.form.id.value, p.form.name, p.form.date)
    ensures r.0.Some? && !HasId(p.form) ==> r.0.value == PostHoliday(p.form.name, p.form.date)
    ensures r.0.Some? && succeeded ==> r.1 == Reset(p)
    ensures r.0.None? || !succeeded ==> r.1 == p
  {
    if p.form.name == "" || p.form.date == "" then (None, p)
    else
      var req := if HasId(p.form) then PatchHoliday(p.form.id.value, p.form.name, p.form.date)
                 else PostHoliday(p.form.name, p.form.date);
      (Some(req), if succeeded then Reset(p) else p)
  }

  /** `handleDeleteHoliday`: nothing without an id or without the admin's
      confirmation; a successful delete resets the form. */
  function Delete(p: Page, confirmed: bool, succeeded: bool): (r: (Option<Request>, Page))
    ensures r.0.None? <==> !HasId(p.form) || !confirmed
    ensures r.0.Some? ==> r.0.value == DeleteHoliday(p.form.id.value)
    ensures r.0.Some? && succeeded ==> r.1 == Reset(p)
    ensures r.0.None? || !succeeded ==> r.1 == p
  {
    if !HasId(p.form) || !confirmed then (None, p)
    else (Some(DeleteHoliday(p.form.id.value)), if succeeded then Reset(p) else p)
  }

  predicate OnDay(day: string, h: HolidayView) {
    h.date == day
  }

  /** `handleDateClick(date)`: the clicked day becomes the selected date and
      the form loads the first holiday on that day, or a new holiday for
      it. */
  function DateClick(p: Page, d: Date): (r: Page)
    ensures r.selectedDate == Some(MomentDate(d)) && r.holidays == p.holidays
    ensures Find(p.holidays, h => OnDay(MomentDate(d), h)).Some? ==> r.form == Find(p.holidays, h => OnDay(MomentDate(d), h)).value
    ensures r.form.date == MomentDate(d)
    ensures (forall k :: 0 <= k < |p.holidays| ==> p.holidays[k].date != MomentDate(d)) ==> r.form == HolidayView(None, "", MomentDate(d))
  {
    var day := MomentDate(d);
    match Find(p.holidays, h => OnDay(day, h))
    case Some(h) => p.(selectedDate := Some(day), form := h)
    case None => p.(selectedDate := Some(day), form := HolidayView(None, "", day))
  }

  /** A click on a day that holds a stored holiday loads the first stored
      holiday on that day. */
  lemma DateClickLoadsStored(holidays: seq<Holiday>, sel: Option<string>, form: HolidayView, d: Date, k: nat)
    requires k < |holidays| && holidays[k].date == d
    requires forall j :: 0 <= j < k ==> holidays[j].date != d
    ensures DateClick(Page(Views(holidays), sel, form), d).form == Views(holidays)[k]
  {
    var vs := Views(holidays);
    forall j | 0 <= j < k ensures !OnDay(MomentDate(d), vs[j]) {
      if vs[j].date == MomentDate(d) {
        MomentDateInjective(holidays[j].date, d);
      }
    }
    var f := Find(vs, h => OnDay(MomentDate(d), h));
    assert OnDay(MomentDate(d), vs[k]);
    var i :| 0 <= i < |vs| && vs[i] == f.value && OnDay(MomentDate(d), f.value)
             && forall j :: 0 <= j < i ==> !OnDay(MomentDate(d), vs[j]);
    assert i == k;
  }

  /** Saving after a click sends a request for the clicked day: a PATCH of
      the holiday found there, or a POST of a new one, always with a date,
      so the server's "no date" path is never taken from this page. */
  lemma SaveAfterClickHasDate(p: Page, d: Date, succeeded: bool)
    requires DateClick(p, d).form.name != ""
    ensures Save(DateClick(p, d), succeeded).0.Some?
    ensures Save(DateClick(p, d), succeeded).0.value.PatchHoliday? || Save(DateClick(p, d), succeeded).0.value.PostHoliday?
    ensures Save(DateClick(p, d), succeeded).0.value.date == MomentDate(d)
  {
    assert |MomentDate(d)| > 0;
  }

  /** `handleOverrideWorkingHours`: the override is sent only for a
      non-empty answer to the prompt (`None` when the prompt is
      cancelled). */
  function Override(answer: Option<string>, month: int, year: int): (r: Option<Request>)
    ensures r.Some? <==> answer.Some? && answer.value != ""
    ensures r.Some? ==> r.value == PutWorkingHours(month, year, answer.value)
  {
    if answer.Some? && answer.value != "" then Some(PutWorkingHours(month, year, answer.value)) else None
  }

  /** The body the server receives for an override: the month and year as
      JSON numbers and the answer as a JSON string. */
  function OverrideBody(r: Request): (body: (Option<int>, Option<int>, Option<Backend.NumberField>))
    requires r.PutWorkingHours?
    ensures body.2 == Some(Backend.JsonString(r.hours))
  {
    (Some(r.month), Some(r.year), Some(Backend.JsonString(r.hours)))
  }

  /** An override sent from the page never fails the server's `hours`
      guard: the server answers 400 only for a cleared year (0), and
      otherwise stores the cast answer or fails the cast. */
  lemma OverrideOutcome(answer: Option<string>, month: int, year: int)
    requires 1 <= month <= 12
    requires Override(answer, month, year).Some?
    ensures var b := OverrideBody(Override(answer, month, year).value);
      var outcome := Backend.PutHoursOutcome(b.0, b.1, b.2);
      (outcome.PutBadRequest? <==> year == 0)
      && (year != 0 && Backend.CastNumber(answer.value).Some? ==> outcome == Backend.PutStored(Backend.CastNumber(answer.value).value))
      && (year != 0 && Backend.CastNumber(answer.value).None? ==> outcome.PutCastError?)
  {
  }

  /** Answering "0" to the prompt sends the request, and the server stores
      an override of 0 hours. */
  lemma ZeroAnswerStored(month: int, year: int)
    requires 1 <= month <= 12 && year != 0
    ensures Override(Some("0"), month, year).Some?
    ensures var b := OverrideBody(Override(Some("0"), month, year).value);
      Backend.PutHoursOutcome(b.0, b.1, b.2) == Backend.PutStored(0)
  {
    Backend.ZeroStringStored(month, year);
  }

  /** Answering "abc" sends the request, and the server's cast fails
      (500). */
  lemma NonNumericAnswerFails(month: int, year: int)
    requires 1 <= month <= 12 && year != 0
    ensures Override(Some("abc"), month, year).Some?
    ensures var b := OverrideBody(Override(Some("abc"), month, year).value);
      Backend.PutHoursOutcome(b.0, b.1, b.2) == Backend.PutCastError
  {
    Backend.NonNumericStringFails(month, year, "abc");
  }
}
