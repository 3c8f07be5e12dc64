/** The intern's timesheet calendar (`new-frontend/pages/intern/timesheet.js`):
    each attendance record is an event titled `<hours> hrs: <dayTask>`;
    clicking a day reads the hours and the task back out of the title, and
    submitting marks the day once. */
module InternTimesheet {
  import opened Wrappers
  import opened Seqs
  import opened Strings
  import opened Calendar
  import opened Models

  datatype Event = Event(id: Option<string>, title: string, start: Date)

  /** `${hours} hrs: ${dayTask}`. */
  function EncodeTitle(hours: string, dayTask: string): string {
    hours + " hrs: " + dayTask
  }

  /** `${record.hours}`: a number in decimal, "undefined" when missing. */
  function HoursText(hours: Option<int>): (s: string)
    ensures hours.Some? ==> s == IntToString(hours.value)
    ensures hours.None? ==> s == "undefined"
  {
    if hours.Some? then IntToString(hours.value) else "undefined"
  }

  /** The events the page builds from the fetched records. */
  function Events(records: seq<Attendance>, ids: seq<string>): (es: seq<Event>)
    requires |ids| == |records|
    ensures |es| == |records|
    ensures forall k :: 0 <= k < |records| ==> es[k].start == records[k].date
    ensures forall k :: 0 <= k < |records| ==> es[k].title == EncodeTitle(HoursText(records[k].hours), records[k].dayTask.GetOr("undefined"))
  {
    seq(|records|, k requires 0 <= k < |records| =>
      Event(Some(ids[k]), EncodeTitle(HoursText(records[k].hours), records[k].dayTask.GetOr("undefined")), records[k].date))
  }

  /** `title.split(" ")[0]`: the text before the first space. */
  function DecodeHours(title: string): string {
    SplitPiece(title, " ", 0).value
  }

  /** `title.split(": ")[1]`: the text between the first ": " and the next
      one, `undefined` without any. */
  function DecodeTask(title: string): Option<string> {
    SplitPiece(title, ": ", 1)
  }

  /** No ": " anywhere in `s`. */
  predicate NoColonSpace(s: string) {
    forall k :: 0 <= k <= |s| ==> !OccursAt(s, ": ", k)
  }

  /** The title is read back as written when the hours hold no space and do
      not end in ':' and the task holds no ": ". */
  lemma DecodeEncode(hours: string, dayTask: string)
    requires Lacks(hours, ' ') && (hours == "" || hours[|hours| - 1] != ':')
    requires NoColonSpace(dayTask)
    ensures DecodeHours(EncodeTitle(hours, dayTask)) == hours
    ensures DecodeTask(EncodeTitle(hours, dayTask)) == Some(dayTask)
  {
    HoursRoundTrip(hours, dayTask);
    TaskRoundTrip(hours, dayTask);
  }

  /** The hours end at the first space. */
  lemma HoursRoundTrip(hours: string, dayTask: string)
    requires Lacks(hours, ' ')
    ensures DecodeHours(EncodeTitle(hours, dayTask)) == hours
  {
    var title := EncodeTitle(hours, dayTask);
    assert title == hours + " " + ("hrs: " + dayTask);
    forall k | 0 <= k < |hours| ensures !OccursAt(title, " ", k) {
      assert title[k..k + 1] == [hours[k]];
    }
    SplitAtFirst(hours, " ", "hrs: " + dayTask);
  }

  /** The task starts after the first ": ", which is the one after "hrs". */
  lemma TaskRoundTrip(hours: string, dayTask: string)
    requires Lacks(hours, ' ') && (hours == "" || hours[|hours| - 1] != ':')
    requires NoColonSpace(dayTask)
    ensures DecodeTask(EncodeTitle(hours, dayTask)) == Some(dayTask)
  {
    var a := hours + " hrs";
    var title := a + ": " + dayTask;
    assert title == EncodeTitle(hours, dayTask);
    forall k | 0 <= k < |a| ensures !OccursAt(title, ": ", k) {
      NotColonSpaceAt(hours, dayTask, k);
    }
    SplitAtFirst(a, ": ", dayTask);
    SplitWithout(dayTask, ": ");
  }

  lemma NotColonSpaceAt(hours: string, dayTask: string, k: int)
    requires Lacks(hours, ' ') && (hours == "" || hours[|hours| - 1] != ':')
    requires 0 <= k < |hours| + 4
    ensures !OccursAt(hours + " hrs" + ": " + dayTask, ": ", k)
  {
    var a := hours + " hrs";
    var title := a + ": " + dayTask;
    assert title[k] == a[k];
    if k < |hours| - 1 {
      assert title[k + 1] == hours[k + 1];
    } else if k == |hours| - 1 {
      assert title[k] == hours[k];
    }
    assert title[k] != ':' || title[k + 1] != ' ';
    assert title[k..k + 2] == [title[k], title[k + 1]];
  }

  /** Hours written with a space inside come back cut at the space. */
  lemma SpacedHoursCut()
    ensures DecodeHours(EncodeTitle("7 5", "x")) == "7"
  {
    assert EncodeTitle("7 5", "x") == "7" + " " + "5 hrs: x";
    assert ("7" + " " + "5 hrs: x")[0..1] == "7";
    SplitAtFirst("7", " ", "5 hrs: x");
  }

  predicate OnDay(d: Date, e: Event) {
    MomentDate(e.start) == MomentDate(d)
  }

  /** Comparing `YYYY-MM-DD` renderings compares the days. */
  lemma OnDayIff(d: Date, e: Event)
    ensures OnDay(d, e) <==> e.start == d
  {
    if OnDay(d, e) {
      MomentDateInjective(e.start, d);
    }
  }

  /** Event `k` is the first one on day `d`. */
  predicate FirstOnDay(events: seq<Event>, d: Date, k: int) {
    0 <= k < |events| && events[k].start == d && forall j :: 0 <= j < k ==> events[j].start != d
  }

  datatype Sheet = Sheet(events: seq<Event>, selectedDate: Date, workingHours: string,
                         dayTask: Option<string>, isMarked: bool)

  /** The inputs show the hours and the task read out of `e`'s title. */
  predicate ShowsEvent(s: Sheet, e: Event) {
    s.workingHours == DecodeHours(e.title) && s.dayTask == DecodeTask(e.title)
  }

  /** `handleDateClick`: the day is marked exactly when an event falls on
      it; the inputs show the first such event's hours and task, or stay
      empty. */
  function DateClick(s: Sheet, d: Date): (r: Sheet)
    ensures r.events == s.events && r.selectedDate == d
    ensures r.isMarked <==> exists k :: 0 <= k < |s.events| && s.events[k].start == d
    ensures !r.isMarked ==> r.workingHours == "" && r.dayTask == Some("")
    ensures r.isMarked ==> exists k :: FirstOnDay(s.events, d, k) && ShowsEvent(r, s.events[k])
  {
    forall k | 0 <= k < |s.events| {
      OnDayIff(d, s.events[k]);
    }
    match Find(s.events, e => OnDay(d, e))
    case Some(e) => Sheet(s.events, d, DecodeHours(e.title), DecodeTask(e.title), true)
    case None => Sheet(s.events, d, "", Some(""), false)
  }

  /** The body of `markAttendance`. */
  datatype MarkRequest = MarkRequest(date: string, hours: string, dayTask: string, internId: Option<string>)

  /** `!dayTask`. */
  predicate Falsy(o: Option<string>) {
    o.None? || o.value == ""
  }

  /** `handleSubmit`: nothing with an empty input or a marked day, nor
      without confirmation; the request carries the day as `YYYY-MM-DD`;
      on success one event is appended, the inputs are cleared and the day
      is marked. */
  function Submit(s: Sheet, internId: Option<string>, confirmed: bool, succeeded: bool): (r: (Option<MarkRequest>, Sheet))
    ensures r.0.None? <==> s.workingHours == "" || Falsy(s.dayTask) || s.isMarked || !confirmed
    ensures r.0.Some? ==> r.0.value == MarkRequest(MomentDate(s.selectedDate), s.workingHours, s.dayTask.value, internId)
    ensures r.0.Some? && succeeded ==> r.1 == Sheet(s.events + [Event(None, EncodeTitle(s.workingHours, s.dayTask.value), s.selectedDate)],
                                                     s.selectedDate, "", Some(""), true)
    ensures r.0.None? || !succeeded ==> r.1 == s
  {
    if s.workingHours == "" || Falsy(s.dayTask) || s.isMarked || !confirmed then (None, s)
    else
      var req := MarkRequest(MomentDate(s.selectedDate), s.workingHours, s.dayTask.value, internId);
      if succeeded then
        (Some(req), Sheet(s.events + [Event(None, EncodeTitle(s.workingHours, s.dayTask.value), s.selectedDate)],
                          s.selectedDate, "", Some(""), true))
      else (Some(req), s)
  }

  /** Clicking a day whose only event is the last one shows that event. */
  lemma ClickOnLastEvent(s: Sheet, d: Date)
    requires |s.events| > 0 && s.events[|s.events| - 1].start == d
    requires forall k :: 0 <= k < |s.events| - 1 ==> s.events[k].start != d
    ensures DateClick(s, d).isMarked && ShowsEvent(DateClick(s, d), s.events[|s.events| - 1])
  {
    var r := DateClick(s, d);
    var k :| FirstOnDay(s.events, d, k) && ShowsEvent(r, s.events[k]);
    assert k == |s.events| - 1;
  }

  /** Once a day is submitted, a second submit sends nothing, and clicking
      the day again shows it as marked; when no event sat on that day
      before, the inputs show what was submitted. */
  lemma SubmitThenClick(s: Sheet, internId: Option<string>)
    requires Submit(s, internId, true, true).0.Some?
    requires forall k :: 0 <= k < |s.events| ==> s.events[k].start != s.selectedDate
    requires Lacks(s.workingHours, ' ') && s.workingHours[|s.workingHours| - 1] != ':'
    requires NoColonSpace(s.dayTask.value)
    ensures Submit(Submit(s, internId, true, true).1, internId, true, true).0.None?
    ensures DateClick(Submit(s, internId, true, true).1, s.selectedDate).isMarked
    ensures DateClick(Submit(s, internId, true, true).1, s.selectedDate).workingHours == s.workingHours
    ensures DateClick(Submit(s, internId, true, true).1, s.selectedDate).dayTask == s.dayTask
  {
    var t := Submit(s, internId, true, true).1;
    DecodeEncode(s.workingHours, s.dayTask.value);
    assert t.events[|t.events| - 1].title == EncodeTitle(s.workingHours, s.dayTask.value);
    ClickOnLastEvent(t, s.selectedDate);
  }
}
