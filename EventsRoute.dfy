/**
  The request rules of the events route: the checks a new all-day event
  passes before it is created, the inclusive-to-exclusive end conversion,
  the event the route answers with, and the filtering and mapping of the
  events read back from the selected calendars.
 */
module EventsRoute {
  import opened Wrappers
  import opened Strings
  import opened Dates
  import opened IsoDates
  import opened Accounts
  import opened CalendarSelection

  // ---------------------------------------------------------------------
  // POST: create an all-day event
  // ---------------------------------------------------------------------

  /** The fields of the JSON body the route reads (`body?.title` and so on; a missing one is `Undefined`). */
  datatype PostBody = PostBody(title: JsValue, calendarId: JsValue, startDate: JsValue, endDate: JsValue)

  /** Whether a user is signed in, and the request body; `None` is a body that is not JSON. */
  datatype PostRequest = PostRequest(signedIn: bool, body: Option<PostBody>)

  /** The reasons `POST` answers with an error before it calls the calendar service. */
  datatype Failure =
    | Unauthorized | InvalidJson | TitleRequired | CalendarIdRequired
    | BadStartDate | BadEndDate | EndBeforeStart | InvalidCalendarId | AccountNotFound

  /** The HTTP status of each failure. */
  function Status(f: Failure): int {
    match f
    case Unauthorized => 401
    case AccountNotFound => 404
    case _ => 400
  }

  /** The `error` text of each failure. */
  function Message(f: Failure): string {
    match f
    case Unauthorized => "Unauthorized"
    case InvalidJson => "Invalid JSON"
    case TitleRequired => "Title is required"
    case CalendarIdRequired => "calendarId is required"
    case BadStartDate => "startDate must be YYYY-MM-DD"
    case BadEndDate => "endDate must be YYYY-MM-DD"
    case EndBeforeStart => "endDate must be on/after startDate"
    case InvalidCalendarId => "Invalid calendarId"
    case AccountNotFound => "Account not found"
  }

  /** An error response, or what passed the checks so far. */
  datatype Checked<T> = Rejected(failure: Failure) | Passed(value: T)

  /** What the body checks yield: the two halves of the composite id, the title and the two dates. */
  datatype Form = Form(accountId: string, calendarId: string, title: string, startDate: string, lastDay: string)

  /** The event to create: the account found under the id and the checked form. */
  datatype Draft = Draft(account: Usable, form: Form)

  /** The answer of the calendar service to the create request. */
  datatype CreateReply =
    | Created(id: Option<string>, summary: Option<string>)
    | CreateFailed(status: int, errorMessage: Option<string>, errorDescription: Option<string>)

  /** The JSON the route answers with. */
  datatype PostResponse =
    | PostError(status: int, error: string)
    | PostEvent(id: string, calendarId: string, summary: string, startDate: string, endDate: string)

  /** `typeof v === "string" ? v.trim() : ""`. */
  function TrimmedText(v: JsValue): string {
    if v.JsString? then Trim(v.s) else ""
  }

  /** `v != null`: neither undefined nor null. */
  predicate NotNullish(v: JsValue) {
    !v.Undefined? && !v.Null?
  }

  /** `` `${v}` `` of an id that is a string or missing. */
  function IdText(v: Option<string>): string {
    if v.Some? then v.value else "undefined"
  }

  /** `accounts.find((a) => a.accountId === id)`: the first account with that id. */
  function Find(accounts: seq<Usable>, id: string): (r: Option<Usable>)
    ensures r.Some? <==> exists i :: 0 <= i < |accounts| && accounts[i].accountId == id
    ensures r.Some? ==> r.value in accounts && r.value.accountId == id
  {
    if accounts == [] then None
    else if accounts[0].accountId == id then Some(accounts[0])
    else
      var r := Find(accounts[1..], id);
      assert forall i :: 1 <= i < |accounts| ==> accounts[i] == accounts[1..][i - 1];
      r
  }

  /** What the route reads from the body: the trimmed title and composite id, and the two dates as sent. */
  datatype Fields = Fields(title: string, composite: string, startDate: JsValue, endDate: JsValue)

  /** The title and the composite id are read trimmed: trimming them again changes nothing. */
  lemma TrimmedTextIsTrimmed(v: JsValue)
    ensures Trim(TrimmedText(v)) == TrimmedText(v)
  {
    if v.JsString? {
      TrimIdempotent(v.s);
    } else {
      TrimEmpty("");
    }
  }

  /** The `title` and `calendarId` reads of `POST`: trimmed when they are strings, empty otherwise. */
  function ReadBody(body: PostBody): Fields {
    Fields(TrimmedText(body.title), TrimmedText(body.calendarId), body.startDate, body.endDate)
  }

  /** The early returns about the two dates: the start, the optional end, and their order. */
  function CheckDates(start: JsValue, end: JsValue): (r: Checked<(string, string)>)
    ensures r.Passed? <==>
              IsIsoDateOnly(start) && (end.Undefined? || end.Null? || IsIsoDateOnly(end))
              && !(IsIsoDateOnly(end) && LexLess(end.s, start.s))
    ensures r.Passed? ==>
              && start == JsString(r.value.0) && IsIsoDateString(r.value.0) && IsIsoDateString(r.value.1)
              && r.value.1 == (if IsIsoDateOnly(end) then end.s else start.s)
              && !LexLess(r.value.1, r.value.0)
  {
    if !IsIsoDateOnly(start) then Rejected(BadStartDate)
    else if NotNullish(end) && !IsIsoDateOnly(end) then Rejected(BadEndDate)
    else if IsIsoDateOnly(end) && LexLess(end.s, start.s) then Rejected(EndBeforeStart)
    else
      LexLessIrreflexive(start.s);
      Passed((start.s, if IsIsoDateOnly(end) then end.s else start.s))
  }

  /**
    The field checks of `POST` in the order it makes them: title, '|' in the
    calendar id, start date, end date, date order, then the two halves of the
    composite id, split and tested as the events read does.
   */
  function CheckFields(f: Fields): (r: Checked<Form>)
    ensures r.Passed? ==> IsIsoDateString(r.value.startDate) && IsIsoDateString(r.value.lastDay)
    ensures r.Rejected? ==> r.failure != Unauthorized && r.failure != InvalidJson && r.failure != AccountNotFound
  {
    if f.title == [] then Rejected(TitleRequired)
    else if '|' !in f.composite then Rejected(CalendarIdRequired)
    else
      var dates := CheckDates(f.startDate, f.endDate);
      if dates.Rejected? then Rejected(dates.failure)
      else
        var parsed := ParseComposite(f.composite);
        if parsed.None? then Rejected(InvalidCalendarId)
        else Passed(Form(parsed.value.0, parsed.value.1, f.title, dates.value.0, dates.value.1))
  }

  /** The early returns of `POST` before the accounts are merged. */
  function CheckBody(req: PostRequest): Checked<Form> {
    if !req.signedIn then Rejected(Unauthorized)
    else if req.body.None? then Rejected(InvalidJson)
    else CheckFields(ReadBody(req.body.value))
  }

  /** All checks of `POST`: the body checks, then the lookup among the merged `accounts`. */
  function CheckPost(req: PostRequest, accounts: seq<Usable>): (r: Checked<Draft>)
    ensures r.Passed? ==> IsIsoDateString(r.value.form.startDate) && IsIsoDateString(r.value.form.lastDay)
  {
    match CheckBody(req)
    case Rejected(f) => Rejected(f)
    case Passed(form) =>
      var account := Find(accounts, form.accountId);
      if account.None? then Rejected(AccountNotFound)
      else Passed(Draft(account.value, form))
  }

  /** The `endExclusive` of `POST`: the inclusive last day turned into the exclusive end Google expects. */
  function EndExclusive(form: Form): string
    requires IsIsoDateString(form.lastDay)
  {
    AddDaysIsoDateOnly(form.lastDay, 1)
  }

  /** The whole `POST` once the accounts are merged and the create request is answered. */
  function Post(req: PostRequest, accounts: seq<Usable>, reply: CreateReply): PostResponse {
    match CheckPost(req, accounts)
    case Rejected(f) => PostError(Status(f), Message(f))
    case Passed(draft) =>
      match reply
      case CreateFailed(status, message, description) =>
        PostError(status,
                  if Truthy(message) then message.value
                  else if Truthy(description) then description.value
                  else "Failed to create event")
      case Created(id, summary) =>
        var composite := draft.form.accountId + "|" + draft.form.calendarId;
        PostEvent(composite + ":" + IdText(id), composite,
                  if Truthy(summary) then summary.value else draft.form.title,
                  draft.form.startDate, EndExclusive(draft.form))
  }

  /** Every early return has its own `error` text; only a missing session (401) and an unknown account (404) are not 400s. */
  lemma MessagesDistinct(f: Failure, g: Failure)
    ensures Message(f) == Message(g) <==> f == g
    ensures Status(f) == 400 <==> f != Unauthorized && f != AccountNotFound
  {
  }

  /**
    A failed create answers with the service's status and a non-empty text:
    its error message, else its error description, else "Failed to create event".
   */
  lemma PostFailureText(req: PostRequest, accounts: seq<Usable>, reply: CreateReply)
    requires CheckPost(req, accounts).Passed? && reply.CreateFailed?
    ensures Post(req, accounts, reply).PostError?
    ensures Post(req, accounts, reply).status == reply.status
    ensures Post(req, accounts, reply).error != []
    ensures Truthy(reply.errorMessage) ==> Post(req, accounts, reply).error == reply.errorMessage.value
  {
  }

  /** The fields pass every check: the declarative form of the early returns. */
  predicate FieldsAcceptable(f: Fields) {
    && f.title != []
    && '|' in f.composite
    && IsIsoDateOnly(f.startDate)
    && (f.endDate.Undefined? || f.endDate.Null? || IsIsoDateOnly(f.endDate))
    && !(IsIsoDateOnly(f.endDate) && LexLess(f.endDate.s, f.startDate.s))
    && ParseComposite(f.composite).Some?
  }

  /**
    The checks pass exactly when every condition holds; the form then has
    the title, the account and calendar that the events read parses back
    out of the composite id, the start date as sent, and as last day the
    end date when one was sent, else the start, never before the start.
   */
  lemma CheckFieldsAccepts(f: Fields)
    ensures CheckFields(f).Passed? <==> FieldsAcceptable(f)
    ensures CheckFields(f).Passed? ==>
              var form := CheckFields(f).value;
              && form.title == f.title
              && ParseComposite(f.composite) == Some((form.accountId, form.calendarId))
              && f.startDate == JsString(form.startDate)
              && form.lastDay == (if IsIsoDateOnly(f.endDate) then f.endDate.s else form.startDate)
              && !LexLess(form.lastDay, form.startDate)
  {
    if CheckFields(f).Passed? {
      var dates := CheckDates(f.startDate, f.endDate);
      var parsed := ParseComposite(f.composite);
      assert CheckFields(f) == Passed(Form(parsed.value.0, parsed.value.1, f.title, dates.value.0, dates.value.1));
    }
  }

  /** The checks report the first failing condition. */
  lemma CheckFieldsFirstFailure(f: Fields)
    ensures f.title == [] ==> CheckFields(f) == Rejected(TitleRequired)
    ensures f.title != [] && '|' !in f.composite ==> CheckFields(f) == Rejected(CalendarIdRequired)
    ensures f.title != [] && '|' in f.composite && !IsIsoDateOnly(f.startDate) ==>
              CheckFields(f) == Rejected(BadStartDate)
    ensures f.title != [] && '|' in f.composite && IsIsoDateOnly(f.startDate)
            && NotNullish(f.endDate) && !IsIsoDateOnly(f.endDate) ==>
              CheckFields(f) == Rejected(BadEndDate)
    ensures f.title != [] && '|' in f.composite && IsIsoDateOnly(f.startDate)
            && IsIsoDateOnly(f.endDate) && LexLess(f.endDate.s, f.startDate.s) ==>
              CheckFields(f) == Rejected(EndBeforeStart)
    ensures f.title != [] && '|' in f.composite && IsIsoDateOnly(f.startDate)
            && (f.endDate.Undefined? || f.endDate.Null? || IsIsoDateOnly(f.endDate))
            && !(IsIsoDateOnly(f.endDate) && LexLess(f.endDate.s, f.startDate.s))
            && ParseComposite(f.composite).None? ==>
              CheckFields(f) == Rejected(InvalidCalendarId)
  {
  }

  /**
    A request is accepted exactly when it is signed in, its body is JSON,
    its fields pass the checks and a merged account has the id the composite
    names; that account is the draft's, and an unknown account is the only
    failure after the body checks.
   */
  lemma CheckPostAccepts(req: PostRequest, accounts: seq<Usable>)
    ensures CheckBody(req).Passed? <==> req.signedIn && req.body.Some? && FieldsAcceptable(ReadBody(req.body.value))
    ensures CheckPost(req, accounts).Passed? <==>
              CheckBody(req).Passed? && exists i :: 0 <= i < |accounts| && accounts[i].accountId == CheckBody(req).value.accountId
    ensures CheckPost(req, accounts).Passed? ==>
              var d := CheckPost(req, accounts).value;
              && d.form == CheckBody(req).value
              && d.account in accounts && d.account.accountId == d.form.accountId
    ensures CheckPost(req, accounts) == Rejected(AccountNotFound) <==>
              CheckBody(req).Passed? && CheckPost(req, accounts).Rejected?
  {
    if req.signedIn && req.body.Some? {
      CheckFieldsAccepts(ReadBody(req.body.value));
    }
    if CheckBody(req).Passed? {
      var form := CheckBody(req).value;
      var account := Find(accounts, form.accountId);
      if account.Some? {
        assert CheckPost(req, accounts) == Passed(Draft(account.value, form));
      } else {
        assert CheckPost(req, accounts) == Rejected(AccountNotFound);
      }
    } else {
      assert CheckPost(req, accounts) == Rejected(CheckBody(req).failure);
    }
  }

  /**
    For real four-digit dates the stored exclusive end is the day after the
    last day and sorts after the start, unless that last day is 9999-12-31,
    where the year runs past four digits.
   */
  lemma EndAfterStart(f: Fields, start: ValidDate, last: ValidDate)
    requires 1000 <= start.year < 10000 && 1000 <= last.year < 10000
    requires CheckFields(f).Passed?
    requires CheckFields(f).value.startDate == Iso(start) && CheckFields(f).value.lastDay == Iso(last)
    requires !(last.year == 9999 && last.month == 12 && last.day == 31)
    ensures EndExclusive(CheckFields(f).value) == Iso(AddDays(last, 1))
    ensures LexLess(CheckFields(f).value.startDate, EndExclusive(CheckFields(f).value))
  {
    CheckFieldsAccepts(f);
    ExclusiveEndAfter(start, last);
  }

  /**
    For every accepted form, real date or not, the stored exclusive end
    sorts after the start, as long as the day after the last day has a
    year below 10000: `addDaysIsoDateOnly` only moves a text forward.
   */
  lemma StoredEndAfterStart(f: Fields)
    requires CheckFields(f).Passed?
    requires AddDays(IsoStartDate(CheckFields(f).value.lastDay), 1).year < 10000
    ensures LexLess(CheckFields(f).value.startDate, EndExclusive(CheckFields(f).value))
  {
    CheckFieldsAccepts(f);
    var form := CheckFields(f).value;
    NextDayTextAfter(form.lastDay);
    LexLessAfter(form.startDate, form.lastDay, EndExclusive(form));
  }

  /** The day after an inclusive last day on or after the start sorts after the start. */
  lemma ExclusiveEndAfter(start: ValidDate, last: ValidDate)
    requires 1000 <= start.year < 10000 && 1000 <= last.year < 10000
    requires !(last.year == 9999 && last.month == 12 && last.day == 31)
    requires !LexLess(Iso(last), Iso(start))
    ensures AddDaysIsoDateOnly(Iso(last), 1) == Iso(AddDays(last, 1))
    ensures LexLess(Iso(start), AddDaysIsoDateOnly(Iso(last), 1))
  {
    NextDayIsLater(last);
    IsoOrder(last, start);
    IsoOrder(start, AddDays(last, 1));
  }

  /**
    The created event is answered under the composite id the events read
    parses back, its id extends that composite, its summary is never empty,
    and it keeps the start date and carries the exclusive end.
   */
  lemma PostEventShape(req: PostRequest, accounts: seq<Usable>, reply: CreateReply)
    requires Post(req, accounts, reply).PostEvent?
    ensures CheckPost(req, accounts).Passed? && reply.Created?
    ensures var ev, d := Post(req, accounts, reply), CheckPost(req, accounts).value;
      && ev.calendarId == d.form.accountId + "|" + d.form.calendarId
      && ParseComposite(ev.calendarId) == Some((d.form.accountId, d.form.calendarId))
      && ev.id == ev.calendarId + ":" + IdText(reply.id)
      && ev.summary != []
      && ev.startDate == d.form.startDate && ev.endDate == EndExclusive(d.form)
  {
    CheckPostAccepts(req, accounts);
    CheckFieldsAccepts(ReadBody(req.body.value));
    var form := CheckPost(req, accounts).value.form;
    ParseCompositeRoundTrip(form.accountId, form.calendarId);
  }

  // ---------------------------------------------------------------------
  // GET: the events read from the selected calendars
  // ---------------------------------------------------------------------

  /** The fields of a calendar item the route reads (`start.date`, `end.date` are all-day dates). */
  datatype Item = Item(id: Option<string>, status: Option<string>, summary: Option<string>,
                       startDate: Option<string>, endDate: Option<string>)

  /** One read: its items (`None` for a null entry) and the account and calendar it came from. */
  datatype FetchResult = FetchResult(items: seq<Option<Item>>, calendarId: string, accountId: string)

  /** An event as the route answers it. */
  datatype CalendarEvent = CalendarEvent(id: string, calendarId: string, summary: string,
                                         startDate: string, endDate: Option<string>)

  /** `e?.start?.date && e.status !== "cancelled"`. */
  predicate Shown(e: Option<Item>) {
    e.Some? && Truthy(e.value.startDate) && e.value.status != Some("cancelled")
  }

  /** `s || "primary"`. */
  function OrPrimary(s: string): (r: string)
    ensures r != []
  {
    if s == [] then "primary" else s
  }

  /** The event an item that is shown maps to. */
  function ToEvent(r: FetchResult, e: Item): (ev: CalendarEvent)
    requires Truthy(e.startDate)
    ensures ev.calendarId == OrPrimary(r.accountId) + "|" + OrPrimary(r.calendarId)
    ensures ev.id == ev.calendarId + ":" + IdText(e.id)
    ensures ev.summary != [] && ev.startDate != []
  {
    var composite := OrPrimary(r.accountId) + "|" + OrPrimary(r.calendarId);
    CalendarEvent(composite + ":" + IdText(e.id), composite,
                  if Truthy(e.summary) then e.summary.value else "(Untitled)",
                  e.startDate.value, e.endDate)
  }

  /** The events of one read, in item order. */
  function EventsOfResult(r: FetchResult, n: nat): seq<CalendarEvent>
    requires n <= |r.items|
  {
    if n == 0 then []
    else
      var e := r.items[n - 1];
      EventsOfResult(r, n - 1) + (if Shown(e) then [ToEvent(r, e.value)] else [])
  }

  /** `results.flatMap(...)`: the events of every read, read by read. */
  function Events(results: seq<FetchResult>): seq<CalendarEvent> {
    if results == [] then []
    else
      var last := results[|results| - 1];
      Events(results[..|results| - 1]) + EventsOfResult(last, |last.items|)
  }

  /** An event comes from exactly one shown item of its read. */
  lemma {:induction false} EventsOfResultMembers(r: FetchResult, n: nat, ev: CalendarEvent)
    requires n <= |r.items|
    ensures ev in EventsOfResult(r, n) <==>
              exists j :: 0 <= j < n && Shown(r.items[j]) && ev == ToEvent(r, r.items[j].value)
  {
    if n > 0 {
      EventsOfResultMembers(r, n - 1, ev);
    }
  }

  /** Reads concatenate: the events of two batches of reads are those of the first, then those of the second. */
  lemma {:induction false} EventsAppend(a: seq<FetchResult>, b: seq<FetchResult>)
    ensures Events(a + b) == Events(a) + Events(b)
  {
    if b == [] {
      assert a + b == a;
    } else {
      var init := b[..|b| - 1];
      var last := b[|b| - 1];
      var tail := EventsOfResult(last, |last.items|);
      var ab := a + b;
      assert ab[..|ab| - 1] == a + init && ab[|ab| - 1] == last;
      calc {
        Events(a + b);
        Events(a + init) + tail;
        { EventsAppend(a, init); }
        (Events(a) + Events(init)) + tail;
        Events(a) + (Events(init) + tail);
        Events(a) + Events(b);
      }
    }
  }

  /** `ev` is the event of a shown item of the `i`th read. */
  predicate OfRead(results: seq<FetchResult>, i: int, ev: CalendarEvent) {
    0 <= i < |results| &&
    exists j :: 0 <= j < |results[i].items| && Shown(results[i].items[j]) && ev == ToEvent(results[i], results[i].items[j].value)
  }

  /**
    Every event answered comes from a shown item (one with a start date and
    not cancelled) of some read, under that read's composite calendar id.
   */
  lemma {:induction false} EventsMembers(results: seq<FetchResult>, ev: CalendarEvent)
    ensures ev in Events(results) <==> exists i :: 0 <= i < |results| && OfRead(results, i, ev)
  {
    if results != [] {
      var n := |results| - 1;
      var init, last := results[..n], results[n];
      var tail := EventsOfResult(last, |last.items|);
      assert Events(results) == Events(init) + tail;
      EventsMembers(init, ev);
      EventsOfResultMembers(last, |last.items|, ev);
      assert ev in tail <==> OfRead(results, n, ev);
      if ev in Events(init) {
        var i :| 0 <= i < |init| && OfRead(init, i, ev);
        assert results[i] == init[i];
        assert OfRead(results, i, ev);
      } else if ev in tail {
        assert OfRead(results, n, ev);
      } else {
        assert ev !in Events(results);
        forall i | 0 <= i < |results|
          ensures !OfRead(results, i, ev)
        {
          if i < n {
            assert results[i] == init[i];
            assert !OfRead(init, i, ev);
          }
        }
      }
    }
  }

  /**
    An event read from a named account and calendar carries the same id
    scheme as the event `POST` answers with, and its calendar id parses back
    into that account and calendar.
   */
  lemma SameIdScheme(req: PostRequest, accounts: seq<Usable>, reply: CreateReply, e: Item)
    requires Post(req, accounts, reply).PostEvent? && Truthy(e.startDate) && e.id == reply.id
    ensures CheckPost(req, accounts).Passed?
    ensures var f := CheckPost(req, accounts).value.form;
      var ev := ToEvent(FetchResult([Some(e)], f.calendarId, f.accountId), e);
      && ev.id == Post(req, accounts, reply).id
      && ParseComposite(ev.calendarId) == Some((f.accountId, f.calendarId))
  {
    PostEventShape(req, accounts, reply);
  }
}
