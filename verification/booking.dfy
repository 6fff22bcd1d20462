/**
 * `POST /api/book`: read and check a booking request, look up the store, the
 * staff member and the service, check the start against the lead time, the
 * working hours, the day's appointments and the blocks, and create the
 * appointment. The database, the outcome of the insert, the zone's offset
 * function, the current instant and the server's reading of the weekday are
 * parameters.
 */
module Booking {
  import opened Results
  import opened JsText
  import opened Tz
  import opened Data
  import opened Validators

  // ---------------------------------------------------------------------------
  // Reading and checking the body

  /**
   * The JSON body. A text field is present or absent; a numeric field is a
   * finite number, or None for anything that fails `Number.isFinite`.
   */
  datatype Body = Body(
    slug: Option<string>, staffId: Option<string>, serviceId: Option<string>,
    date: Option<string>, time: Option<string>,
    customerName: Option<string>, customerPhone: Option<string>,
    bufferAfter: Option<int>, leadMinutes: Option<int>, stepMinutes: Option<int>)

  /** The fields as the handler holds them before its checks. */
  datatype Request = Request(
    slug: string, staffId: string, serviceId: string, date: string, time: string,
    name: string, phone: string, buffer: int, lead: int, step: int)

  /**
   * Text fields trimmed (an absent one is empty), the phone's white space
   * collapsed, and the numbers defaulted: no buffer, 120 minutes' lead, a
   * 15-minute grid.
   */
  function Read(body: Body): (r: Request)
    ensures body.bufferAfter.None? ==> r.buffer == 0
    ensures body.leadMinutes.None? ==> r.lead == 120
    ensures body.stepMinutes.None? ==> r.step == 15
    ensures body.bufferAfter.Some? ==> r.buffer == body.bufferAfter.value
    ensures body.leadMinutes.Some? ==> r.lead == body.leadMinutes.value
    ensures body.stepMinutes.Some? ==> r.step == body.stepMinutes.value
  {
    Request(
      Trim(body.slug.GetOr("")), Trim(body.staffId.GetOr("")), Trim(body.serviceId.GetOr("")),
      Trim(body.date.GetOr("")), Trim(body.time.GetOr("")),
      Trim(body.customerName.GetOr("")), NormalizePhone(body.customerPhone.GetOr("")),
      body.bufferAfter.GetOr(0), body.leadMinutes.GetOr(120), body.stepMinutes.GetOr(15))
  }

  /** What the read fields go on with carry no surrounding white space, and the phone no run of it. */
  lemma ReadTidy(body: Body)
    ensures var r := Read(body);
      Trim(r.slug) == r.slug && Trim(r.staffId) == r.staffId && Trim(r.serviceId) == r.serviceId
      && Trim(r.date) == r.date && Trim(r.time) == r.time && Trim(r.name) == r.name
    ensures Tidy(Read(body).phone)
  {
    TrimIdempotent(body.slug.GetOr(""));
    TrimIdempotent(body.staffId.GetOr(""));
    TrimIdempotent(body.serviceId.GetOr(""));
    TrimIdempotent(body.date.GetOr(""));
    TrimIdempotent(body.time.GetOr(""));
    TrimIdempotent(body.customerName.GetOr(""));
    NormalizePhoneTidy(body.customerPhone.GetOr(""));
  }

  /** Normalising the phone first does not change the verdict of the phone check on what the customer typed. */
  lemma ReadPhoneVerdict(body: Body)
    ensures IsValidPhone(Read(body).phone) == IsValidPhone(body.customerPhone.GetOr(""))
  {
    NormalizePhoneKeepsValidity(body.customerPhone.GetOr(""));
  }

  /** A number in a template literal. */
  function IntText(n: int): string {
    if n < 0 then "-" + NatToString(-n) else NatToString(n)
  }

  /**
   * `Number(time.slice(3, 5)) % stepMinutes === 0`; NaN fails. JavaScript's
   * `%` truncates while Dafny's is Euclidean, but the two agree on when the
   * remainder is zero.
   */
  predicate OnGrid(time: string, step: int)
    requires |time| >= 5 && step != 0
  {
    match JsNumber(time[3..5])
    case None => false
    case Some(m) => m % step == 0
  }

  /**
   * The request the checks let through, stated on its own terms: the three
   * identifiers present, a date of the form `YYYY-MM-DD`, a time from `00:00`
   * to `23:59`, no negative buffer or lead, a step of 1 to 60 minutes, a name
   * of at most 80 characters, a phone with 9 to 16 digits and plus signs, and
   * a minute past the hour that is a multiple of the step (the hour does not
   * take part, so with a step that does not divide 60 the accepted starts
   * are not evenly spaced through the day).
   */
  predicate Acceptable(r: Request) {
    r.slug != "" && r.staffId != "" && r.serviceId != ""
    && IsValidDate(r.date) && IsValidHHMM(r.time)
    && r.buffer >= 0 && r.lead >= 0 && 0 < r.step <= 60
    && r.name != "" && |r.name| <= 80
    && r.phone != "" && IsValidPhone(r.phone)
    && (ClockOf(r.time) % 60) % r.step == 0
  }

  /** The base checks of the handler, in its order, with its messages. */
  function Check(r: Request): (res: Response<Request>)
    ensures res.Fail? ==> res.status == BadRequest
    ensures res.Ok? ==> res.value == r
  {
    if r.slug == "" then Fail(BadRequest, "Falta o slug da loja.")
    else if r.staffId == "" then Fail(BadRequest, "Falta o profissional (staffId).")
    else if r.serviceId == "" then Fail(BadRequest, "Falta o serviço (serviceId).")
    else if !IsValidDate(r.date) then Fail(BadRequest, "Data inválida. Use YYYY-MM-DD.")
    else if !IsValidHHMM(r.time) then Fail(BadRequest, "Hora inválida. Use HH:MM.")
    else if r.buffer < 0 then Fail(BadRequest, "bufferAfter inválido.")
    else if r.lead < 0 then Fail(BadRequest, "leadMinutes inválido.")
    else if r.step <= 0 || r.step > 60 then Fail(BadRequest, "stepMinutes inválido.")
    else if r.name == "" then Fail(BadRequest, "Indique o seu nome.")
    else if |r.name| > 80 then Fail(BadRequest, "Nome demasiado longo.")
    else if r.phone == "" then Fail(BadRequest, "Indique o seu contacto.")
    else if !IsValidPhone(r.phone) then Fail(BadRequest, "Contacto inválido.")
    else if !OnGrid(r.time, r.step) then
      Fail(BadRequest, "Escolha um horário de " + IntText(r.step) + " em " + IntText(r.step) + " minutos.")
    else Ok(r)
  }

  /** The checks accept exactly the acceptable requests. */
  lemma CheckAccepts(r: Request)
    ensures Check(r).Ok? <==> Acceptable(r)
  {
    if IsValidHHMM(r.time) {
      ValidMinuteReads(r.time);
    }
  }

  function Validate(body: Body): (r: Response<Request>)
    ensures r.Fail? ==> r.status == BadRequest
    ensures r.Ok? ==> r.value == Read(body)
  {
    Check(Read(body))
  }

  /** The instant a valid date and time name when read as UTC: the guess the conversion starts from. */
  function WallGuess(date: string, time: string): int
    requires IsValidDate(date) && IsValidHHMM(time)
  {
    DateUtc(DateOf(date), 0, ClockOf(time))
  }

  /** The calendar date a valid date names. */
  function DateOf(date: string): CivilDate
    requires IsValidDate(date)
  {
    CivilDate(DigitsValue(date[..4]), DigitsValue(date[5..7]), DigitsValue(date[8..]))
  }

  /** A valid date and time always convert: the start and the day window are instants, never an Invalid Date. */
  lemma ValidConverts(off: int -> int, date: string, time: string)
    requires IsValidDate(date) && IsValidHHMM(time)
    ensures LocalToUtc(off, date, time) == Some(TwoPass(off, WallGuess(date, time)))
    ensures DayRangeUtc(off, date).Some?
  {
    ValidDateReads(date);
    ValidHHMMReads(time);
    LocalToUtcAt(off, date, time, DateOf(date), ClockOf(time));
  }

  /** The wall guess falls on the requested minute of the day. */
  lemma WallGuessMinute(date: string, time: string)
    requires IsValidDate(date) && IsValidHHMM(time)
    ensures WallGuess(date, time) % MinutesPerDay == ClockOf(time)
  {
    DateUtcMinute(DateOf(date), ClockOf(time));
  }

  /** When the second pass keeps the first pass's offset, the result renders as the guess's minute of the day. */
  lemma EchoMinute(off: int -> int, g: int, m: int)
    requires off(TwoPass(off, g)) == off(g - off(g))
    requires g % MinutesPerDay == m
    ensures 0 <= m < MinutesPerDay
    ensures LocalHHMM(off, TwoPass(off, g)) == FormatHHMM(m)
  {
    TwoPassRoundTrip(off, g);
    LocalHHMMAt(off, TwoPass(off, g), m);
  }

  /**
   * Rendering a start converted from a guess on the requested minute gives
   * back the requested time whenever the second pass of the conversion lands
   * where the first one assumed (always, with a fixed offset; not for a time
   * skipped by a spring-forward change).
   */
  lemma LocalTimeEchoes(off: int -> int, time: string, g: int)
    requires IsValidHHMM(time)
    requires g % MinutesPerDay == ClockOf(time)
    requires off(TwoPass(off, g)) == off(g - off(g))
    ensures LocalHHMM(off, TwoPass(off, g)) == time
  {
    EchoMinute(off, g, ClockOf(time));
    ValidIsFormatted(time);
  }

  /** With a fixed offset, the converted start of a valid date and time renders as that time. */
  lemma FixedOffsetEcho(off: int -> int, k: int, date: string, time: string, start: int)
    requires ConstantOffset(off, k) && IsValidDate(date) && IsValidHHMM(time)
    requires LocalToUtc(off, date, time) == Some(start)
    ensures LocalHHMM(off, start) == time
  {
    ValidConverts(off, date, time);
    var g := WallGuess(date, time);
    WallGuessMinute(date, time);
    assert off(TwoPass(off, g)) == k && off(g - off(g)) == k;
    LocalTimeEchoes(off, time, g);
  }

  /**
   * Across one offset change of any size and direction, the converted start
   * renders as the requested time whenever some instant shows that wall time
   * (one skipped by a forward change has none).
   */
  lemma ChangeEcho(off: int -> int, change: int, before: int, after: int, date: string, time: string, start: int, u: int)
    requires SingleTransition(off, change, before, after) && IsValidDate(date) && IsValidHHMM(time)
    requires LocalToUtc(off, date, time) == Some(start)
    requires u + off(u) == WallGuess(date, time)
    ensures LocalHHMM(off, start) == time
  {
    ValidConverts(off, date, time);
    WallGuessMinute(date, time);
    WallTimeEchoes(off, change, before, after, time, u, WallGuess(date, time));
  }

  /** Across one offset change, a wall time `g` that some instant `u` shows is found again by the two passes. */
  lemma WallTimeEchoes(off: int -> int, change: int, before: int, after: int, time: string, u: int, g: int)
    requires SingleTransition(off, change, before, after) && IsValidHHMM(time)
    requires u + off(u) == g && g % MinutesPerDay == ClockOf(time)
    ensures LocalHHMM(off, TwoPass(off, g)) == time
  {
    TwoPassFindsWallTime(off, change, before, after, u);
    LocalHHMMAt(off, TwoPass(off, g), ClockOf(time));
    ValidIsFormatted(time);
  }

  // ---------------------------------------------------------------------------
  // The queries

  function StoreBySlug(slug: string): StoreRow -> bool {
    (x: StoreRow) => x.slug == slug
  }

  function StaffOfStore(id: string, storeId: string): StaffRow -> bool {
    (x: StaffRow) => x.id == id && x.storeId == storeId
  }

  function ServiceOfStore(id: string, storeId: string): ServiceRow -> bool {
    (x: ServiceRow) => x.id == id && x.storeId == storeId
  }

  /**
   * The database's refusal of `.eq("day_of_week", NaN)`: "NaN" is not an
   * integer, so the filter is an error rather than a filter that keeps nothing.
   */
  const NaNRefused := "invalid input syntax for type integer: \"NaN\""

  /**
   * The working-hour query. A weekday the server could not read (NaN) is
   * refused by the database; an unreachable table fails with its own message
   * first.
   */
  function HoursQuery(hours: Table<WorkingHourRow>, storeId: string, staffId: string, weekday: Option<int>)
    : Response<seq<WorkingHourRow>>
  {
    match weekday
    case Some(w) => Select(hours, HoursOn(storeId, staffId, w))
    case None =>
      match hours
      case Unreachable(m) => Fail(InternalError, m)
      case Table(_) => Fail(InternalError, NaNRefused)
  }

  function AppointmentsOfDay(storeId: string, staffId: string, day: Range): AppointmentRow -> bool {
    (a: AppointmentRow) => AppointmentInDay(a, storeId, staffId, day)
  }

  /** Unlike the availability query, the booking query keeps blocks that start before the window end (`lt`). */
  function BlocksOfDay(storeId: string, staffId: string, day: Range): BlockRow -> bool {
    (b: BlockRow) => BlockInDay(b, storeId, staffId, day, false)
  }

  // ---------------------------------------------------------------------------
  // The handler

  /** What the insert returned: the new row's id, the client's error, or no row. */
  datatype InsertOutcome = Created(id: string) | InsertFailed(message: string) | NothingCreated

  /** The `appointment` object of the success response. */
  datatype Confirmation = Confirmation(
    id: string, storeSlug: string, storeName: string, staffId: string, staffName: string,
    serviceId: string, serviceName: string, durationMinutes: int, priceCents: int,
    date: string, time: string, startAt: int, endAt: int, bufferAfter: int)

  /** The row written to `appointments` and the answer sent back. */
  datatype Booked = Booked(row: AppointmentRow, reply: Confirmation)

  const Closed := "A loja está fechada nesse dia para esse profissional."
  const OutsideHours := "Horário fora do período de trabalho."
  const Taken := "Esse horário já foi ocupado. Escolha outro."
  const Blocked := "Esse horário está bloqueado."

  /** The handler, from the body to the response. */
  function Book(db: Database, off: int -> int, now: int, weekday: Option<int>, body: Body, write: InsertOutcome)
    : Response<Booked>
  {
    match Validate(body)
    case Fail(s, m) => Fail(s, m)
    case Ok(req) => BookRequest(db, off, now, weekday, req, write)
  }

  /** The three lookups, then the service duration check. */
  function BookRequest(db: Database, off: int -> int, now: int, weekday: Option<int>, req: Request, write: InsertOutcome)
    : Response<Booked>
  {
    match LookupOne(db.stores, StoreBySlug(req.slug), "Loja não encontrada.")
    case Fail(s, m) => Fail(s, m)
    case Ok(store) =>
      match LookupOne(db.staff, StaffOfStore(req.staffId, store.id), "Profissional não encontrado nesta loja.")
      case Fail(s, m) => Fail(s, m)
      case Ok(staff) =>
        match LookupOne(db.services, ServiceOfStore(req.serviceId, store.id), "Serviço não encontrado nesta loja.")
        case Fail(s, m) => Fail(s, m)
        case Ok(service) =>
          if service.durationMinutes <= 0 || service.durationMinutes > 8 * 60 then
            Fail(InternalError, "Duração do serviço inválida.")
          else
            Schedule(db, off, now, weekday, req, store, staff, service,
              LocalToUtc(off, req.date, req.time), DayRangeUtc(off, req.date), SpanOn(off, req.date), write)
  }

  /** The end of the occupied span: the service and then the buffer. */
  function OccupiedEnd(start: int, req: Request, service: ServiceRow): int {
    AddMinutes(start, service.durationMinutes + req.buffer)
  }

  /**
   * The conversion of the requested time, the lead time, the day window, the
   * working hours and the fit in a shift. The conversions are pure, so they
   * come in as values (`start`, `window`, and `spanOf` for the shifts); each
   * is looked at where the handler computes it, and None is the RangeError
   * the handler answers with 500.
   */
  function Schedule(db: Database, off: int -> int, now: int, weekday: Option<int>, req: Request,
                    store: StoreRow, staff: StaffRow, service: ServiceRow,
                    start: Option<int>, window: Option<Range>, spanOf: Shift -> Option<Range>,
                    write: InsertOutcome): Response<Booked>
  {
    match start
    case None => Fail(InternalError, InvalidTimeValue)
    case Some(t) =>
      if t < AddMinutes(now, req.lead) then
        Fail(BadRequest, "Antecedência mínima: " + IntText(req.lead) + " minutos.")
      else
        match window
        case None => Fail(InternalError, InvalidTimeValue)
        case Some(day) =>
          match HoursQuery(db.hours, store.id, req.staffId, weekday)
          case Fail(s, m) => Fail(s, m)
          case Ok(hours) =>
            var shifts := OpenShifts(hours);
            if shifts == [] then Fail(BadRequest, Closed)
            else
              match FirstFit(ShiftSpans(spanOf, shifts), t, OccupiedEnd(t, req, service))
              case None => Fail(InternalError, InvalidTimeValue)
              case Some(false) => Fail(BadRequest, OutsideHours)
              case Some(true) => Reserve(db, off, req, store, staff, service, day, t, write)
  }

  /** The span holds `[start, end)`; a shift that did not convert holds nothing. */
  predicate Holds(span: Option<Range>, start: int, end: int) {
    span.Some? && span.value.start <= start && end <= span.value.end
  }

  /**
   * `openSlots.some(...)` over the shifts' spans: the first span that holds
   * the occupied span answers true; a shift met before that whose conversion
   * throws answers None. The conversion is pure, so converting the shifts
   * first and scanning their spans answers the same.
   */
  function FirstFit(spans: seq<Option<Range>>, start: int, end: int): (r: Option<bool>)
    ensures r == Some(true) ==> exists i :: 0 <= i < |spans| && Holds(spans[i], start, end)
    ensures r == Some(false) ==> forall i :: 0 <= i < |spans| ==> spans[i].Some? && !Holds(spans[i], start, end)
    decreases |spans|
  {
    if spans == [] then Some(false)
    else
      match spans[0]
      case None => None
      case Some(sp) =>
        if start >= sp.start && end <= sp.end then Some(true)
        else
          var rest := FirstFit(spans[1..], start, end);
          assert forall i :: 1 <= i < |spans| ==> spans[i] == spans[1..][i - 1];
          rest
  }

  /** When every shift converts, the search answers whether some shift holds the span. */
  lemma FirstFitOfSpans(xs: seq<Option<Range>>, spans: seq<Range>, start: int, end: int)
    requires AllSome(xs) == Some(spans)
    ensures FirstFit(xs, start, end) == Some(exists i :: 0 <= i < |spans| && spans[i].start <= start && end <= spans[i].end)
  {
    FirstFitConverts(xs, start, end);
    var r := FirstFit(xs, start, end);
    if r.value {
      assert r == Some(true);
      var i :| 0 <= i < |xs| && Holds(xs[i], start, end);
      assert xs[i] == Some(spans[i]);
    } else {
      assert r == Some(false);
      forall i | 0 <= i < |spans|
        ensures !(spans[i].start <= start && end <= spans[i].end)
      {
        assert xs[i] == Some(spans[i]);
        assert !Holds(xs[i], start, end);
      }
    }
  }

  /** The search throws only on a shift that does not convert. */
  lemma {:induction false} FirstFitConverts(xs: seq<Option<Range>>, start: int, end: int)
    requires forall i :: 0 <= i < |xs| ==> xs[i].Some?
    ensures FirstFit(xs, start, end).Some?
    decreases |xs|
  {
    if xs != [] {
      assert xs[0].Some?;
      assert forall i :: 0 <= i < |xs[1..]| ==> xs[1..][i] == xs[i + 1];
      FirstFitConverts(xs[1..], start, end);
    }
  }

  /** The day's appointments, then its blocks, then the insert. */
  function Reserve(db: Database, off: int -> int, req: Request, store: StoreRow, staff: StaffRow, service: ServiceRow,
                   day: Range, start: int, write: InsertOutcome): Response<Booked>
  {
    var end := OccupiedEnd(start, req, service);
    match Select(db.appointments, AppointmentsOfDay(store.id, req.staffId, day))
    case Fail(s, m) => Fail(s, m)
    case Ok(appts) =>
      if HitsAny(start, end, BusyOf(appts)) then Fail(Conflict, Taken)
      else
        match Select(db.blocks, BlocksOfDay(store.id, req.staffId, day))
        case Fail(s, m) => Fail(s, m)
        case Ok(blocks) =>
          if HitsAny(start, end, BlockedOf(blocks)) then Fail(Conflict, Blocked)
          else Insert(off, req, store, staff, service, start, write)
  }

  /**
   * The insert: the appointment's `end_at` leaves the buffer out, which is
   * kept as its snapshot; the status is the column's default, confirmed.
   */
  function Insert(off: int -> int, req: Request, store: StoreRow, staff: StaffRow, service: ServiceRow,
                  start: int, write: InsertOutcome): Response<Booked>
  {
    var row := AppointmentRow(store.id, req.staffId, req.serviceId, req.name, req.phone,
      start, AddMinutes(start, service.durationMinutes), Some(req.buffer), Confirmed);
    match write
    case InsertFailed(m) => Fail(InternalError, m)
    case NothingCreated => Fail(InternalError, "Falha ao criar a marcação.")
    case Created(id) =>
      Ok(Booked(row, Confirmation(id, store.slug, store.name, staff.id, staff.name,
        service.id, service.name, service.durationMinutes, service.priceCents,
        req.date, LocalHHMM(off, start), start, row.endAt, req.buffer)))
  }

  // ---------------------------------------------------------------------------
  // What a booking is

  /** The store with the request's slug, its staff member and its service, with a usable duration. */
  ghost predicate FoundIn(db: Database, req: Request, store: StoreRow, staff: StaffRow, service: ServiceRow) {
    db.stores.Table? && store in db.stores.rows && store.slug == req.slug
    && db.staff.Table? && staff in db.staff.rows && staff.id == req.staffId && staff.storeId == store.id
    && db.services.Table? && service in db.services.rows && service.id == req.serviceId && service.storeId == store.id
    && 0 < service.durationMinutes <= 8 * 60
  }

  /** Some open shift of the staff member on the weekday, converted on the requested date, holds `[start, end)`. */
  ghost predicate InOpenShift(db: Database, spanOf: Shift -> Option<Range>, storeId: string, staffId: string,
                              weekday: Option<int>, start: int, end: int) {
    db.hours.Table? && weekday.Some?
    && (exists h :: h in db.hours.rows && HoursOf(h, storeId, staffId, weekday.value) && h.isOpen
          && Holds(spanOf(ShiftOf(h)), start, end))
  }

  /**
   * `[start, end)` meets no appointment of the staff member starting in the
   * day window (its buffer included) and no block that applies and reaches
   * into the window.
   */
  ghost predicate ClearDay(db: Database, storeId: string, staffId: string, day: Range, start: int, end: int) {
    db.appointments.Table? && db.blocks.Table?
    && (forall a :: a in db.appointments.rows && AppointmentInDay(a, storeId, staffId, day) ==>
          !Overlaps(start, end, a.startAt, BusyRange(a).end))
    && (forall bl :: bl in db.blocks.rows && BlockInDay(bl, storeId, staffId, day, false) ==>
          !Overlaps(start, end, bl.startAt, bl.endAt))
  }

  /** The insert stores the request under the found store from `start` for the service's duration, and the reply repeats it. */
  lemma InsertOk(off: int -> int, req: Request, store: StoreRow, staff: StaffRow, service: ServiceRow,
                 start: int, write: InsertOutcome, b: Booked)
    requires Insert(off, req, store, staff, service, start, write) == Ok(b)
    ensures write == Created(b.reply.id)
    ensures b.row.storeId == store.id && b.row.staffId == req.staffId && b.row.serviceId == req.serviceId
    ensures b.row.customerName == req.name && b.row.customerPhone == req.phone
    ensures b.row.startAt == start && b.row.endAt - start == service.durationMinutes
    ensures b.row.bufferSnapshot == Some(req.buffer) && b.row.status == Confirmed
    ensures b.reply.storeSlug == store.slug && b.reply.storeName == store.name
    ensures b.reply.staffId == staff.id && b.reply.staffName == staff.name
    ensures b.reply.serviceId == service.id && b.reply.serviceName == service.name
    ensures b.reply.durationMinutes == service.durationMinutes && b.reply.priceCents == service.priceCents
    ensures b.reply.date == req.date && b.reply.time == LocalHHMM(off, start)
    ensures b.reply.startAt == start && b.reply.endAt == b.row.endAt && b.reply.bufferAfter == req.buffer
  {
  }

  /** A failed insert answers 500 with the client's message, or a fixed one when no row came back. */
  lemma InsertFails(off: int -> int, req: Request, store: StoreRow, staff: StaffRow, service: ServiceRow,
                    start: int, write: InsertOutcome)
    requires !write.Created?
    ensures Insert(off, req, store, staff, service, start, write).Fail?
    ensures Insert(off, req, store, staff, service, start, write).status == InternalError
    ensures write.InsertFailed? ==> Insert(off, req, store, staff, service, start, write).message == write.message
  {
  }

  /** Reaching the insert means the occupied span is clear of the day's appointments and blocks. */
  lemma ReserveOk(db: Database, off: int -> int, req: Request, store: StoreRow, staff: StaffRow, service: ServiceRow,
                  day: Range, start: int, write: InsertOutcome, b: Booked)
    requires Reserve(db, off, req, store, staff, service, day, start, write) == Ok(b)
    ensures ClearDay(db, store.id, req.staffId, day, start, OccupiedEnd(start, req, service))
    ensures Insert(off, req, store, staff, service, start, write) == Ok(b)
  {
    var end := OccupiedEnd(start, req, service);
    var appts := Select(db.appointments, AppointmentsOfDay(store.id, req.staffId, day)).value;
    var blocks := Select(db.blocks, BlocksOfDay(store.id, req.staffId, day)).value;
    HitsBusyIff(start, end, appts);
    HitsBlockedIff(start, end, blocks);
  }

  /** A clear span goes on to the insert. */
  lemma ReserveClear(db: Database, off: int -> int, req: Request, store: StoreRow, staff: StaffRow, service: ServiceRow,
                     day: Range, start: int, write: InsertOutcome)
    requires ClearDay(db, store.id, req.staffId, day, start, OccupiedEnd(start, req, service))
    ensures Reserve(db, off, req, store, staff, service, day, start, write) == Insert(off, req, store, staff, service, start, write)
  {
    var end := OccupiedEnd(start, req, service);
    var appts := Select(db.appointments, AppointmentsOfDay(store.id, req.staffId, day)).value;
    var blocks := Select(db.blocks, BlocksOfDay(store.id, req.staffId, day)).value;
    HitsBusyIff(start, end, appts);
    HitsBlockedIff(start, end, blocks);
  }

  /**
   * An appointment of the day that the occupied span meets answers 409
   * "taken", whatever the blocks table holds or whether it can be read.
   */
  lemma TakenBeforeBlocked(db: Database, off: int -> int, req: Request, store: StoreRow, staff: StaffRow, service: ServiceRow,
                           day: Range, start: int, write: InsertOutcome, a: AppointmentRow)
    requires db.appointments.Table? && a in db.appointments.rows && AppointmentInDay(a, store.id, req.staffId, day)
    requires Overlaps(start, OccupiedEnd(start, req, service), a.startAt, BusyRange(a).end)
    ensures Reserve(db, off, req, store, staff, service, day, start, write) == Fail(Conflict, Taken)
  {
    var appts := Select(db.appointments, AppointmentsOfDay(store.id, req.staffId, day)).value;
    HitsBusyIff(start, OccupiedEnd(start, req, service), appts);
  }

  /** With the appointments clear, a block that applies, reaches into the day and meets the span answers 409 "blocked". */
  lemma BlockedSpan(db: Database, off: int -> int, req: Request, store: StoreRow, staff: StaffRow, service: ServiceRow,
                    day: Range, start: int, write: InsertOutcome, bl: BlockRow)
    requires db.appointments.Table?
    requires forall a :: a in db.appointments.rows && AppointmentInDay(a, store.id, req.staffId, day) ==>
      !Overlaps(start, OccupiedEnd(start, req, service), a.startAt, BusyRange(a).end)
    requires db.blocks.Table? && bl in db.blocks.rows && BlockInDay(bl, store.id, req.staffId, day, false)
    requires Overlaps(start, OccupiedEnd(start, req, service), bl.startAt, bl.endAt)
    ensures Reserve(db, off, req, store, staff, service, day, start, write) == Fail(Conflict, Blocked)
  {
    var end := OccupiedEnd(start, req, service);
    var appts := Select(db.appointments, AppointmentsOfDay(store.id, req.staffId, day)).value;
    var blocks := Select(db.blocks, BlocksOfDay(store.id, req.staffId, day)).value;
    HitsBusyIff(start, end, appts);
    HitsBlockedIff(start, end, blocks);
  }

  /**
   * The status of an appointment is not looked at: cancelling one (or
   * confirming it again) leaves the outcome of the conflict checks as it was.
   */
  lemma StatusIgnored(db: Database, off: int -> int, req: Request, store: StoreRow, staff: StaffRow, service: ServiceRow,
                      day: Range, start: int, write: InsertOutcome, i: int, s: Status)
    requires db.appointments.Table? && 0 <= i < |db.appointments.rows|
    ensures var rows := db.appointments.rows;
      Reserve(db.(appointments := Table(rows[i := rows[i].(status := s)])), off, req, store, staff, service, day, start, write)
      == Reserve(db, off, req, store, staff, service, day, start, write)
  {
    var p := AppointmentsOfDay(store.id, req.staffId, day);
    var rows := db.appointments.rows;
    var db2 := db.(appointments := Table(rows[i := rows[i].(status := s)]));
    FilterBusyIgnoresStatus(rows, i, s, p);
    ReserveSameBusy(db2, db, off, req, store, staff, service, day, start, write);
  }

  /** `Reserve` reads the appointments only through their busy spans. */
  lemma ReserveSameBusy(db1: Database, db2: Database, off: int -> int, req: Request, store: StoreRow, staff: StaffRow,
                        service: ServiceRow, day: Range, start: int, write: InsertOutcome)
    requires db1.appointments.Table? && db2.appointments.Table? && db1.blocks == db2.blocks
    requires var p := AppointmentsOfDay(store.id, req.staffId, day);
      BusyOf(Filter(db1.appointments.rows, p)) == BusyOf(Filter(db2.appointments.rows, p))
    ensures Reserve(db1, off, req, store, staff, service, day, start, write)
      == Reserve(db2, off, req, store, staff, service, day, start, write)
  {
    var p := AppointmentsOfDay(store.id, req.staffId, day);
    assert Select(db1.appointments, p) == Ok(Filter(db1.appointments.rows, p));
    assert Select(db2.appointments, p) == Ok(Filter(db2.appointments.rows, p));
  }

  /**
   * Getting past the schedule checks means: the request converted, the start
   * respects the lead time, the day window exists, and an open shift of the
   * staff member on the weekday holds the occupied span.
   */
  lemma ScheduleOk(db: Database, off: int -> int, now: int, weekday: Option<int>, req: Request,
                   store: StoreRow, staff: StaffRow, service: ServiceRow,
                   start: Option<int>, window: Option<Range>, spanOf: Shift -> Option<Range>,
                   write: InsertOutcome, b: Booked)
    requires Schedule(db, off, now, weekday, req, store, staff, service, start, window, spanOf, write) == Ok(b)
    ensures start.Some? && window.Some?
    ensures start.value >= now + req.lead
    ensures InOpenShift(db, spanOf, store.id, req.staffId, weekday, start.value, OccupiedEnd(start.value, req, service))
    ensures Reserve(db, off, req, store, staff, service, window.value, start.value, write) == Ok(b)
  {
    assert weekday.Some?;
    var t := start.value;
    var end := OccupiedEnd(t, req, service);
    var p := HoursOn(store.id, req.staffId, weekday.value);
    var hours := Select(db.hours, p).value;
    var shifts := OpenShifts(hours);
    var xs := ShiftSpans(spanOf, shifts);
    assert FirstFit(xs, t, end) == Some(true);
    var i :| 0 <= i < |xs| && Holds(xs[i], t, end);
    OpenShiftsFromOpenRows(hours);
    assert shifts[i] in shifts;
    var h :| h in hours && h.isOpen && shifts[i] == ShiftOf(h);
    assert h in db.hours.rows && p(h);
    assert Holds(spanOf(ShiftOf(h)), t, end);
  }

  /** A start earlier than `now` plus the lead time is refused with 400, naming the lead. */
  lemma TooSoon(db: Database, off: int -> int, now: int, weekday: Option<int>, req: Request,
                store: StoreRow, staff: StaffRow, service: ServiceRow,
                t: int, window: Option<Range>, spanOf: Shift -> Option<Range>, write: InsertOutcome)
    requires t < now + req.lead
    ensures Schedule(db, off, now, weekday, req, store, staff, service, Some(t), window, spanOf, write)
      == Fail(BadRequest, "Antecedência mínima: " + IntText(req.lead) + " minutos.")
  {
  }

  /** A day on which the staff member has no open shift is refused with 400 "closed". */
  lemma ClosedDay(db: Database, off: int -> int, now: int, weekday: Option<int>, req: Request,
                  store: StoreRow, staff: StaffRow, service: ServiceRow,
                  t: int, day: Range, spanOf: Shift -> Option<Range>, write: InsertOutcome)
    requires t >= now + req.lead && db.hours.Table? && weekday.Some?
    requires forall h :: h in db.hours.rows && HoursOf(h, store.id, req.staffId, weekday.value) ==> !h.isOpen
    ensures Schedule(db, off, now, weekday, req, store, staff, service, Some(t), Some(day), spanOf, write)
      == Fail(BadRequest, Closed)
  {
    ClosedHours(db.hours.rows, store.id, req.staffId, weekday.value);
  }

  /**
   * When the server cannot read the weekday of a date that still converts
   * (NaN, as for a month 13), the working-hour query fails and the request is
   * answered 500, whatever the rows say.
   */
  lemma NaNWeekdayFails(db: Database, off: int -> int, now: int, req: Request,
                        store: StoreRow, staff: StaffRow, service: ServiceRow,
                        t: int, day: Range, spanOf: Shift -> Option<Range>, write: InsertOutcome)
    requires t >= now + req.lead
    ensures var r := Schedule(db, off, now, None, req, store, staff, service, Some(t), Some(day), spanOf, write);
      r.Fail? && r.status == InternalError
    ensures db.hours.Table? ==>
      Schedule(db, off, now, None, req, store, staff, service, Some(t), Some(day), spanOf, write)
        == Fail(InternalError, NaNRefused)
  {
  }

  /**
   * When the staff member has open shifts that day, all of them convert, and
   * none holds the occupied span, the request is refused with 400 "outside
   * the working hours".
   */
  lemma OutsideShifts(db: Database, off: int -> int, now: int, weekday: Option<int>, req: Request,
                      store: StoreRow, staff: StaffRow, service: ServiceRow,
                      t: int, day: Range, spanOf: Shift -> Option<Range>, write: InsertOutcome)
    requires t >= now + req.lead && db.hours.Table? && weekday.Some?
    requires exists h :: h in db.hours.rows && HoursOf(h, store.id, req.staffId, weekday.value) && h.isOpen
    requires forall h :: h in db.hours.rows && HoursOf(h, store.id, req.staffId, weekday.value) && h.isOpen ==>
      spanOf(ShiftOf(h)).Some? && !Holds(spanOf(ShiftOf(h)), t, OccupiedEnd(t, req, service))
    ensures Schedule(db, off, now, weekday, req, store, staff, service, Some(t), Some(day), spanOf, write)
      == Fail(BadRequest, OutsideHours)
  {
    var p := HoursOn(store.id, req.staffId, weekday.value);
    var hours := Select(db.hours, p).value;
    OpenShiftsFromOpenRows(hours);
    var h0 :| h0 in db.hours.rows && HoursOf(h0, store.id, req.staffId, weekday.value) && h0.isOpen;
    assert p(h0) && h0 in hours;
    assert ShiftOf(h0) in OpenShifts(hours);
    NoShiftFits(hours, spanOf, t, OccupiedEnd(t, req, service));
  }

  /** When every open row's shift converts and none holds the span, the search answers false. */
  lemma NoShiftFits(hours: seq<WorkingHourRow>, spanOf: Shift -> Option<Range>, t: int, end: int)
    requires forall h :: h in hours && h.isOpen ==> spanOf(ShiftOf(h)).Some? && !Holds(spanOf(ShiftOf(h)), t, end)
    ensures FirstFit(ShiftSpans(spanOf, OpenShifts(hours)), t, end) == Some(false)
  {
    var shifts := OpenShifts(hours);
    var xs := ShiftSpans(spanOf, shifts);
    OpenShiftsFromOpenRows(hours);
    forall i | 0 <= i < |xs|
      ensures xs[i].Some? && !Holds(xs[i], t, end)
    {
      assert shifts[i] in shifts;
    }
    var spans := AllSome(xs).value;
    FirstFitOfSpans(xs, spans, t, end);
    forall i | 0 <= i < |spans|
      ensures !(spans[i].start <= t && end <= spans[i].end)
    {
      assert xs[i] == Some(spans[i]);
    }
  }

  /** Past the lookups: the store, staff member and service were found, and the schedule checks gave the booking. */
  lemma RequestOk(db: Database, off: int -> int, now: int, weekday: Option<int>, req: Request, write: InsertOutcome, b: Booked)
    requires BookRequest(db, off, now, weekday, req, write) == Ok(b)
    ensures exists store, staff, service ::
      FoundIn(db, req, store, staff, service)
      && Schedule(db, off, now, weekday, req, store, staff, service,
           LocalToUtc(off, req.date, req.time), DayRangeUtc(off, req.date), SpanOn(off, req.date), write) == Ok(b)
  {
    var store := LookupOne(db.stores, StoreBySlug(req.slug), "Loja não encontrada.").value;
    var staff := LookupOne(db.staff, StaffOfStore(req.staffId, store.id), "Profissional não encontrado nesta loja.").value;
    var service := LookupOne(db.services, ServiceOfStore(req.serviceId, store.id), "Serviço não encontrado nesta loja.").value;
    assert FoundIn(db, req, store, staff, service);
  }

  /** A slug no store has is answered 404, before anything else is read. */
  lemma UnknownStore(db: Database, off: int -> int, now: int, weekday: Option<int>, body: Body, write: InsertOutcome)
    requires Validate(body).Ok? && db.stores.Table?
    requires forall x :: x in db.stores.rows ==> x.slug != Read(body).slug
    ensures Book(db, off, now, weekday, body, write) == Fail(NotFound, "Loja não encontrada.")
  {
    FilterNone(db.stores.rows, StoreBySlug(Read(body).slug));
  }

  /** A staff member of another store is answered 404: the lookup is scoped to the slug's store. */
  lemma StaffElsewhere(db: Database, off: int -> int, now: int, weekday: Option<int>, req: Request, write: InsertOutcome,
                       store: StoreRow)
    requires LookupOne(db.stores, StoreBySlug(req.slug), "Loja não encontrada.") == Ok(store)
    requires db.staff.Table?
    requires forall x :: x in db.staff.rows && x.id == req.staffId ==> x.storeId != store.id
    ensures BookRequest(db, off, now, weekday, req, write) == Fail(NotFound, "Profissional não encontrado nesta loja.")
  {
    FilterNone(db.staff.rows, StaffOfStore(req.staffId, store.id));
  }

  /** A request the checks refuse is answered 400 whatever the database, the zone, the clock or the insert would do. */
  lemma InvalidBodyIgnoresDatabase(db1: Database, db2: Database, off1: int -> int, off2: int -> int, now1: int, now2: int,
                                   weekday1: Option<int>, weekday2: Option<int>, body: Body,
                                   write1: InsertOutcome, write2: InsertOutcome)
    requires !Acceptable(Read(body))
    ensures Book(db1, off1, now1, weekday1, body, write1) == Book(db2, off2, now2, weekday2, body, write2)
    ensures Book(db1, off1, now1, weekday1, body, write1).Fail?
    ensures Book(db1, off1, now1, weekday1, body, write1).status == BadRequest
  {
    CheckAccepts(Read(body));
  }

  /**
   * A created booking, in the terms of the request and the results of the
   * conversions: the start is the converted requested date and time and
   * respects the lead time; the store is the slug's, and the staff member and
   * service are that store's; the row runs for the service's duration, keeps
   * the buffer as its snapshot and is confirmed; an open shift holds the
   * occupied span (service and buffer), which meets none of the day's
   * appointments and blocks; and the reply repeats all of it.
   */
  ghost predicate BookableWith(db: Database, off: int -> int, now: int, weekday: Option<int>, req: Request,
                               conv: Option<int>, window: Option<Range>, spanOf: Shift -> Option<Range>, b: Booked) {
    var start := b.row.startAt;
    conv == Some(start) && start >= now + req.lead && window.Some?
    && b.reply.date == req.date && b.reply.time == LocalHHMM(off, start)
    && b.reply.startAt == start && b.reply.endAt == b.row.endAt && b.reply.bufferAfter == req.buffer
    && exists store, staff, service :: BookedFrom(db, weekday, req, window.value, spanOf, store, staff, service, b)
  }

  /** The part of a booking that rests on the rows found: the row, the reply's names, the shift and the clear day. */
  ghost predicate BookedFrom(db: Database, weekday: Option<int>, req: Request, day: Range, spanOf: Shift -> Option<Range>,
                             store: StoreRow, staff: StaffRow, service: ServiceRow, b: Booked) {
    var start := b.row.startAt;
    var end := b.row.endAt + req.buffer;
    FoundIn(db, req, store, staff, service)
    && b.row == AppointmentRow(store.id, req.staffId, req.serviceId, req.name, req.phone,
         start, start + service.durationMinutes, Some(req.buffer), Confirmed)
    && b.reply.storeSlug == store.slug && b.reply.storeName == store.name
    && b.reply.staffId == staff.id && b.reply.staffName == staff.name
    && b.reply.serviceId == service.id && b.reply.serviceName == service.name
    && b.reply.durationMinutes == service.durationMinutes && b.reply.priceCents == service.priceCents
    && InOpenShift(db, spanOf, store.id, req.staffId, weekday, start, end)
    && ClearDay(db, store.id, req.staffId, day, start, end)
  }

  /** A booking of the request, with the conversions of the requested date and time and of the shifts on that date. */
  ghost predicate Bookable(db: Database, off: int -> int, now: int, weekday: Option<int>, req: Request, b: Booked) {
    BookableWith(db, off, now, weekday, req,
      LocalToUtc(off, req.date, req.time), DayRangeUtc(off, req.date), SpanOn(off, req.date), b)
  }

  /** What the schedule checks let through for found rows is a booking of the request. */
  lemma ScheduleBookable(db: Database, off: int -> int, now: int, weekday: Option<int>, req: Request,
                         store: StoreRow, staff: StaffRow, service: ServiceRow,
                         conv: Option<int>, window: Option<Range>, spanOf: Shift -> Option<Range>,
                         write: InsertOutcome, b: Booked)
    requires FoundIn(db, req, store, staff, service)
    requires Schedule(db, off, now, weekday, req, store, staff, service, conv, window, spanOf, write) == Ok(b)
    ensures BookableWith(db, off, now, weekday, req, conv, window, spanOf, b)
    ensures write == Created(b.reply.id)
  {
    ScheduleOk(db, off, now, weekday, req, store, staff, service, conv, window, spanOf, write, b);
    ReserveBookable(db, off, now, weekday, req, store, staff, service, conv.value, window.value, spanOf, write, b);
  }

  /** A start past the lead time and in an open shift that the conflict checks and the insert let through is a booking. */
  lemma ReserveBookable(db: Database, off: int -> int, now: int, weekday: Option<int>, req: Request,
                        store: StoreRow, staff: StaffRow, service: ServiceRow,
                        t: int, day: Range, spanOf: Shift -> Option<Range>, write: InsertOutcome, b: Booked)
    requires FoundIn(db, req, store, staff, service) && t >= now + req.lead
    requires InOpenShift(db, spanOf, store.id, req.staffId, weekday, t, OccupiedEnd(t, req, service))
    requires Reserve(db, off, req, store, staff, service, day, t, write) == Ok(b)
    ensures BookableWith(db, off, now, weekday, req, Some(t), Some(day), spanOf, b)
    ensures write == Created(b.reply.id)
  {
    ReserveOk(db, off, req, store, staff, service, day, t, write, b);
    InsertOk(off, req, store, staff, service, t, write, b);
    ReserveBookedFrom(db, off, weekday, req, store, staff, service, t, day, spanOf, write, b);
  }

  /** The row a reservation stores rests on the rows found, the open shift and the clear day. */
  lemma ReserveBookedFrom(db: Database, off: int -> int, weekday: Option<int>, req: Request,
                          store: StoreRow, staff: StaffRow, service: ServiceRow,
                          t: int, day: Range, spanOf: Shift -> Option<Range>, write: InsertOutcome, b: Booked)
    requires FoundIn(db, req, store, staff, service)
    requires InOpenShift(db, spanOf, store.id, req.staffId, weekday, t, OccupiedEnd(t, req, service))
    requires Reserve(db, off, req, store, staff, service, day, t, write) == Ok(b)
    ensures b.row.startAt == t
    ensures BookedFrom(db, weekday, req, day, spanOf, store, staff, service, b)
  {
    ReserveOk(db, off, req, store, staff, service, day, t, write, b);
    InsertOk(off, req, store, staff, service, t, write, b);
    var end := b.row.endAt + req.buffer;
    assert OccupiedEnd(t, req, service) == end by {
      assert OccupiedEnd(t, req, service) == AddMinutes(t, service.durationMinutes + req.buffer);
    }
    assert b.row == AppointmentRow(store.id, req.staffId, req.serviceId, req.name, req.phone,
      t, t + service.durationMinutes, Some(req.buffer), Confirmed);
    assert InOpenShift(db, spanOf, store.id, req.staffId, weekday, t, end);
    assert ClearDay(db, store.id, req.staffId, day, t, end);
  }

  /** Every booking the lookups and schedule checks let through is bookable, with the id the insert returned. */
  lemma RequestBookable(db: Database, off: int -> int, now: int, weekday: Option<int>, req: Request, write: InsertOutcome, b: Booked)
    requires BookRequest(db, off, now, weekday, req, write) == Ok(b)
    ensures Bookable(db, off, now, weekday, req, b)
    ensures write == Created(b.reply.id)
  {
    RequestOk(db, off, now, weekday, req, write, b);
    var conv, window, spanOf := LocalToUtc(off, req.date, req.time), DayRangeUtc(off, req.date), SpanOn(off, req.date);
    var store, staff, service :| FoundIn(db, req, store, staff, service)
      && Schedule(db, off, now, weekday, req, store, staff, service, conv, window, spanOf, write) == Ok(b);
    ScheduleBookable(db, off, now, weekday, req, store, staff, service, conv, window, spanOf, write, b);
  }

  /** The handler creates only acceptable, bookable requests. */
  lemma BookOk(db: Database, off: int -> int, now: int, weekday: Option<int>, body: Body, write: InsertOutcome, b: Booked)
    requires Book(db, off, now, weekday, body, write) == Ok(b)
    ensures Acceptable(Read(body))
    ensures Bookable(db, off, now, weekday, Read(body), b)
    ensures write == Created(b.reply.id)
  {
    CheckAccepts(Read(body));
    RequestBookable(db, off, now, weekday, Read(body), write, b);
  }

  /** With a fixed offset the reply's local time is the requested time. */
  lemma BookEchoesTime(db: Database, off: int -> int, k: int, now: int, weekday: Option<int>, body: Body,
                       write: InsertOutcome, b: Booked)
    requires ConstantOffset(off, k)
    requires Book(db, off, now, weekday, body, write) == Ok(b)
    ensures b.reply.time == Read(body).time
  {
    BookOk(db, off, now, weekday, body, write, b);
    var req := Read(body);
    assert LocalToUtc(off, req.date, req.time) == Some(b.row.startAt);
    FixedOffsetEcho(off, k, req.date, req.time, b.row.startAt);
  }

  /**
   * The converse of the schedule checks: a start past the lead time that an
   * open shift holds, on a day whose open shifts all convert, clear of the
   * day's appointments and blocks, is booked once the insert returns a row.
   */
  lemma ScheduleSucceeds(db: Database, off: int -> int, now: int, weekday: Option<int>, req: Request,
                         store: StoreRow, staff: StaffRow, service: ServiceRow,
                         t: int, day: Range, spanOf: Shift -> Option<Range>, write: InsertOutcome)
    requires t >= now + req.lead
    requires InOpenShift(db, spanOf, store.id, req.staffId, weekday, t, OccupiedEnd(t, req, service))
    requires forall h :: h in db.hours.rows && HoursOf(h, store.id, req.staffId, weekday.value) && h.isOpen ==>
      spanOf(ShiftOf(h)).Some?
    requires ClearDay(db, store.id, req.staffId, day, t, OccupiedEnd(t, req, service))
    requires write.Created?
    ensures Schedule(db, off, now, weekday, req, store, staff, service, Some(t), Some(day), spanOf, write).Ok?
  {
    var end := OccupiedEnd(t, req, service);
    var shifts := OpenShifts(Filter(db.hours.rows, HoursOn(store.id, req.staffId, weekday.value)));
    assert shifts != [] && FirstFit(ShiftSpans(spanOf, shifts), t, end) == Some(true) by {
      var p := HoursOn(store.id, req.staffId, weekday.value);
      var hours := Filter(db.hours.rows, p);
      var h :| h in db.hours.rows && HoursOf(h, store.id, req.staffId, weekday.value) && h.isOpen
        && Holds(spanOf(ShiftOf(h)), t, end);
      assert p(h) && h in hours;
      forall x | x in hours && x.isOpen
        ensures spanOf(ShiftOf(x)).Some?
      {
        assert x in db.hours.rows && p(x);
      }
      SomeShiftFits(hours, spanOf, t, end, h);
    }
    ScheduleReachesReserve(db, off, now, weekday, req, store, staff, service, t, day, spanOf, write);
    ReserveClear(db, off, req, store, staff, service, day, t, write);
  }

  /** Past the lead time, with an open shift that holds the span, scheduling hands over to `Reserve`. */
  lemma ScheduleReachesReserve(db: Database, off: int -> int, now: int, weekday: Option<int>, req: Request,
                               store: StoreRow, staff: StaffRow, service: ServiceRow,
                               t: int, day: Range, spanOf: Shift -> Option<Range>, write: InsertOutcome)
    requires t >= now + req.lead && db.hours.Table? && weekday.Some?
    requires var shifts := OpenShifts(Filter(db.hours.rows, HoursOn(store.id, req.staffId, weekday.value)));
      shifts != [] && FirstFit(ShiftSpans(spanOf, shifts), t, OccupiedEnd(t, req, service)) == Some(true)
    ensures Schedule(db, off, now, weekday, req, store, staff, service, Some(t), Some(day), spanOf, write)
      == Reserve(db, off, req, store, staff, service, day, t, write)
  {
    var p := HoursOn(store.id, req.staffId, weekday.value);
    assert Select(db.hours, p) == Ok(Filter(db.hours.rows, p));
  }

  /** When every open row's shift converts and one of them holds the span, the search answers true. */
  lemma SomeShiftFits(hours: seq<WorkingHourRow>, spanOf: Shift -> Option<Range>, t: int, end: int, h: WorkingHourRow)
    requires forall x :: x in hours && x.isOpen ==> spanOf(ShiftOf(x)).Some?
    requires h in hours && h.isOpen && Holds(spanOf(ShiftOf(h)), t, end)
    ensures OpenShifts(hours) != []
    ensures FirstFit(ShiftSpans(spanOf, OpenShifts(hours)), t, end) == Some(true)
  {
    var shifts := OpenShifts(hours);
    var xs := ShiftSpans(spanOf, shifts);
    OpenShiftsFromOpenRows(hours);
    assert ShiftOf(h) in shifts;
    forall i | 0 <= i < |xs|
      ensures xs[i].Some?
    {
      assert shifts[i] in shifts;
    }
    var spans := AllSome(xs).value;
    FirstFitOfSpans(xs, spans, t, end);
    var i :| 0 <= i < |shifts| && shifts[i] == ShiftOf(h);
    assert xs[i] == Some(spans[i]);
  }

  /**
   * The converse of `BookOk`: an acceptable request whose slug names exactly
   * one store, whose staff member and service are exactly one of that store's,
   * with a usable duration, and whose converted start passes the schedule
   * checks, is booked once the insert returns a row.
   */
  lemma BookSucceeds(db: Database, off: int -> int, now: int, weekday: Option<int>, body: Body, write: InsertOutcome,
                     store: StoreRow, staff: StaffRow, service: ServiceRow, t: int)
    requires Acceptable(Read(body))
    requires db.stores.Table? && Filter(db.stores.rows, StoreBySlug(Read(body).slug)) == [store]
    requires db.staff.Table? && Filter(db.staff.rows, StaffOfStore(Read(body).staffId, store.id)) == [staff]
    requires db.services.Table? && Filter(db.services.rows, ServiceOfStore(Read(body).serviceId, store.id)) == [service]
    requires 0 < service.durationMinutes <= 8 * 60
    requires LocalToUtc(off, Read(body).date, Read(body).time) == Some(t) && DayRangeUtc(off, Read(body).date).Some?
    requires t >= now + Read(body).lead
    requires InOpenShift(db, SpanOn(off, Read(body).date), store.id, Read(body).staffId, weekday, t,
      OccupiedEnd(t, Read(body), service))
    requires forall h :: h in db.hours.rows && HoursOf(h, store.id, Read(body).staffId, weekday.value) && h.isOpen ==>
      ShiftSpan(off, Read(body).date, ShiftOf(h)).Some?
    requires ClearDay(db, store.id, Read(body).staffId, DayRangeUtc(off, Read(body).date).value, t,
      OccupiedEnd(t, Read(body), service))
    requires write.Created?
    ensures Book(db, off, now, weekday, body, write).Ok?
  {
    var req := Read(body);
    CheckAccepts(req);
    var day := DayRangeUtc(off, req.date).value;
    var spanOf := SpanOn(off, req.date);
    ScheduleSucceeds(db, off, now, weekday, req, store, staff, service, t, day, spanOf, write);
    LookupsSucceed(db, req, store, staff, service);
    RequestSucceeds(db, off, now, weekday, req, write, store, staff, service);
  }

  /** A filter that keeps exactly one row makes each lookup answer that row. */
  lemma LookupsSucceed(db: Database, req: Request, store: StoreRow, staff: StaffRow, service: ServiceRow)
    requires db.stores.Table? && Filter(db.stores.rows, StoreBySlug(req.slug)) == [store]
    requires db.staff.Table? && Filter(db.staff.rows, StaffOfStore(req.staffId, store.id)) == [staff]
    requires db.services.Table? && Filter(db.services.rows, ServiceOfStore(req.serviceId, store.id)) == [service]
    ensures LookupOne(db.stores, StoreBySlug(req.slug), "Loja não encontrada.") == Ok(store)
    ensures LookupOne(db.staff, StaffOfStore(req.staffId, store.id), "Profissional não encontrado nesta loja.") == Ok(staff)
    ensures LookupOne(db.services, ServiceOfStore(req.serviceId, store.id), "Serviço não encontrado nesta loja.") == Ok(service)
  {
    assert MaybeSingle([store]) == OneRow(store);
    assert MaybeSingle([staff]) == OneRow(staff);
    assert MaybeSingle([service]) == OneRow(service);
  }

  /** Found rows with a usable duration go on to the schedule checks, whose verdict is the handler's. */
  lemma RequestSucceeds(db: Database, off: int -> int, now: int, weekday: Option<int>, req: Request, write: InsertOutcome,
                        store: StoreRow, staff: StaffRow, service: ServiceRow)
    requires LookupOne(db.stores, StoreBySlug(req.slug), "Loja não encontrada.") == Ok(store)
    requires LookupOne(db.staff, StaffOfStore(req.staffId, store.id), "Profissional não encontrado nesta loja.") == Ok(staff)
    requires LookupOne(db.services, ServiceOfStore(req.serviceId, store.id), "Serviço não encontrado nesta loja.") == Ok(service)
    requires 0 < service.durationMinutes <= 8 * 60
    ensures BookRequest(db, off, now, weekday, req, write)
      == Schedule(db, off, now, weekday, req, store, staff, service,
           LocalToUtc(off, req.date, req.time), DayRangeUtc(off, req.date), SpanOn(off, req.date), write)
  {
  }
}
