/**
 * How the availability list and the booking checks relate. They share the
 * interval predicates (`Overlaps`, the busy spans, the shift spans), so a
 * start the list offers passes every schedule check of the booking route,
 * provided both routes read the same weekday. They differ in four places,
 * each stated here: the grid (from the shift start against from the hour),
 * the block window (`lte` against `lt` at the window end), the window
 * itself, which stops at local 23:59, and the label, which converts back to
 * the offered start with a fixed offset but not across a fall-back change.
 */
module Agreement {
  import opened Results
  import opened Tz
  import opened Data
  import opened Validators
  import opened Availability
  import opened Booking
  import Arith

  /** The open shifts the booking route reads for a weekday convert, one span each, into `spans`. */
  ghost predicate ShiftsConvert(db: Database, off: int -> int, date: string, storeId: string, staffId: string,
                                weekday: Option<int>, spans: seq<Range>) {
    db.hours.Table? && weekday.Some?
    && AllSome(ShiftSpans(SpanOn(off, date), OpenShifts(Filter(db.hours.rows, HoursOn(storeId, staffId, weekday.value)))))
      == Some(spans)
  }

  /**
   * A start that the availability walk offers for the span of one of the
   * open shifts passes the booking route's schedule checks for the same
   * staff member, date, service length, buffer and lead: it respects the
   * lead, an open shift holds it, and it is clear of the day's appointments
   * and blocks. So once the insert returns a row, it is booked.
   */
  lemma OfferedStartBooks(db: Database, off: int -> int, now: int, weekday: Option<int>, p: Params, req: Request,
                          store: StoreRow, staff: StaffRow, service: ServiceRow, day: Range,
                          appts: seq<AppointmentRow>, blocks: seq<BlockRow>, spans: seq<Range>, i: int, t: int,
                          write: InsertOutcome)
    requires p.step > 0
    requires req.staffId == p.staffId && req.date == p.date && req.lead == p.lead && req.buffer == p.buffer
    requires service.durationMinutes == p.service
    requires ShiftsConvert(db, off, p.date, store.id, p.staffId, weekday, spans) && 0 <= i < |spans|
    requires db.appointments.Table? &&
      forall a :: a in appts <==> a in db.appointments.rows && AppointmentInDay(a, store.id, p.staffId, day)
    requires db.blocks.Table? &&
      forall b :: b in blocks <==> b in db.blocks.rows && BlockInDay(b, store.id, p.staffId, day, true)
    requires OfferedBy(spans[i], p.step, DayChecks(p, now, appts, blocks), t)
    requires write.Created?
    ensures Schedule(db, off, now, weekday, req, store, staff, service, Some(t), Some(day), SpanOn(off, req.date), write).Ok?
  {
    OfferedStartIsFree(spans[i], p, now, appts, blocks, t);
    assert OccupiedEnd(t, req, service) == t + p.service + p.buffer;
    OfferedInShift(db, off, p.date, store.id, p.staffId, weekday, spans, i, t, OccupiedEnd(t, req, service));
    OfferedClear(db, store.id, p.staffId, day, appts, blocks, t, OccupiedEnd(t, req, service));
    ScheduleSucceeds(db, off, now, weekday, req, store, staff, service, t, day, SpanOn(off, req.date), write);
  }

  /**
   * With a fixed offset, the label the list shows for a start whose local
   * time falls on the list's date converts back, on that date, to the start.
   */
  lemma LabelConverts(off: int -> int, k: int, date: string, c: CivilDate, t: int)
    requires ConstantOffset(off, k) && ParseDate(date) == Some(c)
    requires DayNumber(c) * MinutesPerDay <= t + k < DayNumber(c) * MinutesPerDay + MinutesPerDay
    ensures LocalToUtc(off, date, LocalHHMM(off, t)) == Some(t)
  {
    FixedTwoPassOnDay(off, k, c, t);
    ClockConvertsTo(off, date, LocalHHMM(off, t), c, (t + off(t)) % MinutesPerDay, t);
  }

  /** A date and clock that read convert to whatever the two passes give from their naive guess. */
  lemma ClockConvertsTo(off: int -> int, date: string, clock: string, c: CivilDate, m: int, t: int)
    requires ParseDate(date) == Some(c) && ParseClock(clock) == Some(m) && TwoPass(off, DateUtc(c, 0, m)) == t
    ensures LocalToUtc(off, date, clock) == Some(t)
  {
    LocalToUtcAt(off, date, clock, c, m);
  }

  /** With a fixed offset, the two passes from the date at the local minute of `t`, on the date `t` falls on, give `t`. */
  lemma FixedTwoPassOnDay(off: int -> int, k: int, c: CivilDate, t: int)
    requires ConstantOffset(off, k)
    requires DayNumber(c) * MinutesPerDay <= t + k < DayNumber(c) * MinutesPerDay + MinutesPerDay
    ensures TwoPass(off, DateUtc(c, 0, (t + off(t)) % MinutesPerDay)) == t
  {
    var d := DayNumber(c);
    Arith.DivModUnique(t + k, MinutesPerDay, d, t + k - d * MinutesPerDay);
    assert off(t) == k;
    TwoPassConstant(off, k, DateUtc(c, 0, (t + k) % MinutesPerDay));
  }

  /**
   * The offered label, sent back as the requested time, books: with a fixed
   * offset the booking route converts it to the offered start, which passes
   * the schedule checks.
   */
  lemma OfferedLabelBooks(db: Database, off: int -> int, k: int, now: int, weekday: Option<int>, p: Params, req: Request,
                          store: StoreRow, staff: StaffRow, service: ServiceRow, day: Range,
                          appts: seq<AppointmentRow>, blocks: seq<BlockRow>, spans: seq<Range>, i: int, t: int,
                          c: CivilDate, write: InsertOutcome)
    requires ConstantOffset(off, k) && ParseDate(p.date) == Some(c)
    requires DayNumber(c) * MinutesPerDay <= t + k < DayNumber(c) * MinutesPerDay + MinutesPerDay
    requires p.step > 0
    requires req.staffId == p.staffId && req.date == p.date && req.lead == p.lead && req.buffer == p.buffer
    requires req.time == LocalHHMM(off, t)
    requires service.durationMinutes == p.service
    requires ShiftsConvert(db, off, p.date, store.id, p.staffId, weekday, spans) && 0 <= i < |spans|
    requires db.appointments.Table? &&
      forall a :: a in appts <==> a in db.appointments.rows && AppointmentInDay(a, store.id, p.staffId, day)
    requires db.blocks.Table? &&
      forall b :: b in blocks <==> b in db.blocks.rows && BlockInDay(b, store.id, p.staffId, day, true)
    requires OfferedBy(spans[i], p.step, DayChecks(p, now, appts, blocks), t)
    requires write.Created?
    ensures LocalToUtc(off, req.date, req.time) == Some(t)
    ensures Schedule(db, off, now, weekday, req, store, staff, service,
      LocalToUtc(off, req.date, req.time), Some(day), SpanOn(off, req.date), write).Ok?
  {
    LabelConverts(off, k, p.date, c, t);
    OfferedStartBooks(db, off, now, weekday, p, req, store, staff, service, day, appts, blocks, spans, i, t, write);
  }

  /**
   * On a fall-back day (one hour ahead until `change`, then none) the label of
   * a start half an hour before the change converts to the instant half an
   * hour after it: the two passes pick the later of the two instants that show
   * that wall time, so the booking is not the start the list offered.
   */
  lemma FallBackLabelLater(off: int -> int, change: int, date: string, c: CivilDate)
    requires SingleTransition(off, change, 60, 0) && ParseDate(date) == Some(c)
    requires DayNumber(c) * MinutesPerDay <= change + 30 < DayNumber(c) * MinutesPerDay + MinutesPerDay
    ensures LocalHHMM(off, change - 30) == LocalHHMM(off, change + 30)
    ensures LocalToUtc(off, date, LocalHHMM(off, change - 30)) == Some(change + 30)
  {
    FallBackTwoPass(off, change, c);
    ClockConvertsTo(off, date, LocalHHMM(off, change - 30), c, (change - 30 + off(change - 30)) % MinutesPerDay, change + 30);
  }

  /** Both instants show the same wall time, and the two passes from it give the later one. */
  lemma FallBackTwoPass(off: int -> int, change: int, c: CivilDate)
    requires SingleTransition(off, change, 60, 0)
    requires DayNumber(c) * MinutesPerDay <= change + 30 < DayNumber(c) * MinutesPerDay + MinutesPerDay
    ensures change - 30 + off(change - 30) == change + 30 + off(change + 30) == change + 30
    ensures TwoPass(off, DateUtc(c, 0, (change - 30 + off(change - 30)) % MinutesPerDay)) == change + 30
  {
    var d := DayNumber(c);
    Arith.DivModUnique(change + 30, MinutesPerDay, d, change + 30 - d * MinutesPerDay);
    assert off(change - 30) == 60 && off(change + 30) == 0;
  }

  /** A start of a converted shift span that leaves room before its end is held by an open shift, and every open shift converts. */
  lemma OfferedInShift(db: Database, off: int -> int, date: string, storeId: string, staffId: string, weekday: Option<int>,
                       spans: seq<Range>, i: int, t: int, end: int)
    requires ShiftsConvert(db, off, date, storeId, staffId, weekday, spans) && 0 <= i < |spans|
    requires spans[i].start <= t && end <= spans[i].end
    ensures InOpenShift(db, SpanOn(off, date), storeId, staffId, weekday, t, end)
    ensures forall h :: h in db.hours.rows && HoursOf(h, storeId, staffId, weekday.value) && h.isOpen ==>
      SpanOn(off, date)(ShiftOf(h)).Some?
  {
    var spanOf := SpanOn(off, date);
    var p := HoursOn(storeId, staffId, weekday.value);
    var hours := Filter(db.hours.rows, p);
    var shifts := OpenShifts(hours);
    var xs := ShiftSpans(spanOf, shifts);
    OpenShiftsFromOpenRows(hours);
    assert xs[i] == Some(spans[i]);
    assert shifts[i] in shifts;
    var h :| h in hours && h.isOpen && shifts[i] == ShiftOf(h);
    assert h in db.hours.rows && p(h);
    assert Holds(spanOf(ShiftOf(h)), t, end);
    forall x | x in db.hours.rows && HoursOf(x, storeId, staffId, weekday.value) && x.isOpen
      ensures spanOf(ShiftOf(x)).Some?
    {
      assert p(x) && x in hours;
      assert ShiftOf(x) in shifts;
      var j :| 0 <= j < |shifts| && shifts[j] == ShiftOf(x);
      assert xs[j] == spanOf(ShiftOf(x));
    }
  }

  /**
   * A span clear of the appointments and blocks the availability route reads
   * is clear of those the booking route reads: the same appointments, and
   * fewer blocks.
   */
  lemma OfferedClear(db: Database, storeId: string, staffId: string, day: Range,
                     appts: seq<AppointmentRow>, blocks: seq<BlockRow>, t: int, end: int)
    requires db.appointments.Table? &&
      forall a :: a in appts <==> a in db.appointments.rows && AppointmentInDay(a, storeId, staffId, day)
    requires db.blocks.Table? &&
      forall b :: b in blocks <==> b in db.blocks.rows && BlockInDay(b, storeId, staffId, day, true)
    requires forall a :: a in appts ==> !Overlaps(t, end, a.startAt, BusyRange(a).end)
    requires forall b :: b in blocks ==> !Overlaps(t, end, b.startAt, b.endAt)
    ensures ClearDay(db, storeId, staffId, day, t, end)
  {
    forall b | b in db.blocks.rows && BlockInDay(b, storeId, staffId, day, false)
      ensures !Overlaps(t, end, b.startAt, b.endAt)
    {
      BlockWindows(b, storeId, staffId, day);
    }
  }

  /**
   * The booking route's block query keeps a subset of the availability
   * route's, and the two differ exactly on a block that starts at the
   * window's end instant.
   */
  lemma BlockWindows(b: BlockRow, storeId: string, staffId: string, day: Range)
    ensures BlockInDay(b, storeId, staffId, day, false) ==> BlockInDay(b, storeId, staffId, day, true)
    ensures BlockInDay(b, storeId, staffId, day, true) && !BlockInDay(b, storeId, staffId, day, false)
      <==> BlockInDay(b, storeId, staffId, day, true) && b.startAt == day.end
  {
  }

  /**
   * The two grids coincide when the step divides an hour and the shift
   * starts on the grid: a local minute an even number of steps from the
   * shift's local start is also a multiple of the step past its hour.
   */
  lemma GridAgrees(shiftStart: int, t: int, step: int)
    requires 0 < step && 60 % step == 0
    requires shiftStart % step == 0 && (t - shiftStart) % step == 0
    ensures (t % 60) % step == 0
  {
    var a, b, q := shiftStart / step, (t - shiftStart) / step, 60 / step;
    assert shiftStart == step * a && t - shiftStart == step * b && 60 == step * q;
    assert t == step * (a + b);
    var n := a + b - q * (t / 60);
    assert t % 60 == t - 60 * (t / 60);
    assert 60 * (t / 60) == step * (q * (t / 60));
    assert t % 60 == step * n;
    Arith.DivModUnique(t % 60, step, n, 0);
  }

  /**
   * With a 45-minute step the grids part: for a shift from 09:00 to 18:00
   * (local minutes 540 to 1080) the availability walk offers 10:30, which the
   * booking checks refuse, and never offers 10:00, which they accept.
   */
  lemma GridDiverges(r: Request)
    requires r.step == 45
    ensures OfferedBy(Range(540, 1080), 45, Checks(45, 0, [], []), 630)
    ensures IsValidHHMM(r.time) && ClockOf(r.time) == 630 ==> !Acceptable(r)
    ensures !OfferedBy(Range(540, 1080), 45, Checks(45, 0, [], []), 600)
    ensures IsValidHHMM(r.time) && ClockOf(r.time) == 600 ==> (ClockOf(r.time) % 60) % r.step == 0
  {
  }

  /**
   * The day window ends at local 23:59, so an appointment starting at local
   * 23:59 is read by neither route's appointment query for that date.
   */
  lemma LastMinuteUnseen(off: int -> int, date: string, c: CivilDate, a: AppointmentRow, storeId: string, staffId: string)
    requires ParseDate(date) == Some(c)
    requires a.startAt == TwoPass(off, DateUtc(c, 0, 1439))
    ensures DayRangeUtc(off, date).Some?
    ensures !AppointmentInDay(a, storeId, staffId, DayRangeUtc(off, date).value)
  {
    DayRangeAt(off, date, c);
  }

  /**
   * Consequently a booking that starts at the window's end does not stand in
   * the way of another one over the same minutes: adding it to the table
   * leaves the conflict checks of the day as they were.
   */
  lemma LastMinuteDoubleBooking(db: Database, off: int -> int, req: Request, store: StoreRow, staff: StaffRow,
                                service: ServiceRow, day: Range, start: int, write: InsertOutcome, a: AppointmentRow)
    requires db.appointments.Table? && a.startAt == day.end
    ensures Reserve(db.(appointments := Table(db.appointments.rows + [a])), off, req, store, staff, service, day, start, write)
      == Reserve(db, off, req, store, staff, service, day, start, write)
  {
    var p := AppointmentsOfDay(store.id, req.staffId, day);
    FilterAppendRejected(db.appointments.rows, a, p);
  }
}
