/**
 * The database rows both routes read, and the queries they run, with the
 * tables given as sequences of rows. Instants (`start_at`, `end_at`) are
 * minutes since the epoch; working-hour times are the stored text.
 */
module Data {
  import opened Results
  import opened Tz

  datatype StoreRow = StoreRow(id: string, slug: string, name: string)

  datatype StaffRow = StaffRow(id: string, storeId: string, name: string)

  datatype ServiceRow = ServiceRow(id: string, storeId: string, name: string, durationMinutes: int, priceCents: int)

  /** One shift of a staff member on a weekday (`slot` 1 is the morning, 2 the afternoon). */
  datatype WorkingHourRow = WorkingHourRow(
    storeId: string, staffId: string, dayOfWeek: int, slot: int,
    isOpen: bool, startTime: string, endTime: string)

  datatype Status = Confirmed | Cancelled

  /** `end_at` excludes the buffer; the buffer minutes at booking time are kept as a snapshot. */
  datatype AppointmentRow = AppointmentRow(
    storeId: string, staffId: string, serviceId: string,
    customerName: string, customerPhone: string,
    startAt: int, endAt: int, bufferSnapshot: Option<int>, status: Status)

  /** A block with no staff member closes the whole store. */
  datatype BlockRow = BlockRow(storeId: string, staffId: Option<string>, startAt: int, endAt: int)

  /** A table as a query sees it: its rows, or the error the database client reports. */
  datatype Table<R> = Table(rows: seq<R>) | Unreachable(message: string)

  datatype Database = Database(
    stores: Table<StoreRow>,
    staff: Table<StaffRow>,
    services: Table<ServiceRow>,
    hours: Table<WorkingHourRow>,
    appointments: Table<AppointmentRow>,
    blocks: Table<BlockRow>)

  /** The rows of `rows` that satisfy `p`, in table order. */
  function Filter<R(!new)>(rows: seq<R>, p: R -> bool): (r: seq<R>)
    ensures |r| <= |rows|
    ensures forall x :: x in r <==> x in rows && p(x)
  {
    if rows == [] then []
    else (if p(rows[0]) then [rows[0]] else []) + Filter(rows[1..], p)
  }

  /** When no row satisfies the filter, the query returns no row. */
  lemma {:induction false} FilterNone<R(!new)>(rows: seq<R>, p: R -> bool)
    requires forall x :: x in rows ==> !p(x)
    ensures Filter(rows, p) == []
    decreases |rows|
  {
    if rows != [] {
      assert rows[0] in rows;
      FilterNone(rows[1..], p);
    }
  }

  /** A row the filter rejects adds nothing when appended. */
  lemma {:induction false} FilterAppendRejected<R(!new)>(rows: seq<R>, x: R, p: R -> bool)
    requires !p(x)
    ensures Filter(rows + [x], p) == Filter(rows, p)
    decreases |rows|
  {
    if rows == [] {
      assert [] + [x] == [x];
      assert [x][1..] == [];
    } else {
      assert (rows + [x])[0] == rows[0];
      assert (rows + [x])[1..] == rows[1..] + [x];
      FilterAppendRejected(rows[1..], x, p);
    }
  }

  /** A filtered `select`: the matching rows, or a 500 carrying the client's error text. */
  function Select<R(!new)>(t: Table<R>, p: R -> bool): (r: Response<seq<R>>)
    ensures t.Table? ==> r.Ok? && forall x :: x in r.value <==> x in t.rows && p(x)
    ensures t.Unreachable? ==> r == Fail(InternalError, t.message)
  {
    match t
    case Table(rows) => Ok(Filter(rows, p))
    case Unreachable(m) => Fail(InternalError, m)
  }

  /** The outcome of `.maybeSingle()`. */
  datatype Single<R> = NoRow | OneRow(row: R) | ManyRows

  /** The client library's error text when `.maybeSingle()` meets more than one row. */
  const ManyRowsMessage := "JSON object requested, multiple (or no) rows returned"

  function MaybeSingle<R>(rows: seq<R>): (r: Single<R>)
    ensures r == NoRow <==> |rows| == 0
    ensures r.OneRow? <==> |rows| == 1
    ensures r.OneRow? ==> r.row == rows[0]
  {
    if |rows| == 0 then NoRow else if |rows| == 1 then OneRow(rows[0]) else ManyRows
  }

  /**
   * A `.maybeSingle()` lookup as the routes use it: the single row, a 500 on a
   * database error or several rows, and `notFound` when there is none.
   */
  function LookupOne<R(!new)>(t: Table<R>, p: R -> bool, notFound: string): (r: Response<R>)
    ensures r.Ok? <==> t.Table? && |Filter(t.rows, p)| == 1
    ensures r.Ok? ==> r.value in t.rows && p(r.value)
    ensures t.Table? && |Filter(t.rows, p)| == 0 ==> r == Fail(NotFound, notFound)
  {
    match Select(t, p)
    case Fail(s, m) => Fail(s, m)
    case Ok(rows) =>
      match MaybeSingle(rows)
      case NoRow => Fail(NotFound, notFound)
      case OneRow(x) => Ok(x)
      case ManyRows => Fail(InternalError, ManyRowsMessage)
  }

  /** `toHHMM`: keep the first five characters, so `HH:MM:SS` becomes `HH:MM`; shorter text is kept as is. */
  function ToHHMM(value: string): (r: string)
    ensures |value| >= 5 ==> |r| == 5
    ensures |value| < 5 ==> r == value
    ensures r <= value
  {
    if |value| >= 5 then value[..5] else value
  }

  lemma ToHHMMIdempotent(value: string)
    ensures ToHHMM(ToHHMM(value)) == ToHHMM(value)
  {
  }

  /** An open shift's start and end as `HH:MM` text. */
  datatype Shift = Shift(start: string, end: string)

  /** The shift of a working-hour row, its times cut to `HH:MM`. */
  function ShiftOf(h: WorkingHourRow): (w: Shift)
    ensures w.start <= h.startTime && w.end <= h.endTime
  {
    Shift(ToHHMM(h.startTime), ToHHMM(h.endTime))
  }

  /** `hours.filter(h => h.is_open).map(h => ({ start: toHHMM(h.start_time), end: toHHMM(h.end_time) }))`. */
  function OpenShifts(hours: seq<WorkingHourRow>): (r: seq<Shift>)
    ensures |r| <= |hours|
    ensures r == [] <==> forall i :: 0 <= i < |hours| ==> !hours[i].isOpen
  {
    if hours == [] then []
    else
      (if hours[0].isOpen then [ShiftOf(hours[0])] else [])
      + OpenShifts(hours[1..])
  }

  /** Every open shift comes from an open row, and every open row gives a shift. */
  lemma {:induction false} OpenShiftsFromOpenRows(hours: seq<WorkingHourRow>)
    ensures forall w :: w in OpenShifts(hours) <==>
      exists h :: h in hours && h.isOpen && w == ShiftOf(h)
    decreases |hours|
  {
    if hours != [] {
      OpenShiftsFromOpenRows(hours[1..]);
      assert forall h :: h in hours <==> h == hours[0] || h in hours[1..];
    }
  }

  /** `lisbonLocalToUtc(date, w.start)` and `(date, w.end)` of one open shift; None when either throws. */
  function ShiftSpan(off: int -> int, date: string, w: Shift): (r: Option<Range>)
    ensures r.Some? <==> LocalToUtc(off, date, w.start).Some? && LocalToUtc(off, date, w.end).Some?
  {
    match (LocalToUtc(off, date, w.start), LocalToUtc(off, date, w.end))
    case (Some(s), Some(e)) => Some(Range(s, e))
    case _ => None
  }

  /** The conversion of one open shift on `date`, as a function of the shift. */
  function SpanOn(off: int -> int, date: string): (spanOf: Shift -> Option<Range>)
    ensures forall w :: spanOf(w) == ShiftSpan(off, date, w)
  {
    (w: Shift) => ShiftSpan(off, date, w)
  }

  /** The spans of the open shifts, one per shift, in order. */
  function ShiftSpans(spanOf: Shift -> Option<Range>, shifts: seq<Shift>): (r: seq<Option<Range>>)
    ensures |r| == |shifts|
    ensures forall i :: 0 <= i < |r| ==> r[i] == spanOf(shifts[i])
  {
    if shifts == [] then [] else [spanOf(shifts[0])] + ShiftSpans(spanOf, shifts[1..])
  }

  /** The occupied span of an appointment: its stored span extended by its buffer snapshot (none counts as 0). */
  function BusyRange(a: AppointmentRow): (r: Range)
    ensures r.start == a.startAt
    ensures r.end - a.endAt == a.bufferSnapshot.GetOr(0)
  {
    Range(a.startAt, AddMinutes(a.endAt, a.bufferSnapshot.GetOr(0)))
  }

  function BusyOf(appts: seq<AppointmentRow>): (r: seq<Range>)
    ensures |r| == |appts|
    ensures forall i :: 0 <= i < |r| ==> r[i] == BusyRange(appts[i])
  {
    if appts == [] then [] else [BusyRange(appts[0])] + BusyOf(appts[1..])
  }

  function BlockedOf(blocks: seq<BlockRow>): (r: seq<Range>)
    ensures |r| == |blocks|
    ensures forall i :: 0 <= i < |r| ==> r[i] == Range(blocks[i].startAt, blocks[i].endAt)
  {
    if blocks == [] then [] else [Range(blocks[0].startAt, blocks[0].endAt)] + BlockedOf(blocks[1..])
  }

  /** `ranges.some(x => overlaps(start, end, x.start, x.end))`. */
  predicate HitsAny(start: int, end: int, ranges: seq<Range>) {
    exists i :: 0 <= i < |ranges| && Overlaps(start, end, ranges[i].start, ranges[i].end)
  }

  /** The status of an appointment plays no part in the busy spans: cancelling a row does not free its time. */
  lemma BusyIgnoresStatus(appts: seq<AppointmentRow>, i: int, s: Status)
    requires 0 <= i < |appts|
    ensures BusyOf(appts[i := appts[i].(status := s)]) == BusyOf(appts)
  {
    var a := appts[i := appts[i].(status := s)];
    assert forall j :: 0 <= j < |a| ==> BusyRange(a[j]) == BusyRange(appts[j]);
  }

  lemma BusyOfConcat(a: seq<AppointmentRow>, b: seq<AppointmentRow>)
    ensures BusyOf(a + b) == BusyOf(a) + BusyOf(b)
  {
    assert forall i :: 0 <= i < |a| ==> (a + b)[i] == a[i];
    assert forall i :: |a| <= i < |a| + |b| ==> (a + b)[i] == b[i - |a|];
  }

  /**
   * When the query does not look at the status, changing the status of one
   * appointment leaves the busy spans of the selected rows as they were.
   */
  lemma {:induction false} FilterBusyIgnoresStatus(rows: seq<AppointmentRow>, i: int, s: Status, p: AppointmentRow -> bool)
    requires 0 <= i < |rows|
    requires forall x: AppointmentRow :: p(x.(status := s)) == p(x)
    ensures BusyOf(Filter(rows[i := rows[i].(status := s)], p)) == BusyOf(Filter(rows, p))
    decreases |rows|
  {
    var changed := rows[i := rows[i].(status := s)];
    var head: seq<AppointmentRow> := if p(rows[0]) then [rows[0]] else [];
    var head2: seq<AppointmentRow> := if p(changed[0]) then [changed[0]] else [];
    assert Filter(rows, p) == head + Filter(rows[1..], p);
    assert Filter(changed, p) == head2 + Filter(changed[1..], p);
    if i == 0 {
      assert changed[1..] == rows[1..];
      assert p(changed[0]) == p(rows[0]);
      assert BusyOf(head2) == BusyOf(head);
    } else {
      assert changed[1..] == rows[1..][i - 1 := rows[i].(status := s)];
      FilterBusyIgnoresStatus(rows[1..], i - 1, s, p);
      assert head2 == head;
    }
    BusyOfConcat(head, Filter(rows[1..], p));
    BusyOfConcat(head2, Filter(changed[1..], p));
  }

  /** The span meets one of the busy spans exactly when it meets some appointment's span, buffer included. */
  lemma HitsBusyIff(start: int, end: int, appts: seq<AppointmentRow>)
    ensures HitsAny(start, end, BusyOf(appts)) <==>
      exists a :: a in appts && Overlaps(start, end, a.startAt, BusyRange(a).end)
  {
    var r := BusyOf(appts);
    if HitsAny(start, end, r) {
      var i :| 0 <= i < |r| && Overlaps(start, end, r[i].start, r[i].end);
      assert appts[i] in appts;
    }
    if exists a :: a in appts && Overlaps(start, end, a.startAt, BusyRange(a).end) {
      var a :| a in appts && Overlaps(start, end, a.startAt, BusyRange(a).end);
      var i :| 0 <= i < |appts| && appts[i] == a;
      assert Overlaps(start, end, r[i].start, r[i].end);
    }
  }

  /** The span meets one of the blocked spans exactly when it meets some block. */
  lemma HitsBlockedIff(start: int, end: int, blocks: seq<BlockRow>)
    ensures HitsAny(start, end, BlockedOf(blocks)) <==>
      exists b :: b in blocks && Overlaps(start, end, b.startAt, b.endAt)
  {
    var r := BlockedOf(blocks);
    if HitsAny(start, end, r) {
      var i :| 0 <= i < |r| && Overlaps(start, end, r[i].start, r[i].end);
      assert blocks[i] in blocks;
    }
    if exists b :: b in blocks && Overlaps(start, end, b.startAt, b.endAt) {
      var b :| b in blocks && Overlaps(start, end, b.startAt, b.endAt);
      var i :| 0 <= i < |blocks| && blocks[i] == b;
      assert Overlaps(start, end, r[i].start, r[i].end);
    }
  }

  /** The working-hour rows of one staff member of a store on one weekday. */
  predicate HoursOf(h: WorkingHourRow, storeId: string, staffId: string, weekday: int) {
    h.storeId == storeId && h.staffId == staffId && h.dayOfWeek == weekday
  }

  /** The working-hour query's condition, as the filter both routes hand to the table. */
  function HoursOn(storeId: string, staffId: string, weekday: int): WorkingHourRow -> bool {
    (h: WorkingHourRow) => HoursOf(h, storeId, staffId, weekday)
  }

  /** A day whose matching rows are all closed has no open shift. */
  lemma ClosedHours(rows: seq<WorkingHourRow>, storeId: string, staffId: string, weekday: int)
    requires forall h :: h in rows && HoursOf(h, storeId, staffId, weekday) ==> !h.isOpen
    ensures OpenShifts(Filter(rows, HoursOn(storeId, staffId, weekday))) == []
  {
    var hours := Filter(rows, HoursOn(storeId, staffId, weekday));
    assert forall i :: 0 <= i < |hours| ==> hours[i] in hours;
  }

  /** Appointments of the staff member that start in the day window (`gte` start, `lt` end); status is not looked at. */
  predicate AppointmentInDay(a: AppointmentRow, storeId: string, staffId: string, day: Range) {
    a.storeId == storeId && a.staffId == staffId && day.start <= a.startAt < day.end
  }

  /**
   * Blocks of the store that apply to the staff member (store-wide or theirs)
   * and reach into the day window. The availability route compares the block's
   * start with `lte` against the window end, the booking route with `lt`.
   */
  predicate BlockInDay(b: BlockRow, storeId: string, staffId: string, day: Range, endInclusive: bool) {
    b.storeId == storeId && (b.staffId.None? || b.staffId == Some(staffId))
    && b.endAt >= day.start
    && (if endInclusive then b.startAt <= day.end else b.startAt < day.end)
  }
}
