/**
 * `GET /api/availability`: the free start times of one staff member on one
 * local date, as sorted `HH:MM` labels. The database, the zone's offset
 * function and the current instant are parameters.
 */
module Availability {
  import opened Results
  import opened JsText
  import opened Tz
  import opened Data
  import opened Sorting
  import Arith

  /** The query string as `searchParams.get` returns it: each parameter present or absent. */
  datatype Query = Query(
    slug: Option<string>, staffId: Option<string>, date: Option<string>,
    serviceMinutes: Option<string>, stepMinutes: Option<string>,
    leadMinutes: Option<string>, bufferAfter: Option<string>)

  /** The validated parameters. */
  datatype Params = Params(
    slug: string, staffId: string, date: string,
    service: int, step: int, lead: int, buffer: int)

  /** Trimmed text of a parameter; an absent one reads as empty. */
  function TextParam(v: Option<string>): string {
    Trim(v.GetOr(""))
  }

  /** `Number(get(name) ?? fallback)`; None is NaN, which fails `Number.isFinite`. */
  function NumberParam(v: Option<string>, fallback: string): Option<int> {
    JsNumber(v.GetOr(fallback))
  }

  /** The validation at the top of the handler, in its order, with its messages. */
  function ParseQuery(q: Query): (r: Response<Params>)
    ensures r.Fail? ==> r.status == BadRequest
    ensures r.Ok? ==> r.value.slug != "" && r.value.staffId != "" && r.value.date != ""
    ensures r.Ok? ==> r.value.service > 0 && r.value.step > 0 && r.value.lead >= 0 && r.value.buffer >= 0
  {
    var slug := TextParam(q.slug);
    var staffId := TextParam(q.staffId);
    var date := TextParam(q.date);
    var service := NumberParam(q.serviceMinutes, "30");
    var step := NumberParam(q.stepMinutes, "15");
    var lead := NumberParam(q.leadMinutes, "120");
    var buffer := NumberParam(q.bufferAfter, "0");
    if slug == "" then Fail(BadRequest, "Missing slug")
    else if staffId == "" then Fail(BadRequest, "Missing staffId")
    else if date == "" then Fail(BadRequest, "Missing date (YYYY-MM-DD)")
    else if service.None? || service.value <= 0 then Fail(BadRequest, "Invalid serviceMinutes")
    else if step.None? || step.value <= 0 then Fail(BadRequest, "Invalid stepMinutes")
    else if lead.None? || lead.value < 0 then Fail(BadRequest, "Invalid leadMinutes")
    else if buffer.None? || buffer.value < 0 then Fail(BadRequest, "Invalid bufferAfter")
    else Ok(Params(slug, staffId, date, service.value, step.value, lead.value, buffer.value))
  }

  /** The identifiers and the date the handler goes on with carry no surrounding whitespace. */
  lemma ParseQueryTrims(q: Query)
    requires ParseQuery(q).Ok?
    ensures var p := ParseQuery(q).value;
      Trim(p.slug) == p.slug && Trim(p.staffId) == p.staffId && Trim(p.date) == p.date
  {
    var p := ParseQuery(q).value;
    assert p.slug == TextParam(q.slug) && p.staffId == TextParam(q.staffId) && p.date == TextParam(q.date);
    TrimIdempotent(q.slug.GetOr(""));
    TrimIdempotent(q.staffId.GetOr(""));
    TrimIdempotent(q.date.GetOr(""));
  }

  /** Absent numeric parameters take the defaults: 30-minute service, 15-minute step, 120 minutes' lead, no buffer. */
  lemma ParseQueryDefaults(slug: string, staffId: string, date: string)
    requires Trim(slug) != "" && Trim(staffId) != "" && Trim(date) != ""
    ensures ParseQuery(Query(Some(slug), Some(staffId), Some(date), None, None, None, None))
      == Ok(Params(Trim(slug), Trim(staffId), Trim(date), 30, 15, 120, 0))
  {
    DefaultNumbers();
  }

  /** The four default texts read as their numbers. */
  lemma DefaultNumbers()
    ensures NumberParam(None, "30") == Some(30) && NumberParam(None, "15") == Some(15)
    ensures NumberParam(None, "120") == Some(120) && NumberParam(None, "0") == Some(0)
  {
    NatToStringRoundTrip(30);
    NatToStringRoundTrip(15);
    NatToStringRoundTrip(120);
    NatToStringRoundTrip(0);
    assert NatToString(30) == "30" && NatToString(15) == "15" && NatToString(120) == "120" && NatToString(0) == "0";
  }

  /** A blank or missing slug is the first thing reported, whatever else the query holds. */
  lemma MissingSlugFirst(q: Query)
    ensures ParseQuery(q) == Fail(BadRequest, "Missing slug") <==> TextParam(q.slug) == ""
  {
  }

  /**
   * `midUtc.getUTCDay()` for local noon of the date; None when the date does
   * not read, where the conversion throws (the day window has already thrown
   * by then, so the working hours are never asked for with a NaN weekday).
   */
  function NoonWeekday(off: int -> int, date: string): (r: Option<int>)
    ensures r.Some? <==> ParseDate(date).Some?
    ensures r.Some? ==> 0 <= r.value < 7
  {
    NoonClock();
    match LocalToUtc(off, date, "12:00")
    case Some(t) => Some(UtcWeekday(t))
    case None => None
  }

  /** In a zone with a fixed offset of at most 12 hours, the noon weekday is the date's own weekday. */
  lemma NoonWeekdayOfDate(off: int -> int, k: int, date: string, c: CivilDate)
    requires ConstantOffset(off, k) && -720 < k <= 720
    requires ParseDate(date) == Some(c)
    ensures NoonWeekday(off, date) == Some(CivilWeekday(c))
  {
    NoonClock();
    LocalToUtcAt(off, date, "12:00", c, 720);
    NoonWeekdayIsCivil(off, k, c);
  }

  /** What each candidate start of a shift is checked against. */
  datatype Checks = Checks(occupy: int, minStart: int, busy: seq<Range>, blocked: seq<Range>)

  /**
   * The tests of the inner loop: the service and buffer end by the end of the
   * shift, the start respects the lead time, and the occupied span overlaps
   * neither an appointment nor a block.
   */
  predicate Admits(k: Checks, shiftEnd: int, t: int) {
    AddMinutes(t, k.occupy) <= shiftEnd && t >= k.minStart
    && !HitsAny(t, AddMinutes(t, k.occupy), k.busy)
    && !HitsAny(t, AddMinutes(t, k.occupy), k.blocked)
  }

  /** `Admits` as the filter of one shift's walk. */
  function Keep(k: Checks, shiftEnd: int): int -> bool {
    t => Admits(k, shiftEnd, t)
  }

  /** The `while (cursor < blockEndUtc)` loop of one shift: the cursors `keep` admits, in order. */
  function Walk(cursor: int, shiftEnd: int, step: int, keep: int -> bool): seq<int>
    requires step > 0
    decreases shiftEnd - cursor
  {
    if cursor >= shiftEnd then []
    else (if keep(cursor) then [cursor] else []) + Walk(AddMinutes(cursor, step), shiftEnd, step, keep)
  }

  /** Strictly increasing instants, all in `[lo, hi)`. */
  predicate Ascending(r: seq<int>, lo: int, hi: int) {
    (forall i :: 0 <= i < |r| ==> lo <= r[i] < hi) && (forall i, j :: 0 <= i < j < |r| ==> r[i] < r[j])
  }

  /** The walk produces its starts in increasing order, all from the cursor on and before the shift end. */
  lemma {:induction false} WalkAscending(cursor: int, shiftEnd: int, step: int, keep: int -> bool)
    requires step > 0
    ensures Ascending(Walk(cursor, shiftEnd, step, keep), cursor, shiftEnd)
    decreases shiftEnd - cursor
  {
    if cursor < shiftEnd {
      var next := AddMinutes(cursor, step);
      WalkAscending(next, shiftEnd, step, keep);
      var rest := Walk(next, shiftEnd, step, keep);
      var r := Walk(cursor, shiftEnd, step, keep);
      var kept: seq<int> := if keep(cursor) then [cursor] else [];
      assert r == kept + rest;
      assert next > cursor;
      assert Ascending(rest, next, shiftEnd);
      forall i | 0 <= i < |r|
        ensures cursor <= r[i] < shiftEnd
      {
        if i >= |kept| {
          assert r[i] == rest[i - |kept|];
        } else {
          assert r[i] == kept[i] == cursor;
        }
      }
      forall i, j | 0 <= i < j < |r|
        ensures r[i] < r[j]
      {
        assert r[j] == rest[j - |kept|];
        if i >= |kept| {
          assert r[i] == rest[i - |kept|];
        } else {
          assert r[i] == kept[i] == cursor;
        }
      }
    }
  }

  /** Stepping from `cursor`: an instant is on the grid when it is the cursor itself or on the grid of the next cursor. */
  lemma GridStep(cursor: int, step: int, t: int)
    requires step > 0
    ensures (cursor <= t && (t - cursor) % step == 0) <==>
      (t == cursor || (cursor + step <= t && (t - (cursor + step)) % step == 0))
  {
    Arith.GridShift(t - cursor, step);
    assert t - (cursor + step) == t - cursor - step;
  }

  /** An instant is walked through exactly when it lies inside the shift on the step grid from the cursor and `keep` admits it. */
  lemma {:induction false} WalkMembers(cursor: int, shiftEnd: int, step: int, keep: int -> bool, t: int)
    requires step > 0
    ensures t in Walk(cursor, shiftEnd, step, keep) <==>
      cursor <= t < shiftEnd && (t - cursor) % step == 0 && keep(t)
    decreases shiftEnd - cursor
  {
    if cursor < shiftEnd {
      WalkMembers(AddMinutes(cursor, step), shiftEnd, step, keep, t);
      GridStep(cursor, step, t);
    }
  }

  /** The starts of every shift span in turn. */
  function Starts(spans: seq<Range>, step: int, k: Checks): (r: seq<int>)
    requires step > 0
  {
    if spans == [] then [] else SpanStarts(spans[0], step, k) + Starts(spans[1..], step, k)
  }

  function SpanStarts(sp: Range, step: int, k: Checks): seq<int>
    requires step > 0
  {
    Walk(sp.start, sp.end, step, Keep(k, sp.end))
  }

  /** The start `t` is offered by shift span `sp`. */
  predicate OfferedBy(sp: Range, step: int, k: Checks, t: int)
    requires step > 0
  {
    sp.start <= t < sp.end && (t - sp.start) % step == 0 && Admits(k, sp.end, t)
  }

  /** The starts of all spans are the starts of each span. */
  lemma {:induction false} StartsMembers(spans: seq<Range>, step: int, k: Checks, t: int)
    requires step > 0
    ensures t in Starts(spans, step, k) <==> exists i :: 0 <= i < |spans| && t in SpanStarts(spans[i], step, k)
    decreases |spans|
  {
    if spans != [] {
      StartsMembers(spans[1..], step, k, t);
      if t in Starts(spans[1..], step, k) {
        var i :| 0 <= i < |spans[1..]| && t in SpanStarts(spans[1..][i], step, k);
        assert spans[i + 1] == spans[1..][i];
      }
      if exists i :: 0 <= i < |spans| && t in SpanStarts(spans[i], step, k) {
        var i :| 0 <= i < |spans| && t in SpanStarts(spans[i], step, k);
        if i > 0 {
          assert spans[1..][i - 1] == spans[i];
        }
      }
    }
  }

  /** A span offers the starts on its grid that the checks admit. */
  lemma SpanStartsMembers(sp: Range, step: int, k: Checks, t: int)
    requires step > 0
    ensures t in SpanStarts(sp, step, k) <==> OfferedBy(sp, step, k, t)
  {
    WalkMembers(sp.start, sp.end, step, Keep(k, sp.end), t);
  }

  /** `resultSlots`: the local `HH:MM` of each start. */
  function Labels(off: int -> int, starts: seq<int>): (r: seq<string>)
    ensures |r| == |starts|
    ensures forall i :: 0 <= i < |r| ==> r[i] == LocalHHMM(off, starts[i])
  {
    if starts == [] then [] else [LocalHHMM(off, starts[0])] + Labels(off, starts[1..])
  }

  /** `Array.from(new Set(resultSlots)).sort()`: the labels of the offered starts, each once, in order. */
  function Offer(off: int -> int, starts: seq<int>): (r: seq<string>)
    ensures StrictlySorted(r)
    ensures forall s :: s in r <==> exists t :: t in starts && s == LocalHHMM(off, t)
  {
    var labels := Labels(off, starts);
    assert forall s :: s in labels <==> exists t :: t in starts && s == LocalHHMM(off, t) by {
      forall s | s in labels
        ensures exists t :: t in starts && s == LocalHHMM(off, t)
      {
        var i :| 0 <= i < |labels| && labels[i] == s;
        assert starts[i] in starts;
      }
      forall s | exists t :: t in starts && s == LocalHHMM(off, t)
        ensures s in labels
      {
        var t :| t in starts && s == LocalHHMM(off, t);
        var i :| 0 <= i < |starts| && starts[i] == t;
        assert labels[i] == s;
      }
    }
    SortUnique(labels)
  }

  /** The rows the three day queries select and the checks they feed. */
  function DayChecks(p: Params, now: int, appts: seq<AppointmentRow>, blocks: seq<BlockRow>): Checks {
    Checks(p.service + p.buffer, AddMinutes(now, p.lead), BusyOf(appts), BlockedOf(blocks))
  }

  /** The handler: the free start times as sorted labels, or the error response. */
  function Slots(db: Database, off: int -> int, now: int, q: Query): (r: Response<seq<string>>)
    ensures r.Ok? ==> StrictlySorted(r.value)
  {
    match ParseQuery(q)
    case Fail(s, m) => Fail(s, m)
    case Ok(p) =>
      match LookupOne(db.stores, (x: StoreRow) => x.slug == p.slug, "Store not found")
      case Fail(s, m) => Fail(s, m)
      case Ok(store) => StoreSlots(db, off, now, p, store.id)
  }

  /**
   * Everything after the store lookup: the day window (a date that does not
   * read throws here), the weekday, the working hours and, on a day with an
   * open shift, the day's appointments and blocks.
   */
  function StoreSlots(db: Database, off: int -> int, now: int, p: Params, storeId: string): (r: Response<seq<string>>)
    requires p.step > 0
    ensures r.Ok? ==> StrictlySorted(r.value)
  {
    match DayRangeUtc(off, p.date)
    case None => Fail(InternalError, InvalidTimeValue)
    case Some(day) =>
      match NoonWeekday(off, p.date)
      case None => Fail(InternalError, InvalidTimeValue)
      case Some(weekday) => ShiftSlots(db, off, now, p, storeId, day, weekday)
  }

  /** The staff member's working hours on the weekday; no open shift is an empty list, otherwise the day's walk. */
  function ShiftSlots(db: Database, off: int -> int, now: int, p: Params, storeId: string, day: Range, weekday: int)
    : (r: Response<seq<string>>)
    requires p.step > 0
    ensures r.Ok? ==> StrictlySorted(r.value)
  {
    match Select(db.hours, HoursOn(storeId, p.staffId, weekday))
    case Fail(s, m) => Fail(s, m)
    case Ok(hours) =>
      var shifts := OpenShifts(hours);
      if shifts == [] then Ok([])
      else DaySlots(db, off, now, p, storeId, day, shifts)
  }

  /** The appointments and blocks of the day, then the walk over the open shifts (a shift time that does not read throws). */
  function DaySlots(db: Database, off: int -> int, now: int, p: Params, storeId: string, day: Range, shifts: seq<Shift>)
    : (r: Response<seq<string>>)
    requires p.step > 0
    ensures r.Ok? ==> StrictlySorted(r.value)
  {
    match Select(db.appointments, (a: AppointmentRow) => AppointmentInDay(a, storeId, p.staffId, day))
    case Fail(s, m) => Fail(s, m)
    case Ok(appts) =>
      match Select(db.blocks, (b: BlockRow) => BlockInDay(b, storeId, p.staffId, day, true))
      case Fail(s, m) => Fail(s, m)
      case Ok(blocks) =>
        match AllSome(ShiftSpans(SpanOn(off, p.date), shifts))
        case None => Fail(InternalError, InvalidTimeValue)
        case Some(spans) => Ok(Offer(off, Starts(spans, p.step, DayChecks(p, now, appts, blocks))))
  }

  /** An invalid query is answered before any lookup: the database plays no part in the answer. */
  lemma InvalidQueryIgnoresDatabase(db1: Database, db2: Database, off: int -> int, now: int, q: Query)
    requires ParseQuery(q).Fail?
    ensures Slots(db1, off, now, q) == Slots(db2, off, now, q)
    ensures Slots(db1, off, now, q) == Fail(BadRequest, ParseQuery(q).message)
  {
  }

  /** A store that is not there is a 404 "Store not found" for any valid query. */
  lemma UnknownStore(db: Database, off: int -> int, now: int, q: Query)
    requires ParseQuery(q).Ok? && db.stores.Table?
    requires forall x :: x in db.stores.rows ==> x.slug != ParseQuery(q).value.slug
    ensures Slots(db, off, now, q) == Fail(NotFound, "Store not found")
  {
    var p := ParseQuery(q).value;
    FilterNone(db.stores.rows, (x: StoreRow) => x.slug == p.slug);
  }

  /** A staff member with no open shift on the date's weekday has an empty list, not an error. */
  lemma ClosedDayNoSlots(db: Database, off: int -> int, now: int, p: Params, storeId: string, weekday: int)
    requires p.step > 0 && db.hours.Table? && NoonWeekday(off, p.date) == Some(weekday)
    requires forall h :: h in db.hours.rows && HoursOf(h, storeId, p.staffId, weekday) ==> !h.isOpen
    ensures StoreSlots(db, off, now, p, storeId) == Ok([])
  {
    var day := DayRangeUtc(off, p.date).value;
    StoreSlotsAt(db, off, now, p, storeId, day, weekday);
    ClosedHours(db.hours.rows, storeId, p.staffId, weekday);
  }

  /** A readable date: the answer is the walk over the staff member's hours on its weekday. */
  lemma StoreSlotsAt(db: Database, off: int -> int, now: int, p: Params, storeId: string, day: Range, weekday: int)
    requires p.step > 0 && DayRangeUtc(off, p.date) == Some(day) && NoonWeekday(off, p.date) == Some(weekday)
    ensures StoreSlots(db, off, now, p, storeId) == ShiftSlots(db, off, now, p, storeId, day, weekday)
  {
  }

  /** A date that does not read is a 500 before the working hours are asked for. */
  lemma UnreadableDateFails(db: Database, off: int -> int, now: int, p: Params, storeId: string)
    requires p.step > 0 && ParseDate(p.date).None?
    ensures StoreSlots(db, off, now, p, storeId) == Fail(InternalError, InvalidTimeValue)
  {
  }

  /** Once the two day queries and the shift spans are known, the answer is the offer of the spans' starts. */
  lemma DaySlotsAt(db: Database, off: int -> int, now: int, p: Params, storeId: string, day: Range, shifts: seq<Shift>,
                   appts: seq<AppointmentRow>, blocks: seq<BlockRow>, spans: seq<Range>)
    requires p.step > 0
    requires db.appointments == Table(appts) && db.blocks == Table(blocks)
    requires AllSome(ShiftSpans(SpanOn(off, p.date), shifts)) == Some(spans)
    ensures DaySlots(db, off, now, p, storeId, day, shifts) == Ok(Offer(off, Starts(spans, p.step,
      DayChecks(p, now,
        Filter(appts, (a: AppointmentRow) => AppointmentInDay(a, storeId, p.staffId, day)),
        Filter(blocks, (b: BlockRow) => BlockInDay(b, storeId, p.staffId, day, true))))))
  {
  }

  /** The starts of all spans, described span by span. */
  lemma StartsMeaning(spans: seq<Range>, step: int, k: Checks, t: int)
    requires step > 0
    ensures t in Starts(spans, step, k) <==> exists i :: 0 <= i < |spans| && OfferedBy(spans[i], step, k, t)
  {
    StartsMembers(spans, step, k, t);
    forall i | 0 <= i < |spans|
      ensures t in SpanStarts(spans[i], step, k) <==> OfferedBy(spans[i], step, k, t)
    {
      SpanStartsMembers(spans[i], step, k, t);
    }
  }

  /**
   * The meaning of the list the day's walk returns: a label is offered exactly
   * when it is the local time of some start that one of the open shifts offers.
   */
  lemma DaySlotsMembers(db: Database, off: int -> int, now: int, p: Params, storeId: string, day: Range, shifts: seq<Shift>,
                        appts: seq<AppointmentRow>, blocks: seq<BlockRow>, spans: seq<Range>, s: string)
    requires p.step > 0
    requires db.appointments == Table(appts) && db.blocks == Table(blocks)
    requires AllSome(ShiftSpans(SpanOn(off, p.date), shifts)) == Some(spans)
    ensures var k := DayChecks(p, now,
        Filter(appts, (a: AppointmentRow) => AppointmentInDay(a, storeId, p.staffId, day)),
        Filter(blocks, (b: BlockRow) => BlockInDay(b, storeId, p.staffId, day, true)));
      DaySlots(db, off, now, p, storeId, day, shifts).Ok? &&
      (s in DaySlots(db, off, now, p, storeId, day, shifts).value <==>
        exists t, i :: 0 <= i < |spans| && OfferedBy(spans[i], p.step, k, t) && s == LocalHHMM(off, t))
  {
    var k := DayChecks(p, now,
        Filter(appts, (a: AppointmentRow) => AppointmentInDay(a, storeId, p.staffId, day)),
        Filter(blocks, (b: BlockRow) => BlockInDay(b, storeId, p.staffId, day, true)));
    DaySlotsAt(db, off, now, p, storeId, day, shifts, appts, blocks, spans);
    forall t
      ensures t in Starts(spans, p.step, k) <==> exists i :: 0 <= i < |spans| && OfferedBy(spans[i], p.step, k, t)
    {
      StartsMeaning(spans, p.step, k, t);
    }
  }

  /**
   * Every offered start leaves room for the service and the buffer before the
   * end of its shift, respects the lead time, and its occupied span meets no
   * appointment of the staff member that starts within the day and no block of
   * the store or of the staff member that reaches into the day.
   */
  lemma OfferedStartIsFree(sp: Range, p: Params, now: int, appts: seq<AppointmentRow>, blocks: seq<BlockRow>, t: int)
    requires p.step > 0
    requires OfferedBy(sp, p.step, DayChecks(p, now, appts, blocks), t)
    ensures t + p.service + p.buffer <= sp.end
    ensures t >= now + p.lead
    ensures forall a :: a in appts ==> !Overlaps(t, t + p.service + p.buffer, a.startAt, BusyRange(a).end)
    ensures forall b :: b in blocks ==> !Overlaps(t, t + p.service + p.buffer, b.startAt, b.endAt)
  {
    var k := DayChecks(p, now, appts, blocks);
    forall a | a in appts
      ensures !Overlaps(t, t + p.service + p.buffer, a.startAt, BusyRange(a).end)
    {
      var i :| 0 <= i < |appts| && appts[i] == a;
      assert k.busy[i] == BusyRange(a);
    }
    forall b | b in blocks
      ensures !Overlaps(t, t + p.service + p.buffer, b.startAt, b.endAt)
    {
      var i :| 0 <= i < |blocks| && blocks[i] == b;
      assert k.blocked[i] == Range(b.startAt, b.endAt);
    }
  }

  /**
   * The nested loops of the handler, written as loops: for each shift span in
   * turn, collect the admitted cursors. They collect the same starts as `Starts`.
   */
  method CollectStarts(spans: seq<Range>, step: int, k: Checks) returns (result: seq<int>)
    requires step > 0
    ensures result == Starts(spans, step, k)
  {
    result := [];
    var n := 0;
    while n < |spans|
      invariant 0 <= n <= |spans|
      invariant result + Starts(spans[n..], step, k) == Starts(spans, step, k)
    {
      StartsUnfold(spans, n, step, k);
      var found := CollectWalk(spans[n].start, spans[n].end, step, Keep(k, spans[n].end));
      assert (result + found) + Starts(spans[n + 1..], step, k) == result + (found + Starts(spans[n + 1..], step, k));
      result := result + found;
      n := n + 1;
    }
    assert spans[n..] == [];
  }

  lemma StartsUnfold(spans: seq<Range>, n: int, step: int, k: Checks)
    requires 0 <= n < |spans| && step > 0
    ensures Starts(spans[n..], step, k) == SpanStarts(spans[n], step, k) + Starts(spans[n + 1..], step, k)
  {
    assert spans[n..][1..] == spans[n + 1..];
  }

  /** One turn of the inner loop keeps what is still to be collected in step with the walk. */
  lemma WalkStep(found: seq<int>, cursor: int, shiftEnd: int, step: int, keep: int -> bool)
    requires step > 0 && cursor < shiftEnd
    ensures found + Walk(cursor, shiftEnd, step, keep) ==
      (if keep(cursor) then found + [cursor] else found) + Walk(cursor + step, shiftEnd, step, keep)
  {
    var rest := Walk(cursor + step, shiftEnd, step, keep);
    assert Walk(cursor, shiftEnd, step, keep) == (if keep(cursor) then [cursor] else []) + rest;
    if keep(cursor) {
      assert found + ([cursor] + rest) == (found + [cursor]) + rest;
    } else {
      assert [] + rest == rest;
    }
  }

  /** The inner loop: step a cursor from the shift start while it is before the shift end, keeping the admitted ones. */
  method CollectWalk(start: int, shiftEnd: int, step: int, keep: int -> bool) returns (found: seq<int>)
    requires step > 0
    ensures found == Walk(start, shiftEnd, step, keep)
  {
    var cursor := start;
    found := [];
    while cursor < shiftEnd
      invariant found + Walk(cursor, shiftEnd, step, keep) == Walk(start, shiftEnd, step, keep)
      decreases shiftEnd - cursor
    {
      WalkStep(found, cursor, shiftEnd, step, keep);
      if keep(cursor) {
        found := found + [cursor];
      }
      cursor := cursor + step;
    }
  }
}
