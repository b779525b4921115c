/**
 * Public booking: the half-hour slot grid of a doctor's day, the chain of
 * guards before an appointment is inserted, the conflict test shared by both,
 * and the patient's status lookup.
 *
 * A slot counts as taken only by an appointment whose status is in the
 * literal set {"pending", "approved"}. "approved" is not one of the five
 * status values, so only pending appointments occupy a slot; a confirmed
 * appointment leaves its slot open. The model keeps this as written.
 *
 * Times of day are the "HH:MM" texts of the request; the stored time is
 * taken to compare equal to the text it was booked with.
 */
module Booking {
  import opened Common
  import opened Text
  import opened Order
  import opened Users
  import opened Appointments
  import Services

  // ---------------------------------------------------------------------
  // Request-field rules

  function TwoDigits(n: nat): (t: string)
    requires n < 100
    ensures |t| == 2 && IsDigit(t[0]) && IsDigit(t[1])
    ensures DigitValue(t[0]) * 10 + DigitValue(t[1]) == n
  {
    [DigitChar(n / 10), DigitChar(n % 10)]
  }

  /** A time in the `H:i` format: two-digit hour 00-23, colon, two-digit minute 00-59. */
  predicate IsClockText(t: string) {
    && |t| == 5 && IsDigit(t[0]) && IsDigit(t[1]) && t[2] == ':' && IsDigit(t[3]) && IsDigit(t[4])
    && DigitValue(t[0]) * 10 + DigitValue(t[1]) < 24
    && DigitValue(t[3]) < 6
  }

  /** Minutes after midnight of an `H:i` text. */
  function ClockMinutes(t: string): (m: nat)
    requires IsClockText(t)
    ensures m < 1440
  {
    (DigitValue(t[0]) * 10 + DigitValue(t[1])) * 60 + DigitValue(t[3]) * 10 + DigitValue(t[4])
  }

  /** The `H:i` text of a minute of the day (Carbon's `format('H:i')`). */
  function ClockText(m: nat): (t: string)
    requires m < 1440
    ensures IsClockText(t)
    ensures ClockMinutes(t) == m
  {
    TwoDigits(m / 60) + ":" + TwoDigits(m % 60)
  }

  /** Every `H:i` text is the rendering of its minute count. */
  lemma ClockTextOfMinutes(t: string)
    requires IsClockText(t)
    ensures ClockText(ClockMinutes(t)) == t
  {
    var m := ClockMinutes(t);
    var h := DigitValue(t[0]) * 10 + DigitValue(t[1]);
    var mm := DigitValue(t[3]) * 10 + DigitValue(t[4]);
    assert m / 60 == h && m % 60 == mm;
    var u := ClockText(m);
    assert u[0] == t[0] && u[1] == t[1] && u[3] == t[3] && u[4] == t[4];
  }

  lemma ClockTextInjective(a: nat, b: nat)
    requires a < 1440 && b < 1440 && ClockText(a) == ClockText(b)
    ensures a == b
  {
  }

  // ---------------------------------------------------------------------
  // The slot grid: 09:00 up to, not including, 17:00, every 30 minutes

  const FirstSlot: nat := 9 * 60
  const DayEnd: nat := 17 * 60
  const SlotLength: nat := 30
  const SlotCount: nat := 16

  function SlotTime(k: nat): (t: string)
    requires k < SlotCount
    ensures IsClockText(t)
  {
    ClockText(FirstSlot + SlotLength * k)
  }

  /** Sixteen slots from "09:00" to "16:30", each 30 minutes after the one before; "17:00" is not one of them. */
  lemma SlotGrid()
    ensures SlotTime(0) == "09:00" && SlotTime(SlotCount - 1) == "16:30"
    ensures forall k :: 0 <= k < SlotCount ==> FirstSlot <= ClockMinutes(SlotTime(k)) < DayEnd
    ensures forall k :: 0 < k < SlotCount ==> ClockMinutes(SlotTime(k)) == ClockMinutes(SlotTime(k - 1)) + SlotLength
    ensures forall k :: 0 <= k < SlotCount ==> SlotTime(k) != "17:00"
  {
    assert ClockText(540) == "09:00";
    assert ClockText(990) == "16:30";
    assert ClockMinutes("17:00") == DayEnd;
  }

  /** Distinct slots have distinct times. */
  lemma SlotTimesDistinct(i: nat, j: nat)
    requires i < j < SlotCount
    ensures SlotTime(i) != SlotTime(j)
  {
  }

  // ---------------------------------------------------------------------
  // Occupied slots and the conflict test

  /** `whereIn('status', ['pending', 'approved'])`. */
  predicate OccupiesSlot(s: Status) {
    StatusName(s) in {"pending", "approved"}
  }

  /** Only a pending appointment occupies its slot; a confirmed one does not. */
  lemma OccupiesOnlyPending(s: Status)
    ensures OccupiesSlot(s) <==> s == Pending
  {
  }

  /** `a` holds a slot of the doctor's day. */
  predicate Occupying(a: Appointment, doctorId: nat, date: Date) {
    a.doctorId == Some(doctorId) && a.date == date && a.time.Some? && OccupiesSlot(a.status)
  }

  /** The booked times of a doctor's day (`pluck('appointment_time')`). */
  function BookedTimes(rows: seq<Appointment>, doctorId: nat, date: Date): set<string> {
    set i | 0 <= i < |rows| && Occupying(rows[i], doctorId, date) :: rows[i].time.value
  }

  /** The existing appointment that makes a booking a conflict. */
  predicate Conflict(rows: seq<Appointment>, doctorId: nat, date: Date, time: string) {
    exists i :: 0 <= i < |rows| && Occupying(rows[i], doctorId, date) && rows[i].time == Some(time)
  }

  /** The booking conflict test and the slot list agree: a time conflicts iff it is shown as booked. */
  lemma ConflictIffBooked(rows: seq<Appointment>, doctorId: nat, date: Date, time: string)
    ensures Conflict(rows, doctorId, date, time) <==> time in BookedTimes(rows, doctorId, date)
  {
    if time in BookedTimes(rows, doctorId, date) {
      var i :| 0 <= i < |rows| && Occupying(rows[i], doctorId, date) && rows[i].time.value == time;
      assert rows[i].time == Some(time);
    }
  }

  // ---------------------------------------------------------------------
  // availableSlots

  predicate ActiveDoctor(users: map<nat, User>, id: nat) {
    id in users && users[id].isDoctor && users[id].isActive
  }

  datatype Slot = Slot(time: string, available: bool)

  datatype SlotsOutcome =
    | SlotsInvalid              // 422: missing or unknown doctor, or a date not after today
    | SlotsDoctorUnavailable    // 404: not a doctor, or inactive
    | SlotsListed(slots: seq<Slot>)

  predicate SlotsRequestValid(users: map<nat, User>, doctorId: Option<nat>, date: Option<Date>, today: Date) {
    doctorId.Some? && doctorId.value in users && date.Some? && date.value > today
  }

  /** The day's slots, each marked available unless its time is booked. */
  method AvailableSlots(rows: seq<Appointment>, users: map<nat, User>,
                        doctorId: Option<nat>, date: Option<Date>, today: Date) returns (r: SlotsOutcome)
    ensures r == SlotsInvalid <==> !SlotsRequestValid(users, doctorId, date, today)
    ensures r == SlotsDoctorUnavailable <==>
      SlotsRequestValid(users, doctorId, date, today) && !ActiveDoctor(users, doctorId.value)
    ensures r.SlotsListed? ==>
      && SlotsRequestValid(users, doctorId, date, today) && ActiveDoctor(users, doctorId.value)
      && |r.slots| == SlotCount
      && forall k :: 0 <= k < SlotCount ==>
           && r.slots[k].time == SlotTime(k)
           && (r.slots[k].available <==> SlotTime(k) !in BookedTimes(rows, doctorId.value, date.value))
  {
    if !SlotsRequestValid(users, doctorId, date, today) {
      return SlotsInvalid;
    }
    if !ActiveDoctor(users, doctorId.value) {
      return SlotsDoctorUnavailable;
    }
    var booked := BookedTimes(rows, doctorId.value, date.value);
    var slots: seq<Slot> := [];
    var start := FirstSlot;
    while start < DayEnd
      invariant FirstSlot <= start <= DayEnd && start == FirstSlot + SlotLength * |slots|
      invariant forall k :: 0 <= k < |slots| ==> slots[k] == Slot(SlotTime(k), SlotTime(k) !in booked)
      decreases DayEnd - start
    {
      var time := ClockText(start);
      slots := slots + [Slot(time, time !in booked)];
      start := start + SlotLength;
    }
    r := SlotsListed(slots);
  }

  // ---------------------------------------------------------------------
  // store

  datatype BookingRequest = BookingRequest(
    patientName: string,
    patientEmail: string,
    patientPhone: string,
    doctorId: Option<nat>,
    serviceId: Option<nat>,
    date: Option<Date>,
    time: string,
    notes: Option<string>)

  /** The request rules (the e-mail syntax rule is not modelled). */
  predicate BookingRequestValid(req: BookingRequest, today: Date,
                                users: map<nat, User>, services: map<nat, Services.Service>) {
    && Filled(req.patientName) && |req.patientName| <= 255
    && Filled(req.patientEmail) && |req.patientEmail| <= 255
    && Filled(req.patientPhone) && |req.patientPhone| <= 20
    && req.doctorId.Some? && req.doctorId.value in users
    && (req.serviceId.None? || req.serviceId.value in services)
    && req.date.Some? && req.date.value > today
    && IsClockText(req.time)
    && (req.notes.None? || |req.notes.value| <= 1000)
  }

  /** `if ($request->service_id)`: a service id is checked only when it is truthy. */
  predicate ServiceGiven(req: BookingRequest) {
    req.serviceId.Some? && req.serviceId.value != 0
  }

  predicate ActiveService(services: map<nat, Services.Service>, id: nat) {
    id in services && services[id].isActive
  }

  datatype BookingOutcome =
    | BookingInvalid          // 422
    | DoctorUnavailable       // 404 "Doctor not found or inactive"
    | ServiceUnavailable      // 404 "Service not found or inactive"
    | SlotTaken               // 409
    | Booked(record: Appointment)

  /** The new row: the request's fields, status pending, no admin notes and no confirmation. */
  function NewAppointment(req: BookingRequest): Appointment
    requires req.date.Some?
  {
    Appointment(req.doctorId, req.serviceId, req.patientName, req.patientEmail, req.patientPhone,
                req.date.value, Some(req.time), req.notes, Pending, None, None)
  }

  /** The guards of `store`, in order, and the row it would insert. */
  function Decide(rows: seq<Appointment>, req: BookingRequest, today: Date,
                  users: map<nat, User>, services: map<nat, Services.Service>): (r: BookingOutcome)
    ensures r == BookingInvalid <==> !BookingRequestValid(req, today, users, services)
    ensures r == DoctorUnavailable <==>
      BookingRequestValid(req, today, users, services) && !ActiveDoctor(users, req.doctorId.value)
    ensures r == ServiceUnavailable <==>
      && BookingRequestValid(req, today, users, services) && ActiveDoctor(users, req.doctorId.value)
      && ServiceGiven(req) && !ActiveService(services, req.serviceId.value)
    ensures r == SlotTaken <==>
      && BookingRequestValid(req, today, users, services) && ActiveDoctor(users, req.doctorId.value)
      && (ServiceGiven(req) ==> ActiveService(services, req.serviceId.value))
      && Conflict(rows, req.doctorId.value, req.date.value, req.time)
    ensures r.Booked? ==>
      && r.record.status == Pending && r.record.confirmedAt.None? && r.record.adminNotes.None?
      && r.record.doctorId == req.doctorId && r.record.serviceId == req.serviceId
      && Some(r.record.date) == req.date && r.record.time == Some(req.time)
      && r.record.patientName == req.patientName && r.record.patientEmail == req.patientEmail
      && r.record.patientPhone == req.patientPhone && r.record.notes == req.notes
  {
    if !BookingRequestValid(req, today, users, services) then BookingInvalid
    else if !ActiveDoctor(users, req.doctorId.value) then DoctorUnavailable
    else if ServiceGiven(req) && !ActiveService(services, req.serviceId.value) then ServiceUnavailable
    else if Conflict(rows, req.doctorId.value, req.date.value, req.time) then SlotTaken
    else Booked(NewAppointment(req))
  }

  /**
   * After a successful booking at time T, T is booked for that doctor and
   * day and every other time keeps its state; every other doctor or day is
   * untouched.
   */
  lemma BookingTakesOnlyItsSlot(rows: seq<Appointment>, req: BookingRequest, today: Date,
                                users: map<nat, User>, services: map<nat, Services.Service>,
                                doctorId: nat, date: Date)
    requires Decide(rows, req, today, users, services).Booked?
    ensures var after := rows + [Decide(rows, req, today, users, services).record];
      if doctorId == req.doctorId.value && date == req.date.value then
        BookedTimes(after, doctorId, date) == BookedTimes(rows, doctorId, date) + {req.time}
      else
        BookedTimes(after, doctorId, date) == BookedTimes(rows, doctorId, date)
  {
    var rec := Decide(rows, req, today, users, services).record;
    var after := rows + [rec];
    assert forall i :: 0 <= i < |rows| ==> after[i] == rows[i];
    assert after[|rows|] == rec;
    if doctorId == req.doctorId.value && date == req.date.value {
      assert req.time in BookedTimes(after, doctorId, date);
    }
  }

  /** The slot list after a booking at T shows T taken and every other slot as before. */
  lemma BookedSlotShownTaken(rows: seq<Appointment>, req: BookingRequest, today: Date,
                             users: map<nat, User>, services: map<nat, Services.Service>, k: nat)
    requires Decide(rows, req, today, users, services).Booked?
    requires k < SlotCount
    ensures var after := rows + [Decide(rows, req, today, users, services).record];
      var d, day := req.doctorId.value, req.date.value;
      (SlotTime(k) !in BookedTimes(after, d, day)) <==>
        SlotTime(k) !in BookedTimes(rows, d, day) && SlotTime(k) != req.time
  {
    BookingTakesOnlyItsSlot(rows, req, today, users, services, req.doctorId.value, req.date.value);
  }

  /** Sending the same booking again is refused as a conflict. */
  lemma RebookingConflicts(rows: seq<Appointment>, req: BookingRequest, today: Date,
                           users: map<nat, User>, services: map<nat, Services.Service>)
    requires Decide(rows, req, today, users, services).Booked?
    ensures Decide(rows + [Decide(rows, req, today, users, services).record], req, today, users, services) == SlotTaken
  {
    var rec := Decide(rows, req, today, users, services).record;
    var after := rows + [rec];
    assert after[|rows|] == rec;
    assert Occupying(after[|rows|], req.doctorId.value, req.date.value);
  }

  /** Two appointments holding the same slot of the same doctor's day. */
  predicate Clash(a: Appointment, b: Appointment) {
    && a.doctorId.Some? && Occupying(a, a.doctorId.value, a.date) && Occupying(b, a.doctorId.value, a.date)
    && a.time == b.time
  }

  /** No slot is held twice. */
  predicate NoDoubleBooking(rows: seq<Appointment>) {
    forall i, j :: 0 <= i < j < |rows| ==> !Clash(rows[i], rows[j])
  }

  /** Bookings made through `store` never hold a slot twice. */
  lemma BookingKeepsNoDoubleBooking(rows: seq<Appointment>, req: BookingRequest, today: Date,
                                    users: map<nat, User>, services: map<nat, Services.Service>)
    requires NoDoubleBooking(rows)
    requires Decide(rows, req, today, users, services).Booked?
    ensures NoDoubleBooking(rows + [Decide(rows, req, today, users, services).record])
  {
    var rec := Decide(rows, req, today, users, services).record;
    var after := rows + [rec];
    forall i, j | 0 <= i < j < |after|
      ensures !Clash(after[i], after[j])
    {
      if j == |rows| {
        assert after[i] == rows[i];
        assert !(Occupying(rows[i], req.doctorId.value, req.date.value) && rows[i].time == Some(req.time));
      } else {
        assert after[i] == rows[i] && after[j] == rows[j];
      }
    }
  }

  // ---------------------------------------------------------------------
  // checkStatus

  predicate Matches(a: Appointment, email: string, phone: string) {
    a.patientEmail == email && a.patientPhone == phone
  }

  /** A null time sorts as the lowest value. */
  function TimeKey(a: Appointment): string {
    a.time.GetOr("")
  }

  /** `orderBy(date, 'desc')->orderBy(time, 'desc')`: `a` may be listed before `b`. */
  predicate LaterOrSame(a: Appointment, b: Appointment) {
    a.date > b.date || (a.date == b.date && (TimeKey(a) == TimeKey(b) || Below(TimeKey(b), TimeKey(a))))
  }

  lemma LaterOrSameIsTotalPreorder()
    ensures TotalPreorder(LaterOrSame)
  {
    forall a: Appointment, b: Appointment
      ensures LaterOrSame(a, b) || LaterOrSame(b, a)
    {
      if TimeKey(a) != TimeKey(b) {
        BelowTotal(TimeKey(a), TimeKey(b));
      }
    }
    forall a: Appointment, b: Appointment, c: Appointment | LaterOrSame(a, b) && LaterOrSame(b, c)
      ensures LaterOrSame(a, c)
    {
      if a.date == b.date == c.date && TimeKey(a) != TimeKey(b) && TimeKey(b) != TimeKey(c) {
        BelowTransitive(TimeKey(c), TimeKey(b), TimeKey(a));
      }
    }
  }

  datatype LookupOutcome =
    | LookupInvalid                       // 422
    | NothingFound                        // 404
    | Found(appointments: seq<Appointment>)

  /**
   * Exactly the appointments with both the e-mail and the phone, each as
   * often as in the table, latest date first and, within a day, latest time first.
   */
  function CheckStatus(rows: seq<Appointment>, email: string, phone: string): (r: LookupOutcome)
    ensures r == LookupInvalid <==> !Filled(email) || !Filled(phone)
    ensures r == NothingFound <==>
      Filled(email) && Filled(phone) && forall i :: 0 <= i < |rows| ==> !Matches(rows[i], email, phone)
    ensures r.Found? ==>
      && |r.appointments| > 0
      && SortedBy(r.appointments, LaterOrSame)
      && forall a :: multiset(r.appointments)[a] == if Matches(a, email, phone) then multiset(rows)[a] else 0
  {
    if !Filled(email) || !Filled(phone) then LookupInvalid
    else
      var hits := Filter(rows, (a: Appointment) => Matches(a, email, phone));
      if hits == [] then
        assert forall i :: 0 <= i < |rows| ==> rows[i] in rows;
        NothingFound
      else
        LaterOrSameIsTotalPreorder();
        Found(SortBy(hits, LaterOrSame))
  }
}
