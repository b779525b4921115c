/**
 * The appointments table. The admin actions load one row by id, assign its
 * fields one by one and save it; the public booking appends a new row. Row
 * `k` of `rows` is the appointment with id `k + 1`.
 */
module AppointmentTable {
  import opened Common
  import opened Users
  import opened Appointments
  import Services
  import Booking

  const NotFound := Fail(404, "Appointment not found")

  class Table {
    var rows: seq<Appointment>

    constructor (initial: seq<Appointment>)
      ensures rows == initial
    {
      rows := initial;
    }

    method Approve(id: nat, notes: Supplied<Option<string>>, now: Instant) returns (r: Reply)
      modifies this
      ensures Applied(old(rows), rows, id, r, NotFound, a => Appointments.Approve(a, notes, now))
    {
      if !(1 <= id <= |rows|) {
        return NotFound;
      }
      var a := rows[id - 1];
      if a.status == Confirmed {
        return Fail(400, "Appointment is already confirmed");
      }
      a := a.(status := Confirmed);
      a := a.(confirmedAt := Some(now));
      if notes.Given? {
        a := a.(adminNotes := notes.value);
      }
      rows := rows[id - 1 := a];
      r := Done;
    }

    method Cancel(id: nat, notes: Supplied<Option<string>>) returns (r: Reply)
      modifies this
      ensures Applied(old(rows), rows, id, r, NotFound, a => Appointments.Cancel(a, notes))
    {
      if !(1 <= id <= |rows|) {
        return NotFound;
      }
      var a := rows[id - 1];
      if a.status == Cancelled {
        return Fail(400, "Appointment is already cancelled");
      }
      if a.status == Completed {
        return Fail(400, "Cannot cancel a completed appointment");
      }
      a := a.(status := Cancelled);
      if notes.Given? {
        a := a.(adminNotes := notes.value);
      }
      rows := rows[id - 1 := a];
      r := Done;
    }

    method Reject(id: nat, notes: Supplied<Option<string>>) returns (r: Reply)
      modifies this
      ensures Applied(old(rows), rows, id, r, NotFound, a => Appointments.Reject(a, notes))
    {
      if !(1 <= id <= |rows|) {
        return NotFound;
      }
      var a := rows[id - 1];
      if a.status == Rejected {
        return Fail(400, "Appointment is already rejected");
      }
      a := a.(status := Rejected);
      if notes.Given? {
        a := a.(adminNotes := notes.value);
      }
      rows := rows[id - 1 := a];
      r := Done;
    }

    method Complete(id: nat, notes: Supplied<Option<string>>) returns (r: Reply)
      modifies this
      ensures Applied(old(rows), rows, id, r, NotFound, a => Appointments.Complete(a, notes))
    {
      if !(1 <= id <= |rows|) {
        return NotFound;
      }
      var a := rows[id - 1];
      if a.status == Completed {
        return Fail(400, "Appointment is already completed");
      }
      if a.status != Confirmed {
        return Fail(400, "Only confirmed appointments can be marked as completed");
      }
      a := a.(status := Completed);
      if notes.Given? {
        a := a.(adminNotes := notes.value);
      }
      rows := rows[id - 1 := a];
      r := Done;
    }

    /** update: the validated fields are written, then the confirmation stamp rule applies. */
    method Update(id: nat, req: UpdateRequest, now: Instant) returns (r: Reply)
      modifies this
      ensures Applied(old(rows), rows, id, r, NotFound, a => Moved(Appointments.Update(a, req, now)))
    {
      if !(1 <= id <= |rows|) {
        return NotFound;
      }
      var a := rows[id - 1];
      if req.status.Given? {
        a := a.(status := req.status.value);
      }
      if req.adminNotes.Given? {
        a := a.(adminNotes := req.adminNotes.value);
      }
      if req.status.Given? && req.status.value == Confirmed && a.confirmedAt.None? {
        a := a.(confirmedAt := Some(now));
      }
      rows := rows[id - 1 := a];
      r := Done;
    }

    /** The public booking: the guards in order, then one new pending row, or nothing. */
    method Book(req: Booking.BookingRequest, today: Date,
                users: map<nat, User>, services: map<nat, Services.Service>) returns (r: Booking.BookingOutcome)
      modifies this
      ensures r == Booking.Decide(old(rows), req, today, users, services)
      ensures r.Booked? ==> rows == old(rows) + [r.record]
      ensures !r.Booked? ==> rows == old(rows)
    {
      if !Booking.BookingRequestValid(req, today, users, services) {
        return Booking.BookingInvalid;
      }
      if !Booking.ActiveDoctor(users, req.doctorId.value) {
        return Booking.DoctorUnavailable;
      }
      if Booking.ServiceGiven(req) && !Booking.ActiveService(services, req.serviceId.value) {
        return Booking.ServiceUnavailable;
      }
      if Booking.Conflict(rows, req.doctorId.value, req.date.value, req.time) {
        return Booking.SlotTaken;
      }
      var record := Booking.NewAppointment(req);
      rows := rows + [record];
      r := Booking.Booked(record);
    }
  }
}
