/**
 * The appointment record and the admin status lifecycle: approve, cancel,
 * reject, complete, and the `confirmed_at` rule of update.
 *
 * Each admin action is first stated as a pure transition of one record
 * (`Refused` with the error the controller answers, or `Moved` to the new
 * record); the table class in AppointmentTable performs the same steps in
 * place and is proved to agree with these functions.
 *
 * The guards follow the controller literally, not a tidier state diagram:
 * approve is allowed from every status except confirmed (completed included)
 * and always overwrites `confirmed_at`; reject is allowed from everything
 * except rejected; cancel is refused only for cancelled and completed.
 */
module Appointments {
  import opened Common

  /** The five values of the `status` enum column. */
  datatype Status = Pending | Confirmed | Completed | Cancelled | Rejected

  function StatusName(s: Status): (name: string)
    ensures |name| > 0
  {
    match s
    case Pending => "pending"
    case Confirmed => "confirmed"
    case Completed => "completed"
    case Cancelled => "cancelled"
    case Rejected => "rejected"
  }

  lemma StatusNameInjective(a: Status, b: Status)
    requires StatusName(a) == StatusName(b)
    ensures a == b
  {
  }

  /**
   * An appointment row. The public booking form and the admin screens use
   * different column names for the same things; the record is abstract.
   * `time` is the "HH:MM" text the booking stored (nullable in the table).
   */
  datatype Appointment = Appointment(
    doctorId: Option<nat>,
    serviceId: Option<nat>,
    patientName: string,
    patientEmail: string,
    patientPhone: string,
    date: Date,
    time: Option<string>,
    notes: Option<string>,
    status: Status,
    adminNotes: Option<string>,
    confirmedAt: Option<Instant>)

  /** Everything the patient booked is the same in `a` and `b`. */
  predicate SameBooking(a: Appointment, b: Appointment) {
    && a.doctorId == b.doctorId && a.serviceId == b.serviceId
    && a.patientName == b.patientName && a.patientEmail == b.patientEmail
    && a.patientPhone == b.patientPhone && a.date == b.date && a.time == b.time
    && a.notes == b.notes
  }


  // ---------------------------------------------------------------------
  // The four guarded actions. `notes` is Absent when the request has no
  // `admin_notes` key; a present key may still carry null.

  function Approve(a: Appointment, notes: Supplied<Option<string>>, now: Instant): (t: Transition<Appointment>)
    ensures t.Refused? <==> a.status == Confirmed
    ensures t.Refused? ==> t == Refused(400, "Appointment is already confirmed")
    ensures t.Moved? ==>
      && t.next.status == Confirmed
      && t.next.confirmedAt == Some(now)
      && t.next.adminNotes == ApplySupplied(a.adminNotes, notes)
      && SameBooking(a, t.next)
  {
    if a.status == Confirmed then Refused(400, "Appointment is already confirmed")
    else Moved(a.(status := Confirmed, confirmedAt := Some(now), adminNotes := ApplySupplied(a.adminNotes, notes)))
  }

  function Cancel(a: Appointment, notes: Supplied<Option<string>>): (t: Transition<Appointment>)
    ensures t.Refused? <==> a.status == Cancelled || a.status == Completed
    ensures a.status == Cancelled ==> t == Refused(400, "Appointment is already cancelled")
    ensures a.status == Completed ==> t == Refused(400, "Cannot cancel a completed appointment")
    ensures t.Moved? ==>
      && t.next.status == Cancelled
      && t.next.confirmedAt == a.confirmedAt
      && t.next.adminNotes == ApplySupplied(a.adminNotes, notes)
      && SameBooking(a, t.next)
  {
    if a.status == Cancelled then Refused(400, "Appointment is already cancelled")
    else if a.status == Completed then Refused(400, "Cannot cancel a completed appointment")
    else Moved(a.(status := Cancelled, adminNotes := ApplySupplied(a.adminNotes, notes)))
  }

  function Reject(a: Appointment, notes: Supplied<Option<string>>): (t: Transition<Appointment>)
    ensures t.Refused? <==> a.status == Rejected
    ensures t.Refused? ==> t == Refused(400, "Appointment is already rejected")
    ensures t.Moved? ==>
      && t.next.status == Rejected
      && t.next.confirmedAt == a.confirmedAt
      && t.next.adminNotes == ApplySupplied(a.adminNotes, notes)
      && SameBooking(a, t.next)
  {
    if a.status == Rejected then Refused(400, "Appointment is already rejected")
    else Moved(a.(status := Rejected, adminNotes := ApplySupplied(a.adminNotes, notes)))
  }

  function Complete(a: Appointment, notes: Supplied<Option<string>>): (t: Transition<Appointment>)
    ensures t.Moved? <==> a.status == Confirmed
    ensures a.status == Completed ==> t == Refused(400, "Appointment is already completed")
    ensures a.status != Completed && a.status != Confirmed ==>
      t == Refused(400, "Only confirmed appointments can be marked as completed")
    ensures t.Moved? ==>
      && t.next.status == Completed
      && t.next.confirmedAt == a.confirmedAt
      && t.next.adminNotes == ApplySupplied(a.adminNotes, notes)
      && SameBooking(a, t.next)
  {
    if a.status == Completed then Refused(400, "Appointment is already completed")
    else if a.status != Confirmed then Refused(400, "Only confirmed appointments can be marked as completed")
    else Moved(a.(status := Completed, adminNotes := ApplySupplied(a.adminNotes, notes)))
  }

  // ---------------------------------------------------------------------
  // update: the validated fields are written, then `confirmed_at` is stamped
  // when status "confirmed" was requested and no stamp exists yet.

  /** The `status` and `admin_notes` keys of an update request. */
  datatype UpdateRequest = UpdateRequest(status: Supplied<Status>, adminNotes: Supplied<Option<string>>)

  function Update(a: Appointment, req: UpdateRequest, now: Instant): (b: Appointment)
    ensures b.status == ApplySupplied(a.status, req.status)
    ensures b.adminNotes == ApplySupplied(a.adminNotes, req.adminNotes)
    ensures a.confirmedAt.Some? ==> b.confirmedAt == a.confirmedAt
    ensures a.confirmedAt.None? ==>
      (b.confirmedAt.Some? <==> req.status == Given(Confirmed))
      && (b.confirmedAt.Some? ==> b.confirmedAt == Some(now))
    ensures SameBooking(a, b)
  {
    var written := a.(status := ApplySupplied(a.status, req.status),
                      adminNotes := ApplySupplied(a.adminNotes, req.adminNotes));
    if req.status.Given? && req.status.value == Confirmed && written.confirmedAt.None? then
      written.(confirmedAt := Some(now))
    else
      written
  }

  // ---------------------------------------------------------------------
  // Sequences of admin actions

  datatype Action =
    | ApproveAction(notes: Supplied<Option<string>>, now: Instant)
    | CancelAction(notes: Supplied<Option<string>>)
    | RejectAction(notes: Supplied<Option<string>>)
    | CompleteAction(notes: Supplied<Option<string>>)
    | UpdateAction(req: UpdateRequest, now: Instant)

  /** The record after one action; a refused action leaves it as it was. */
  function Step(a: Appointment, act: Action): Appointment {
    var t := match act
      case ApproveAction(n, now) => Approve(a, n, now)
      case CancelAction(n) => Cancel(a, n)
      case RejectAction(n) => Reject(a, n)
      case CompleteAction(n) => Complete(a, n)
      case UpdateAction(req, now) => Moved(Update(a, req, now));
    if t.Moved? then t.next else a
  }

  /** The record after the actions, applied first to last. */
  function Run(a: Appointment, acts: seq<Action>): Appointment {
    if acts == [] then a else Step(Run(a, acts[..|acts| - 1]), acts[|acts| - 1])
  }

  /** A confirmed appointment carries its confirmation stamp. */
  predicate Stamped(a: Appointment) {
    a.status == Confirmed ==> a.confirmedAt.Some?
  }

  /** One action keeps a stamp; only a step into Confirmed creates one; the booking never changes. */
  lemma StepFacts(a: Appointment, act: Action)
    ensures a.confirmedAt.Some? ==> Step(a, act).confirmedAt.Some?
    ensures a.confirmedAt.None? && Step(a, act).confirmedAt.Some? ==> Step(a, act).status == Confirmed
    ensures Stamped(a) ==> Stamped(Step(a, act))
    ensures SameBooking(a, Step(a, act))
  {
  }

  /** No sequence of admin actions ever clears `confirmed_at`. */
  lemma {:induction false} RunNeverClearsStamp(a: Appointment, acts: seq<Action>)
    requires a.confirmedAt.Some?
    ensures Run(a, acts).confirmedAt.Some?
  {
    if acts != [] {
      RunNeverClearsStamp(a, acts[..|acts| - 1]);
      StepFacts(Run(a, acts[..|acts| - 1]), acts[|acts| - 1]);
    }
  }

  /** Every confirmed appointment has a confirmation stamp, whatever actions led there. */
  lemma {:induction false} RunKeepsStamped(a: Appointment, acts: seq<Action>)
    requires Stamped(a)
    ensures Stamped(Run(a, acts))
  {
    if acts != [] {
      RunKeepsStamped(a, acts[..|acts| - 1]);
      StepFacts(Run(a, acts[..|acts| - 1]), acts[|acts| - 1]);
    }
  }

  /**
   * Starting from an unconfirmed, unstamped record (a fresh booking), the
   * record carries a confirmation stamp exactly when it has been confirmed
   * at some point of the run.
   */
  lemma {:induction false} StampedIffEverConfirmed(a: Appointment, acts: seq<Action>)
    requires a.status != Confirmed && a.confirmedAt.None?
    ensures Run(a, acts).confirmedAt.Some? <==>
      exists k :: 0 <= k <= |acts| && Run(a, acts[..k]).status == Confirmed
  {
    if acts == [] {
      assert acts[..0] == acts;
    } else {
      var init, last := acts[..|acts| - 1], acts[|acts| - 1];
      var b := Run(a, init);
      StampedIffEverConfirmed(a, init);
      StepFacts(b, last);
      assert acts[..|acts|] == acts;
      forall k | 0 <= k <= |init|
        ensures acts[..k] == init[..k]
      {
      }
      if Run(a, acts).confirmedAt.Some? {
        if b.confirmedAt.Some? {
          var k :| 0 <= k <= |init| && Run(a, init[..k]).status == Confirmed;
          assert Run(a, acts[..k]).status == Confirmed;
        } else {
          assert Run(a, acts[..|acts|]).status == Confirmed;
        }
      } else {
        RunKeepsStamped(a, acts);
        forall k | 0 <= k <= |acts|
          ensures Run(a, acts[..k]).status != Confirmed
        {
          if k < |acts| {
            assert acts[..k] == init[..k];
          }
        }
      }
    }
  }

  // ---------------------------------------------------------------------
  // statistics

  function CountStatus(rows: seq<Appointment>, s: Status): (n: nat)
    ensures n <= |rows|
  {
    CountWhere(rows, (a: Appointment) => a.status == s)
  }

  /** Every row is counted under exactly one status. */
  lemma {:induction false} StatusCountsAddUp(rows: seq<Appointment>)
    ensures CountStatus(rows, Pending) + CountStatus(rows, Confirmed) + CountStatus(rows, Completed)
          + CountStatus(rows, Cancelled) + CountStatus(rows, Rejected) == |rows|
  {
    if rows != [] {
      StatusCountsAddUp(rows[..|rows| - 1]);
    }
  }

  datatype Statistics = Statistics(
    total: nat, pending: nat, confirmed: nat, completed: nat, cancelled: nat, rejected: nat, today: nat)

  /** The counters of the statistics endpoint (the week and month windows are not modelled). */
  function Stats(rows: seq<Appointment>, today: Date): (s: Statistics)
    ensures s.total == |rows|
    ensures s.pending + s.confirmed + s.completed + s.cancelled + s.rejected == s.total
    ensures s.today <= s.total
    ensures s.today == CountWhere(rows, (a: Appointment) => a.date == today)
    ensures s.pending == CountStatus(rows, Pending) && s.confirmed == CountStatus(rows, Confirmed)
    ensures s.completed == CountStatus(rows, Completed) && s.cancelled == CountStatus(rows, Cancelled)
    ensures s.rejected == CountStatus(rows, Rejected)
  {
    StatusCountsAddUp(rows);
    Statistics(|rows|, CountStatus(rows, Pending), CountStatus(rows, Confirmed), CountStatus(rows, Completed),
               CountStatus(rows, Cancelled), CountStatus(rows, Rejected),
               CountWhere(rows, (a: Appointment) => a.date == today))
  }
}
