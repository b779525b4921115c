/**
 * The doctor side of the users table as the admin doctor controller sees it.
 * Every by-id action first looks the id up among users whose role is doctor
 * (`User::where('role', 'doctor')->findOrFail($id)`), so any other id,
 * an admin's included, answers 404 "Doctor not found".
 */
module Doctors {
  import opened Common
  import opened Text
  import opened Users
  import Appointments

  /** A reply and the users table after the action. */
  datatype Outcome = Outcome(reply: Reply, table: map<nat, User>)

  const NotFound := Fail(404, "Doctor not found")

  /** The role-scoped lookup. */
  function DoctorById(m: map<nat, User>, id: nat): (r: Option<User>)
    ensures r.Some? <==> id in m && m[id].role == DoctorRole
    ensures r.Some? ==> r.value == m[id]
  {
    if id in m && m[id].role == DoctorRole then Some(m[id]) else None
  }

  /** Only doctors are ever found: an admin id gives 404 even though the row exists. */
  lemma LookupSeesOnlyDoctors(m: map<nat, User>, id: nat)
    requires id in m && m[id].role != DoctorRole
    ensures DoctorById(m, id).None?
  {
  }

  /**
   * activate (target true) and deactivate (target false): refused when the
   * flag already has the target value; otherwise only `is_active` changes.
   */
  function SetActive(m: map<nat, User>, id: nat, target: bool): (r: Outcome)
    ensures DoctorById(m, id).None? ==> r == Outcome(NotFound, m)
    ensures DoctorById(m, id).Some? && m[id].isActive == target ==>
      r.table == m && r.reply == Fail(400, if target then "Doctor is already active" else "Doctor is already inactive")
    ensures DoctorById(m, id).Some? && m[id].isActive != target ==>
      r.reply == Done && r.table == m[id := m[id].(isActive := target)]
    ensures r.table.Keys == m.Keys
    ensures forall k :: k in m && k != id ==> r.table[k] == m[k]
  {
    match DoctorById(m, id)
    case None => Outcome(NotFound, m)
    case Some(d) =>
      if d.isActive == target then
        Outcome(Fail(400, if target then "Doctor is already active" else "Doctor is already inactive"), m)
      else Outcome(Done, m[id := d.(isActive := target)])
  }

  /** A successful activation or deactivation can be undone by the opposite action. */
  lemma SetActiveUndo(m: map<nat, User>, id: nat, target: bool)
    requires SetActive(m, id, target).reply == Done
    ensures SetActive(SetActive(m, id, target).table, id, !target) == Outcome(Done, m)
  {
    var m1 := SetActive(m, id, target).table;
    assert m1[id := m1[id].(isActive := !target)] == m;
  }

  /** Appointments assigned to the doctor (`doctorAppointments()->count()`). */
  function AppointmentCount(appointments: seq<Appointments.Appointment>, id: nat): (n: nat)
    ensures n <= |appointments|
  {
    CountWhere(appointments, (a: Appointments.Appointment) => a.doctorId == Some(id))
  }

  lemma {:induction false} AppointmentCountZero(appointments: seq<Appointments.Appointment>, id: nat)
    ensures AppointmentCount(appointments, id) == 0 <==>
      forall i :: 0 <= i < |appointments| ==> appointments[i].doctorId != Some(id)
  {
    if appointments != [] {
      var init := appointments[..|appointments| - 1];
      AppointmentCountZero(init, id);
      assert forall i :: 0 <= i < |init| ==> init[i] == appointments[i];
    }
  }

  function DeleteRefusal(n: nat): string {
    "Cannot delete doctor. They have " + NatToString(n) + " associated appointment(s). Please deactivate instead."
  }

  /** destroy: refused, with the count in the message, while the doctor has appointments. */
  function Delete(m: map<nat, User>, appointments: seq<Appointments.Appointment>, id: nat): (r: Outcome)
    ensures DoctorById(m, id).None? ==> r == Outcome(NotFound, m)
    ensures DoctorById(m, id).Some? && AppointmentCount(appointments, id) > 0 ==>
      r == Outcome(Fail(400, DeleteRefusal(AppointmentCount(appointments, id))), m)
    ensures r.reply == Done <==> DoctorById(m, id).Some? && AppointmentCount(appointments, id) == 0
    ensures r.reply == Done ==> r.table == m - {id}
  {
    if DoctorById(m, id).None? then Outcome(NotFound, m)
    else
      var n := AppointmentCount(appointments, id);
      if n > 0 then Outcome(Fail(400, DeleteRefusal(n)), m)
      else Outcome(Done, m - {id})
  }

  /** A doctor with any appointment is never deleted. */
  lemma DoctorWithAppointmentsSurvives(m: map<nat, User>, appointments: seq<Appointments.Appointment>, id: nat, i: nat)
    requires i < |appointments| && appointments[i].doctorId == Some(id)
    ensures Delete(m, appointments, id).table == m
  {
    AppointmentCountZero(appointments, id);
  }

  /** store: the new row's role is doctor, whatever the request said. */
  function NewDoctor(data: User, id: nat): (u: User)
    ensures u.role == DoctorRole && u.id == id
    ensures u.email == data.email && u.isActive == data.isActive && u.isDoctor == data.isDoctor
    ensures u.yearsOfExperience == data.yearsOfExperience
  {
    data.(id := id, role := DoctorRole)
  }

  class DoctorDirectory {
    var users: map<nat, User>
    var nextId: nat

    /** Every row is keyed by its own id, and ids below `nextId` are the ones handed out. */
    ghost predicate Valid()
      reads this
    {
      forall k :: k in users ==> users[k].id == k && k < nextId
    }

    constructor ()
      ensures Valid() && users == map[]
    {
      users := map[];
      nextId := 1;
    }

    method Store(data: User) returns (id: nat)
      requires Valid()
      modifies this
      ensures Valid()
      ensures id !in old(users)
      ensures users == old(users)[id := NewDoctor(data, id)]
      ensures DoctorById(users, id) == Some(NewDoctor(data, id))
    {
      id := nextId;
      var row := data.(id := id);
      row := row.(role := DoctorRole);
      users := users[id := row];
      nextId := nextId + 1;
    }

    method Activate(id: nat) returns (r: Reply)
      requires Valid()
      modifies this
      ensures Valid()
      ensures Outcome(r, users) == SetActive(old(users), id, true)
      ensures nextId == old(nextId)
    {
      if id !in users || users[id].role != DoctorRole {
        return NotFound;
      }
      var d := users[id];
      if d.isActive {
        return Fail(400, "Doctor is already active");
      }
      users := users[id := d.(isActive := true)];
      r := Done;
    }

    method Deactivate(id: nat) returns (r: Reply)
      requires Valid()
      modifies this
      ensures Valid()
      ensures Outcome(r, users) == SetActive(old(users), id, false)
      ensures nextId == old(nextId)
    {
      if id !in users || users[id].role != DoctorRole {
        return NotFound;
      }
      var d := users[id];
      if !d.isActive {
        return Fail(400, "Doctor is already inactive");
      }
      users := users[id := d.(isActive := false)];
      r := Done;
    }

    method Destroy(id: nat, appointments: seq<Appointments.Appointment>) returns (r: Reply)
      requires Valid()
      modifies this
      ensures Valid()
      ensures Outcome(r, users) == Delete(old(users), appointments, id)
      ensures nextId == old(nextId)
    {
      if id !in users || users[id].role != DoctorRole {
        return NotFound;
      }
      var n := AppointmentCount(appointments, id);
      if n > 0 {
        return Fail(400, DeleteRefusal(n));
      }
      users := users - {id};
      r := Done;
    }
  }
}
