/**
 * The service catalogue as the admin service controller changes it:
 * activate, deactivate, delete (refused while appointments reference the
 * service) and the bulk reorder of display positions.
 *
 * The table is a map from id to row; `findOrFail` on a missing id answers 404
 * "Service not found".
 */
module Services {
  import opened Common
  import opened Text
  import Appointments

  datatype Service = Service(name: string, duration: nat, isActive: bool, order: int)

  /** A reply and the table after the action. */
  datatype Outcome = Outcome(reply: Reply, table: map<nat, Service>)

  const NotFound := Fail(404, "Service not found")

  /**
   * activate (target true) and deactivate (target false): refused when the
   * flag already has the target value; otherwise only that flag changes.
   */
  function SetActive(m: map<nat, Service>, id: nat, target: bool): (r: Outcome)
    ensures id !in m ==> r == Outcome(NotFound, m)
    ensures id in m && m[id].isActive == target ==>
      r.table == m && r.reply == Fail(400, if target then "Service is already active" else "Service is already inactive")
    ensures id in m && m[id].isActive != target ==>
      r.reply == Done && r.table == m[id := m[id].(isActive := target)]
    ensures r.table.Keys == m.Keys
    ensures forall k :: k in m && k != id ==> r.table[k] == m[k]
  {
    if id !in m then Outcome(NotFound, m)
    else if m[id].isActive == target then
      Outcome(Fail(400, if target then "Service is already active" else "Service is already inactive"), m)
    else Outcome(Done, m[id := m[id].(isActive := target)])
  }

  /** Deactivating what was just activated gives back the original table, and vice versa. */
  lemma SetActiveUndo(m: map<nat, Service>, id: nat, target: bool)
    requires SetActive(m, id, target).reply == Done
    ensures SetActive(SetActive(m, id, target).table, id, !target) == Outcome(Done, m)
  {
    var m1 := SetActive(m, id, target).table;
    assert m1[id := m1[id].(isActive := !target)] == m;
  }

  /** Appointments whose service is `id` (`$service->appointments()->count()`). */
  function ReferenceCount(appointments: seq<Appointments.Appointment>, id: nat): (n: nat)
    ensures n <= |appointments|
  {
    CountWhere(appointments, (a: Appointments.Appointment) => a.serviceId == Some(id))
  }

  lemma {:induction false} ReferenceCountZero(appointments: seq<Appointments.Appointment>, id: nat)
    ensures ReferenceCount(appointments, id) == 0 <==>
      forall i :: 0 <= i < |appointments| ==> appointments[i].serviceId != Some(id)
  {
    if appointments != [] {
      var init := appointments[..|appointments| - 1];
      ReferenceCountZero(init, id);
      assert forall i :: 0 <= i < |init| ==> init[i] == appointments[i];
    }
  }

  function DeleteRefusal(n: nat): string {
    "Cannot delete service. It has " + NatToString(n) + " associated appointment(s). Please deactivate instead."
  }

  /** destroy: refused with the count while any appointment refers to the service. */
  function Delete(m: map<nat, Service>, appointments: seq<Appointments.Appointment>, id: nat): (r: Outcome)
    ensures id !in m ==> r == Outcome(NotFound, m)
    ensures id in m && ReferenceCount(appointments, id) > 0 ==>
      r == Outcome(Fail(400, DeleteRefusal(ReferenceCount(appointments, id))), m)
    ensures r.reply == Done <==> id in m && ReferenceCount(appointments, id) == 0
    ensures r.reply == Done ==> r.table == m - {id}
  {
    if id !in m then Outcome(NotFound, m)
    else
      var n := ReferenceCount(appointments, id);
      if n > 0 then Outcome(Fail(400, DeleteRefusal(n)), m)
      else Outcome(Done, m - {id})
  }

  /** A service that some appointment references is never deleted. */
  lemma ReferencedServiceSurvives(m: map<nat, Service>, appointments: seq<Appointments.Appointment>, id: nat, i: nat)
    requires i < |appointments| && appointments[i].serviceId == Some(id)
    ensures Delete(m, appointments, id).table == m
  {
    ReferenceCountZero(appointments, id);
  }

  // ---------------------------------------------------------------------
  // reorder

  datatype Position = Position(id: nat, order: int)

  /** `services` required (non-empty), every id exists, every order an integer >= 0. */
  predicate ReorderValid(m: map<nat, Service>, entries: seq<Position>) {
    && |entries| > 0
    && forall i :: 0 <= i < |entries| ==> entries[i].id in m && entries[i].order >= 0
  }

  /** The order the last entry for `id` gives, if any. */
  function LastOrder(entries: seq<Position>, id: nat): (r: Option<int>)
    ensures r.None? <==> forall i :: 0 <= i < |entries| ==> entries[i].id != id
    ensures r.Some? ==>
      exists i :: 0 <= i < |entries| && entries[i] == Position(id, r.value)
                  && forall j :: i < j < |entries| ==> entries[j].id != id
  {
    if entries == [] then None
    else
      var init, last := entries[..|entries| - 1], entries[|entries| - 1];
      if last.id == id then Some(last.order)
      else
        var r := LastOrder(init, id);
        assert forall i :: 0 <= i < |init| ==> init[i] == entries[i];
        r
  }

  /** The updates applied one after another, first to last. */
  function ApplyPositions(m: map<nat, Service>, entries: seq<Position>): (r: map<nat, Service>)
    requires forall i :: 0 <= i < |entries| ==> entries[i].id in m
    ensures r.Keys == m.Keys
    ensures forall k :: k in m ==> r[k] == match LastOrder(entries, k)
      case None => m[k]
      case Some(o) => m[k].(order := o)
  {
    if entries == [] then m
    else
      var init, last := entries[..|entries| - 1], entries[|entries| - 1];
      var before := ApplyPositions(m, init);
      before[last.id := before[last.id].(order := last.order)]
  }

  /** Applying one more entry updates that one service's order. */
  lemma ApplyPositionsStep(m: map<nat, Service>, entries: seq<Position>, i: nat)
    requires forall k :: 0 <= k < |entries| ==> entries[k].id in m
    requires i < |entries|
    ensures ApplyPositions(m, entries[..i + 1]) ==
      var before := ApplyPositions(m, entries[..i]);
      before[entries[i].id := before[entries[i].id].(order := entries[i].order)]
  {
    var p := entries[..i + 1];
    assert p[..|p| - 1] == entries[..i];
    assert p[|p| - 1] == entries[i];
  }

  /** When an id is listed twice, the later entry wins. */
  lemma LaterEntryWins(m: map<nat, Service>, entries: seq<Position>, i: nat, j: nat)
    requires forall k :: 0 <= k < |entries| ==> entries[k].id in m
    requires i < j < |entries| && entries[i].id == entries[j].id
    requires forall k :: j < k < |entries| ==> entries[k].id != entries[j].id
    ensures ApplyPositions(m, entries)[entries[i].id].order == entries[j].order
  {
    var id := entries[j].id;
    var o :| LastOrder(entries, id) == Some(o);
    var k :| 0 <= k < |entries| && entries[k] == Position(id, o)
        && forall l :: k < l < |entries| ==> entries[l].id != id;
    assert k == j;
  }

  class ServiceCatalog {
    var services: map<nat, Service>

    constructor (initial: map<nat, Service>)
      ensures services == initial
    {
      services := initial;
    }

    method Activate(id: nat) returns (r: Reply)
      modifies this
      ensures Outcome(r, services) == SetActive(old(services), id, true)
    {
      if id !in services {
        return NotFound;
      }
      var s := services[id];
      if s.isActive {
        return Fail(400, "Service is already active");
      }
      services := services[id := s.(isActive := true)];
      r := Done;
    }

    method Deactivate(id: nat) returns (r: Reply)
      modifies this
      ensures Outcome(r, services) == SetActive(old(services), id, false)
    {
      if id !in services {
        return NotFound;
      }
      var s := services[id];
      if !s.isActive {
        return Fail(400, "Service is already inactive");
      }
      services := services[id := s.(isActive := false)];
      r := Done;
    }

    method Destroy(id: nat, appointments: seq<Appointments.Appointment>) returns (r: Reply)
      modifies this
      ensures Outcome(r, services) == Delete(old(services), appointments, id)
    {
      if id !in services {
        return NotFound;
      }
      var n := ReferenceCount(appointments, id);
      if n > 0 {
        return Fail(400, DeleteRefusal(n));
      }
      services := services - {id};
      r := Done;
    }

    /**
     * reorder: rejected (422) before any update unless the request is valid;
     * otherwise each entry's order is written in list order.
     */
    method Reorder(entries: seq<Position>) returns (accepted: bool)
      modifies this
      ensures accepted <==> ReorderValid(old(services), entries)
      ensures !accepted ==> services == old(services)
      ensures accepted ==> services == ApplyPositions(old(services), entries)
    {
      if !ReorderValid(services, entries) {
        return false;
      }
      ghost var initial := services;
      var i := 0;
      while i < |entries|
        invariant 0 <= i <= |entries|
        invariant services == ApplyPositions(initial, entries[..i])
      {
        var e := entries[i];
        ApplyPositionsStep(initial, entries, i);
        services := services[e.id := services[e.id].(order := e.order)];
        i := i + 1;
      }
      assert entries[..|entries|] == entries;
      accepted := true;
    }
  }
}
