/** The database context: the tables the controllers read and change. */
module Data {
  import opened Models
  import Seqs

  /** In-memory tables. Identity columns hand out `nextAppointmentId` and `nextUserId`. */
  class AppDb {
    var services: Services
    var appointments: seq<Appointment>
    var users: seq<User>
    var nextAppointmentId: int
    var nextUserId: int

    /** Foreign keys hold, durations are at least a minute, identity columns are fresh and unique. */
    ghost predicate Valid()
      reads this
    {
      && Joined(appointments, services)
      && PositiveDurations(services)
      && AppointmentIdsUnique(appointments)
      && (forall a | a in appointments :: a.id < nextAppointmentId)
      && UserIdsUnique(users)
      && (forall u | u in users :: u.id < nextUserId)
    }

    /** Empty appointment and user tables over a given service catalogue. */
    constructor (services: Services)
      requires PositiveDurations(services)
      ensures Valid()
      ensures this.services == services && appointments == [] && users == []
    {
      this.services := services;
      appointments := [];
      users := [];
      nextAppointmentId := 1;
      nextUserId := 1;
    }

    /** `_context.Add(appointment)` and save: the row gets the next identity value. */
    method AddAppointment(row: Appointment)
      requires Valid() && row.serviceId in services && row.id == nextAppointmentId
      modifies this
      ensures Valid()
      ensures appointments == old(appointments) + [row] && nextAppointmentId == old(nextAppointmentId) + 1
      ensures services == old(services) && users == old(users) && nextUserId == old(nextUserId)
    {
      AppendFreshAppointment(appointments, services, row);
      appointments := appointments + [row];
      nextAppointmentId := nextAppointmentId + 1;
    }

    /** `_context.Appointments.Remove(appointment)` and save. */
    method RemoveAppointmentAt(k: nat)
      requires Valid() && k < |appointments|
      modifies this
      ensures Valid()
      ensures appointments == Seqs.RemoveAt(old(appointments), k)
      ensures services == old(services) && users == old(users)
      ensures nextAppointmentId == old(nextAppointmentId) && nextUserId == old(nextUserId)
      ensures old(SchedulesDisjoint(appointments, services)) ==> SchedulesDisjoint(appointments, services)
      ensures old(AtMostOnePerUserPerDay(appointments)) ==> AtMostOnePerUserPerDay(appointments)
      ensures old(AllWithinBusinessHours(appointments, services)) ==> AllWithinBusinessHours(appointments, services)
    {
      var kept := Seqs.RemoveAt(appointments, k);
      assert forall a | a in kept :: a in appointments by {
        forall a | a in kept ensures a in appointments { assert a in multiset(kept); }
      }
      SubtableKeepsInvariants(appointments, kept, services);
      appointments := kept;
    }

    /** `_context.Appointments.RemoveRange(rows)` and save: keeps the rows satisfying `keep`. */
    method RemoveAppointmentsWhere(keep: Appointment -> bool)
      requires Valid()
      modifies this
      ensures Valid()
      ensures appointments == Seqs.Filter(old(appointments), keep)
      ensures services == old(services) && users == old(users)
      ensures nextAppointmentId == old(nextAppointmentId) && nextUserId == old(nextUserId)
      ensures old(SchedulesDisjoint(appointments, services)) ==> SchedulesDisjoint(appointments, services)
      ensures old(AtMostOnePerUserPerDay(appointments)) ==> AtMostOnePerUserPerDay(appointments)
      ensures old(AllWithinBusinessHours(appointments, services)) ==> AllWithinBusinessHours(appointments, services)
    {
      var kept := Seqs.Filter(appointments, keep);
      assert forall a | a in kept :: multiset(kept)[a] == 1 by {
        forall a | a in kept ensures multiset(kept)[a] == 1 {
          assert multiset(kept)[a] == multiset(appointments)[a];
        }
      }
      SubtableKeepsInvariants(appointments, kept, services);
      appointments := kept;
    }

    /** `_context.Add(user)` and save: the row gets the next identity value. */
    method AddUser(user: User)
      requires Valid() && user.id == nextUserId
      modifies this
      ensures Valid()
      ensures users == old(users) + [user] && nextUserId == old(nextUserId) + 1
      ensures services == old(services) && appointments == old(appointments)
      ensures nextAppointmentId == old(nextAppointmentId)
    {
      var grown := users + [user];
      forall i, j | 0 <= i < j < |grown| ensures grown[i].id != grown[j].id {
        if j == |users| { assert grown[i] in users; }
        else { assert grown[i] == users[i] && grown[j] == users[j]; }
      }
      users := grown;
      nextUserId := nextUserId + 1;
    }

    /** `_context.Update(user)` and save, for a row whose id is unchanged. */
    method UpdateUserAt(k: nat, user: User)
      requires Valid() && k < |users| && user.id == users[k].id
      modifies this
      ensures Valid()
      ensures users == old(users)[k := user]
      ensures services == old(services) && appointments == old(appointments)
      ensures nextAppointmentId == old(nextAppointmentId) && nextUserId == old(nextUserId)
    {
      UpdateUserKeepsIds(users, k, user, nextUserId);
      users := users[k := user];
    }
  }
}
