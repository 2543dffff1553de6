/** The rows of the appointment, service and user tables, and facts about a table as a whole. */
module Models {
  import opened Wrappers
  import opened Calendar
  import opened Intervals
  import Seqs

  /** A service on offer; only its duration matters for scheduling. */
  datatype Service = Service(name: string, durationMinutes: int)

  /** The service table, keyed by service id. */
  type Services = map<int, Service>

  /** A booked appointment. `date` is its start instant; `userId` is set when a signed-in user booked it. */
  datatype Appointment = Appointment(
    id: int,
    customerName: string,
    customerPhone: string,
    date: int,
    barberId: int,
    serviceId: int,
    createdDate: int,
    userId: Option<int>)

  /** A registered user. */
  datatype User = User(
    id: int,
    fullName: string,
    email: string,
    phoneNumber: Option<string>,
    password: string,
    role: string)

  /** Every appointment refers to an existing service (the foreign key). */
  predicate Joined(appointments: seq<Appointment>, services: Services) {
    forall a | a in appointments :: a.serviceId in services
  }

  /** A service lasts at least one minute. */
  predicate PositiveDurations(services: Services) {
    forall id | id in services :: services[id].durationMinutes >= 1
  }

  /** `a.AppointmentDate.AddMinutes(a.Service.DurationMinutes)`. */
  function EndOf(a: Appointment, services: Services): int
    requires a.serviceId in services
  {
    a.date + services[a.serviceId].durationMinutes
  }

  /** The span an appointment occupies. */
  function SpanOf(a: Appointment, services: Services): (s: Span)
    requires a.serviceId in services
    ensures s.start == a.date && s.end == EndOf(a, services)
  {
    Span(a.date, EndOf(a, services))
  }

  /** The spans of a list of appointments, in order. */
  function SpansOf(appointments: seq<Appointment>, services: Services): (r: seq<Span>)
    requires Joined(appointments, services)
    ensures |r| == |appointments|
    ensures forall k :: 0 <= k < |r| ==> r[k] == SpanOf(appointments[k], services)
    ensures PositiveDurations(services) ==> forall k :: 0 <= k < |r| ==> r[k].start < r[k].end
  {
    seq(|appointments|, k requires 0 <= k < |appointments| => SpanOf(appointments[k], services))
  }

  /** No barber has two appointments (two rows with different ids) whose spans overlap. */
  predicate SchedulesDisjoint(appointments: seq<Appointment>, services: Services)
    requires Joined(appointments, services)
  {
    forall a, b | a in appointments && b in appointments && a.id != b.id && a.barberId == b.barberId ::
      !Overlaps(a.date, EndOf(a, services), b.date, EndOf(b, services))
  }

  /** No user holds two appointments on the same date. */
  predicate AtMostOnePerUserPerDay(appointments: seq<Appointment>) {
    forall a, b | a in appointments && b in appointments && a.id != b.id && a.userId.Some? && a.userId == b.userId ::
      DateOf(a.date) != DateOf(b.date)
  }

  /** Every appointment starts and ends within 10:00-22:00 of its own date. */
  predicate AllWithinBusinessHours(appointments: seq<Appointment>, services: Services)
    requires Joined(appointments, services)
  {
    forall a | a in appointments :: WithinBusinessHours(a, services)
  }

  /** Removing rows from a table keeps the foreign keys and each of the three scheduling rules. */
  lemma SubtableKeepsInvariants(appointments: seq<Appointment>, kept: seq<Appointment>, services: Services)
    requires Joined(appointments, services)
    requires forall a | a in kept :: a in appointments
    ensures Joined(kept, services)
    ensures SchedulesDisjoint(appointments, services) ==> SchedulesDisjoint(kept, services)
    ensures AtMostOnePerUserPerDay(appointments) ==> AtMostOnePerUserPerDay(kept)
    ensures AllWithinBusinessHours(appointments, services) ==> AllWithinBusinessHours(kept, services)
  {
  }

  /** Each row occurs once, and no two rows share an id. */
  predicate AppointmentIdsUnique(appointments: seq<Appointment>) {
    && (forall a | a in appointments :: multiset(appointments)[a] == 1)
    && (forall a, b | a in appointments && b in appointments && a.id == b.id :: a == b)
  }

  /** Appending a row whose id exceeds every existing id keeps the ids unique. */
  lemma AppendFreshAppointment(appointments: seq<Appointment>, services: Services, n: Appointment)
    requires Joined(appointments, services) && AppointmentIdsUnique(appointments)
    requires forall a | a in appointments :: a.id < n.id
    requires n.serviceId in services
    ensures Joined(appointments + [n], services) && AppointmentIdsUnique(appointments + [n])
    ensures forall a | a in appointments + [n] :: a.id < n.id + 1
  {
    assert n !in appointments;
    assert multiset(appointments + [n]) == multiset(appointments) + multiset{n};
  }

  predicate UserIdsUnique(users: seq<User>) {
    forall i, j | 0 <= i < j < |users| :: users[i].id != users[j].id
  }

  /** Rewriting one user row without touching its id keeps user ids unique and bounded. */
  lemma UpdateUserKeepsIds(users: seq<User>, k: nat, updated: User, bound: int)
    requires k < |users| && updated.id == users[k].id
    requires UserIdsUnique(users) && forall u | u in users :: u.id < bound
    ensures UserIdsUnique(users[k := updated]) && forall u | u in users[k := updated] :: u.id < bound
  {
    var changed := users[k := updated];
    forall u | u in changed ensures u.id < bound {
      var j :| 0 <= j < |changed| && changed[j] == u;
      if j != k { assert users[j] in users; } else { assert users[k] in users; }
    }
  }

  /** No two users share an e-mail address. */
  predicate EmailsUnique(users: seq<User>) {
    forall i, j | 0 <= i < j < |users| :: users[i].email != users[j].email
  }

  /** The appointment starts and ends within 10:00-22:00 of its own date. */
  predicate WithinBusinessHours(a: Appointment, services: Services)
    requires a.serviceId in services
  {
    InBusinessHours(a.date, EndOf(a, services))
  }

  /**
   * Where the signed-in user's row is: the e-mail claim of the session
   * (absent or empty means nobody is signed in) looked up in the user table
   * as `Users.FirstOrDefaultAsync(u => u.Email == email)` does.
   */
  function SessionUserIndex(users: seq<User>, emailClaim: Option<string>): (r: Option<nat>)
    ensures r.Some? ==> r.value < |users| && emailClaim.Some? && users[r.value].email == emailClaim.value
    ensures r.None? <==> (emailClaim.None? || emailClaim.value == ""
                          || forall u | u in users :: u.email != emailClaim.value)
  {
    if emailClaim.None? || emailClaim.value == "" then None
    else Seqs.IndexWhere(users, (u: User) => u.email == emailClaim.value)
  }

  /** The signed-in user, if any. */
  function SessionUser(users: seq<User>, emailClaim: Option<string>): (r: Option<User>)
    ensures r.Some? ==> emailClaim.Some? && emailClaim.value != "" && r.value in users
                        && r.value.email == emailClaim.value
    ensures r.None? <==> (emailClaim.None? || emailClaim.value == ""
                          || forall u | u in users :: u.email != emailClaim.value)
  {
    var k := SessionUserIndex(users, emailClaim);
    if k.Some? then Some(users[k.value]) else None
  }

  /** The user's appointments on a date (`a.UserId == user.Id && a.AppointmentDate.Date == date`). */
  function UserAppointmentsOn(appointments: seq<Appointment>, userId: int, day: int): (r: seq<Appointment>)
    ensures forall a | a in r :: a in appointments && a.userId == Some(userId) && DateOf(a.date) == day
    ensures forall a | a in appointments && a.userId == Some(userId) && DateOf(a.date) == day :: a in r
  {
    Seqs.Filter(appointments, (a: Appointment) => a.userId == Some(userId) && DateOf(a.date) == day)
  }

  /** The user already holds an appointment on that date; the count of those rows is positive. */
  predicate HasAppointmentOn(appointments: seq<Appointment>, userId: int, day: int) {
    |UserAppointmentsOn(appointments, userId, day)| > 0
  }

  lemma HasAppointmentOnIff(appointments: seq<Appointment>, userId: int, day: int)
    ensures HasAppointmentOn(appointments, userId, day) <==>
            exists a :: a in appointments && a.userId == Some(userId) && DateOf(a.date) == day
  {
    var r := UserAppointmentsOn(appointments, userId, day);
    if |r| > 0 { assert r[0] in r; }
  }
}
