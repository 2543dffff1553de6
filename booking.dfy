/**
 * The booking rules of the appointment form: the ordered checks that decide
 * whether a requested appointment is stored, and what is reported otherwise.
 */
module Booking {
  import opened Wrappers
  import opened Calendar
  import opened Intervals
  import opened Models
  import Seqs

  /** What the form posts: name, phone, start instant, barber and service. */
  datatype BookingRequest = BookingRequest(
    customerName: string,
    customerPhone: string,
    date: int,
    barberId: int,
    serviceId: int)

  /** The reasons a booking is refused. `BarberBusy` carries the span of the appointment in the way. */
  datatype BookingError =
    | ClosedOnSunday
    | OutsideWorkingHours
    | EndsAfterClosing
    | BarberBusy(from: int, until: int)
    | DailyLimitReached

  /**
   * The verdict on a request: store it (with the signed-in user's id, if any),
   * or show the form again with these errors. A request naming an unknown
   * service is shown again with no error at all.
   */
  datatype Decision = Accept(userId: Option<int>) | Reject(errors: seq<BookingError>)

  /** The first two checks; both run, and both errors are reported together. */
  function WorkingHoursErrors(date: int): (errors: seq<BookingError>)
    ensures ClosedOnSunday in errors <==> IsSunday(DateOf(date))
    ensures OutsideWorkingHours in errors <==> (TimeOfDay(date) < OpeningTime || TimeOfDay(date) > ClosingTime)
    ensures forall e | e in errors :: e == ClosedOnSunday || e == OutsideWorkingHours
  {
    (if IsSunday(DateOf(date)) then [ClosedOnSunday] else [])
    + (if TimeOfDay(date) < OpeningTime || TimeOfDay(date) > ClosingTime then [OutsideWorkingHours] else [])
  }

  /** `a` belongs to the barber and overlaps [start, end); the date of `a` is not considered. */
  predicate ConflictsWith(a: Appointment, services: Services, barberId: int, start: int, end: int) {
    a.serviceId in services && a.barberId == barberId && Overlaps(start, end, a.date, EndOf(a, services))
  }

  /** The conflict query: the first of the barber's appointments, on any date, that overlaps [start, end). */
  function FirstConflict(appointments: seq<Appointment>, services: Services, barberId: int, start: int, end: int)
    : (r: Option<Appointment>)
    ensures r.Some? ==> r.value in appointments && ConflictsWith(r.value, services, barberId, start, end)
    ensures r.None? <==> forall a | a in appointments :: !ConflictsWith(a, services, barberId, start, end)
    ensures r.Some? ==>
      exists k :: 0 <= k < |appointments| && appointments[k] == r.value &&
        forall j :: 0 <= j < k ==> !ConflictsWith(appointments[j], services, barberId, start, end)
  {
    Seqs.FirstWhere(appointments, (a: Appointment) => ConflictsWith(a, services, barberId, start, end))
  }

  /** The checks of the booking form, in the order they run. */
  function Decide(appointments: seq<Appointment>, services: Services, user: Option<User>, req: BookingRequest)
    : Decision
  {
    var hoursErrors := WorkingHoursErrors(req.date);
    if hoursErrors != [] then Reject(hoursErrors)
    else if req.serviceId !in services then Reject([])
    else
      var newStart := req.date;
      var newEnd := newStart + services[req.serviceId].durationMinutes;
      if newEnd > Midnight(DateOf(newStart)) + ClosingTime then Reject([EndsAfterClosing])
      else
        var conflict := FirstConflict(appointments, services, req.barberId, newStart, newEnd);
        if conflict.Some? then Reject([BarberBusy(conflict.value.date, EndOf(conflict.value, services))])
        else if user.None? then Accept(None)
        else if HasAppointmentOn(appointments, user.value.id, DateOf(req.date)) then Reject([DailyLimitReached])
        else Accept(Some(user.value.id))
  }

  /** The row stored for an accepted request. */
  function NewAppointment(req: BookingRequest, id: int, userId: Option<int>, now: int): Appointment {
    Appointment(id, req.customerName, req.customerPhone, req.date, req.barberId, req.serviceId, now, userId)
  }

  // ---------------------------------------------------------------------
  // Rejections

  /** A Sunday, or a start before 10:00 or after 22:00, is refused with those errors and nothing else is checked. */
  lemma ClosedOrOutsideHoursRefused(appointments: seq<Appointment>, services: Services, user: Option<User>,
                                    req: BookingRequest)
    requires IsSunday(DateOf(req.date)) || TimeOfDay(req.date) < OpeningTime || TimeOfDay(req.date) > ClosingTime
    ensures var d := Decide(appointments, services, user, req);
      && d.Reject?
      && (ClosedOnSunday in d.errors <==> IsSunday(DateOf(req.date)))
      && (OutsideWorkingHours in d.errors <==> TimeOfDay(req.date) < OpeningTime || TimeOfDay(req.date) > ClosingTime)
      && (forall e | e in d.errors :: e == ClosedOnSunday || e == OutsideWorkingHours)
  {
  }

  /** Starting at 22:00 passes the hours check but never the closing rule. */
  lemma StartAtClosingRefused(appointments: seq<Appointment>, services: Services, user: Option<User>,
                              req: BookingRequest)
    requires PositiveDurations(services) && req.serviceId in services
    requires !IsSunday(DateOf(req.date)) && TimeOfDay(req.date) == ClosingTime
    ensures Decide(appointments, services, user, req) == Reject([EndsAfterClosing])
  {
    InstantSplit(req.date);
  }

  /** A known service that would finish after 22:00 of that date is refused. */
  lemma EndingAfterClosingRefused(appointments: seq<Appointment>, services: Services, user: Option<User>,
                                  req: BookingRequest)
    requires WorkingHoursErrors(req.date) == [] && req.serviceId in services
    requires TimeOfDay(req.date) + services[req.serviceId].durationMinutes > ClosingTime
    ensures Decide(appointments, services, user, req) == Reject([EndsAfterClosing])
  {
    InstantSplit(req.date);
  }

  /**
   * Otherwise an overlapping appointment of the same barber is refused, and
   * the span reported is that of the first overlapping row in table order.
   */
  lemma BarberConflictRefused(appointments: seq<Appointment>, services: Services, user: Option<User>,
                              req: BookingRequest, other: Appointment)
    requires WorkingHoursErrors(req.date) == [] && req.serviceId in services
    requires TimeOfDay(req.date) + services[req.serviceId].durationMinutes <= ClosingTime
    requires other in appointments
    requires ConflictsWith(other, services, req.barberId, req.date, req.date + services[req.serviceId].durationMinutes)
    ensures var d := Decide(appointments, services, user, req);
      d.Reject? && |d.errors| == 1 && d.errors[0].BarberBusy? &&
      exists k :: 0 <= k < |appointments| &&
        ConflictsWith(appointments[k], services, req.barberId, req.date, req.date + services[req.serviceId].durationMinutes) &&
        d.errors[0] == BarberBusy(appointments[k].date, EndOf(appointments[k], services)) &&
        forall j :: 0 <= j < k ==>
          !ConflictsWith(appointments[j], services, req.barberId, req.date, req.date + services[req.serviceId].durationMinutes)
  {
    InstantSplit(req.date);
    var c := FirstConflict(appointments, services, req.barberId, req.date,
                           req.date + services[req.serviceId].durationMinutes);
    assert c.Some?;
    assert c.value in appointments;
  }

  /** A signed-in user who already holds an appointment that date is refused, once the earlier checks pass. */
  lemma DailyLimitRefused(appointments: seq<Appointment>, services: Services, user: User, req: BookingRequest,
                          held: Appointment)
    requires WorkingHoursErrors(req.date) == [] && req.serviceId in services
    requires TimeOfDay(req.date) + services[req.serviceId].durationMinutes <= ClosingTime
    requires forall a | a in appointments ::
      !ConflictsWith(a, services, req.barberId, req.date, req.date + services[req.serviceId].durationMinutes)
    requires held in appointments && held.userId == Some(user.id) && DateOf(held.date) == DateOf(req.date)
    ensures Decide(appointments, services, Some(user), req) == Reject([DailyLimitReached])
  {
    InstantSplit(req.date);
    HasAppointmentOnIff(appointments, user.id, DateOf(req.date));
  }

  /** 21:50 with a 30-minute service on a weekday is refused: it would end at 22:20. */
  lemma TenToTenForHalfAnHourRefused(appointments: seq<Appointment>, services: Services, user: Option<User>,
                                     name: string, phone: string, day: int, barberId: int, serviceId: int)
    requires !IsSunday(day) && serviceId in services && services[serviceId].durationMinutes == 30
    ensures Decide(appointments, services, user, BookingRequest(name, phone, Midnight(day) + 1310, barberId, serviceId))
         == Reject([EndsAfterClosing])
  {
    DateOfMidnightPlus(day, 1310);
  }

  /** 20 January 2026: a customer who holds a 10:00 appointment cannot book 15:00 of the same date. */
  lemma SecondBookingSameDateRefused(services: Services, user: User, held: Appointment, name: string, phone: string,
                                     barberId: int, serviceId: int)
    requires serviceId in services && services[serviceId].durationMinutes == 30
    requires held.serviceId in services && services[held.serviceId].durationMinutes == 30
    requires held.userId == Some(user.id) && held.date == Midnight(739635) + 600
    ensures Decide([held], services, Some(user), BookingRequest(name, phone, Midnight(739635) + 900, barberId, serviceId))
         == Reject([DailyLimitReached])
  {
    var req := BookingRequest(name, phone, Midnight(739635) + 900, barberId, serviceId);
    DateOfMidnightPlus(739635, 900);
    DateOfMidnightPlus(739635, 600);
    assert !ConflictsWith(held, services, barberId, req.date, req.date + 30);
    DailyLimitRefused([held], services, user, req, held);
  }

  // ---------------------------------------------------------------------
  // Acceptance

  /**
   * A request is stored exactly when: not a Sunday; the start lies in
   * 10:00-22:00 (both ends included); the service is known and finishes by
   * 22:00; no appointment of the barber, on any date, overlaps it; and a
   * signed-in user holds no appointment that date. A start in the past or off
   * the 15-minute grid is not refused.
   */
  lemma AcceptedExactly(appointments: seq<Appointment>, services: Services, user: Option<User>, req: BookingRequest)
    ensures var d := Decide(appointments, services, user, req);
      d.Accept? <==>
        && !IsSunday(DateOf(req.date))
        && OpeningTime <= TimeOfDay(req.date) <= ClosingTime
        && req.serviceId in services
        && TimeOfDay(req.date) + services[req.serviceId].durationMinutes <= ClosingTime
        && (forall a | a in appointments ::
              !ConflictsWith(a, services, req.barberId, req.date, req.date + services[req.serviceId].durationMinutes))
        && (user.Some? ==> forall a | a in appointments :: !(a.userId == Some(user.value.id) && DateOf(a.date) == DateOf(req.date)))
    ensures var d := Decide(appointments, services, user, req);
      d.Accept? ==> d.userId == if user.Some? then Some(user.value.id) else None
  {
    InstantSplit(req.date);
    var e := WorkingHoursErrors(req.date);
    if !IsSunday(DateOf(req.date)) && OpeningTime <= TimeOfDay(req.date) <= ClosingTime {
      assert e == [];
    } else {
      assert e != [] by {
        if IsSunday(DateOf(req.date)) { assert ClosedOnSunday in e; } else { assert OutsideWorkingHours in e; }
      }
    }
    if user.Some? {
      HasAppointmentOnIff(appointments, user.value.id, DateOf(req.date));
    }
  }

  /** The direction of `AcceptedExactly` that the slot list relies on. */
  lemma AcceptedWhenChecksPass(appointments: seq<Appointment>, services: Services, user: Option<User>,
                               req: BookingRequest)
    requires !IsSunday(DateOf(req.date)) && OpeningTime <= TimeOfDay(req.date) <= ClosingTime
    requires req.serviceId in services
    requires TimeOfDay(req.date) + services[req.serviceId].durationMinutes <= ClosingTime
    requires forall a | a in appointments ::
      !ConflictsWith(a, services, req.barberId, req.date, req.date + services[req.serviceId].durationMinutes)
    requires user.Some? ==> !HasAppointmentOn(appointments, user.value.id, DateOf(req.date))
    ensures Decide(appointments, services, user, req).Accept?
  {
    InstantSplit(req.date);
    assert WorkingHoursErrors(req.date) == [];
  }

  /** Storing an accepted request under a fresh id keeps every barber's appointments pairwise disjoint. */
  lemma AcceptKeepsSchedulesDisjoint(appointments: seq<Appointment>, services: Services, user: Option<User>,
                                     req: BookingRequest, id: int, now: int)
    requires Joined(appointments, services) && SchedulesDisjoint(appointments, services)
    requires forall a | a in appointments :: a.id != id
    requires Decide(appointments, services, user, req).Accept?
    ensures var stored := appointments + [NewAppointment(req, id, Decide(appointments, services, user, req).userId, now)];
      Joined(stored, services) && SchedulesDisjoint(stored, services)
  {
    AcceptedExactly(appointments, services, user, req);
    var n := NewAppointment(req, id, Decide(appointments, services, user, req).userId, now);
    var stored := appointments + [n];
    assert forall a | a in stored :: a in appointments || a == n;
  }

  /** Storing an accepted request under a fresh id keeps at most one appointment per user per date. */
  lemma AcceptKeepsDailyLimit(appointments: seq<Appointment>, services: Services, user: Option<User>,
                              req: BookingRequest, id: int, now: int)
    requires AtMostOnePerUserPerDay(appointments)
    requires forall a | a in appointments :: a.id != id
    requires Decide(appointments, services, user, req).Accept?
    ensures AtMostOnePerUserPerDay(appointments + [NewAppointment(req, id, Decide(appointments, services, user, req).userId, now)])
  {
    AcceptedExactly(appointments, services, user, req);
    var n := NewAppointment(req, id, Decide(appointments, services, user, req).userId, now);
    var stored := appointments + [n];
    assert forall a | a in stored :: a in appointments || a == n;
  }

  /** An accepted request lies within business hours of its date, so storing it keeps every row there. */
  lemma AcceptKeepsBusinessHours(appointments: seq<Appointment>, services: Services, user: Option<User>,
                                 req: BookingRequest, id: int, now: int)
    requires Joined(appointments, services) && AllWithinBusinessHours(appointments, services)
    requires Decide(appointments, services, user, req).Accept?
    ensures var stored := appointments + [NewAppointment(req, id, Decide(appointments, services, user, req).userId, now)];
      Joined(stored, services) && AllWithinBusinessHours(stored, services)
  {
    AcceptedExactly(appointments, services, user, req);
    InstantSplit(req.date);
    var n := NewAppointment(req, id, Decide(appointments, services, user, req).userId, now);
    var stored := appointments + [n];
    assert WithinBusinessHours(n, services);
    assert forall a | a in stored :: a in appointments || a == n;
  }
}
