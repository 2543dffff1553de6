/** The booking form and the time-slot query. */
module Home {
  import opened Wrappers
  import opened Calendar
  import opened Intervals
  import opened Models
  import opened Availability
  import opened Booking
  import Data

  /** The Sunday and working-hours checks of the booking form: both run, and each adds its error. */
  method CollectHoursErrors(date: int) returns (errors: seq<BookingError>)
    ensures errors == WorkingHoursErrors(date)
  {
    errors := [];
    if IsSunday(DateOf(date)) {
      errors := errors + [ClosedOnSunday];
    }
    var time := TimeOfDay(date);
    if time < OpeningTime || time > ClosingTime {
      errors := errors + [OutsideWorkingHours];
    }
  }

  class HomeController {
    const db: Data.AppDb

    constructor (db: Data.AppDb)
      ensures this.db == db
    {
      this.db := db;
    }

    /**
     * The checks of POST BookAppointment, run in order and collecting the
     * errors; the signed-in user is looked up only once no conflict is found.
     */
    method CheckBooking(req: BookingRequest, emailClaim: Option<string>) returns (d: Decision)
      requires Joined(db.appointments, db.services)
      ensures d == Decide(db.appointments, db.services, SessionUser(db.users, emailClaim), req)
    {
      var appointments, services := db.appointments, db.services;
      var errors := CollectHoursErrors(req.date);
      if errors != [] || req.serviceId !in services {
        return Reject(errors);
      }
      var duration := services[req.serviceId].durationMinutes;
      var newStart := req.date;
      var newEnd := newStart + duration;
      var closingTime := Midnight(DateOf(newStart)) + ClosingTime;
      if newEnd > closingTime {
        return Reject(errors + [EndsAfterClosing]);
      }
      var conflict := FirstConflict(appointments, services, req.barberId, newStart, newEnd);
      if conflict.Some? {
        return Reject(errors + [BarberBusy(conflict.value.date, EndOf(conflict.value, services))]);
      }
      var user := SessionUser(db.users, emailClaim);
      assert Decide(appointments, services, user, req) ==
        if user.None? then Accept(None)
        else if HasAppointmentOn(appointments, user.value.id, DateOf(req.date)) then Reject([DailyLimitReached])
        else Accept(Some(user.value.id));
      var userId: Option<int> := None;
      var canBook := true;
      if user.Some? {
        userId := Some(user.value.id);
        var dailyCount := |UserAppointmentsOn(appointments, user.value.id, DateOf(req.date))|;
        if dailyCount > 0 {
          errors := errors + [DailyLimitReached];
          assert errors == [DailyLimitReached];
          canBook := false;
        }
      }
      if canBook {
        d := Accept(userId);
      } else {
        d := Reject(errors);
      }
    }

    /**
     * POST BookAppointment: stores the appointment, stamped with `now` and
     * the signed-in user's id, when the checks find no error.
     */
    method BookAppointment(req: BookingRequest, emailClaim: Option<string>, now: int) returns (d: Decision)
      requires db.Valid()
      modifies db
      ensures db.Valid()
      ensures d == Decide(old(db.appointments), old(db.services), SessionUser(old(db.users), emailClaim), req)
      ensures db.services == old(db.services) && db.users == old(db.users) && db.nextUserId == old(db.nextUserId)
      ensures d.Accept? ==>
        && db.appointments == old(db.appointments) + [NewAppointment(req, old(db.nextAppointmentId), d.userId, now)]
        && db.nextAppointmentId == old(db.nextAppointmentId) + 1
      ensures d.Reject? ==>
        db.appointments == old(db.appointments) && db.nextAppointmentId == old(db.nextAppointmentId)
      ensures old(SchedulesDisjoint(db.appointments, db.services)) ==> SchedulesDisjoint(db.appointments, db.services)
      ensures old(AtMostOnePerUserPerDay(db.appointments)) ==> AtMostOnePerUserPerDay(db.appointments)
      ensures old(AllWithinBusinessHours(db.appointments, db.services)) ==> AllWithinBusinessHours(db.appointments, db.services)
    {
      d := CheckBooking(req, emailClaim);
      if d.Accept? {
        var user := SessionUser(db.users, emailClaim);
        AcceptedExactly(db.appointments, db.services, user, req);
        var row := NewAppointment(req, db.nextAppointmentId, d.userId, now);
        if SchedulesDisjoint(db.appointments, db.services) {
          AcceptKeepsSchedulesDisjoint(db.appointments, db.services, user, req, db.nextAppointmentId, now);
        }
        if AtMostOnePerUserPerDay(db.appointments) {
          AcceptKeepsDailyLimit(db.appointments, db.services, user, req, db.nextAppointmentId, now);
        }
        if AllWithinBusinessHours(db.appointments, db.services) {
          AcceptKeepsBusinessHours(db.appointments, db.services, user, req, db.nextAppointmentId, now);
        }
        db.AddAppointment(row);
      }
    }

    /** GET GetAvailableTimeSlots; `date` is None when the date string is empty or does not parse. */
    method GetAvailableTimeSlots(barberId: int, serviceId: int, date: Option<int>, emailClaim: Option<string>, now: int)
      returns (r: TimeSlots)
      requires db.Valid()
      ensures r == AvailableTimeSlots(db.appointments, db.services, db.users, barberId, serviceId, date, emailClaim, now)
    {
      if barberId == 0 || serviceId == 0 || date.None? {
        return TimeSlots(false, []);
      }
      var selectedDate := date.value;
      var user := SessionUser(db.users, emailClaim);
      if user.Some? {
        var hasExisting := HasAppointmentOn(db.appointments, user.value.id, selectedDate);
        if hasExisting {
          return TimeSlots(true, []);
        }
      }
      if IsSunday(selectedDate) {
        return TimeSlots(false, []);
      }
      if serviceId !in db.services {
        return TimeSlots(false, []);
      }
      var duration := db.services[serviceId].durationMinutes;
      var existingAppointments := BarberDay(db.appointments, barberId, selectedDate);
      var slots := ComputeSlots(duration, selectedDate, now, SpansOf(existingAppointments, db.services));
      return TimeSlots(false, slots);
    }
  }
}
