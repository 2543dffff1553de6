/**
 * The slot list and the booking form use the same overlap test and the same
 * hours, so what the slot list offers the form accepts.
 */
module Consistency {
  import opened Wrappers
  import opened Calendar
  import opened Intervals
  import opened Models
  import opened Availability
  import opened Booking

  /** One of the barber's appointments does not conflict with an available slot of `day`. */
  lemma AvailableSlotClearOf(appointments: seq<Appointment>, services: Services, barberId: int, day: int,
                             duration: int, now: int, i: int, a: Appointment)
    requires Joined(appointments, services)
    requires 0 <= i < SlotCount
    requires Slots(duration, day, now, SpansOf(BarberDay(appointments, barberId, day), services))[i].isAvailable
    requires a in appointments && (a.barberId == barberId ==> WithinBusinessHours(a, services))
    ensures !ConflictsWith(a, services, barberId, Midnight(day) + GridMinute(i), Midnight(day) + GridMinute(i) + duration)
  {
    var existing := BarberDay(appointments, barberId, day);
    var spans := SpansOf(existing, services);
    var start := Midnight(day) + GridMinute(i);
    var end := start + duration;
    if a.barberId == barberId {
      if DateOf(a.date) == day {
        assert a in existing;
        var k :| 0 <= k < |existing| && existing[k] == a;
        AvailableSlotIsClear(duration, day, now, spans, i, k);
      } else {
        AvailableSlotEndsByClosing(duration, day, now, spans, i);
        DateOfMidnightPlus(day, GridMinute(i));
        DifferentDaysOfBusinessDoNotOverlap(start, end, a.date, EndOf(a, services));
      }
    }
  }

  /** No appointment of the barber, on any date, conflicts with an available slot of `day`. */
  lemma AvailableSlotConflictFree(appointments: seq<Appointment>, services: Services, barberId: int, day: int,
                                  duration: int, now: int, i: int)
    requires Joined(appointments, services)
    requires forall a | a in appointments && a.barberId == barberId :: WithinBusinessHours(a, services)
    requires 0 <= i < SlotCount
    requires Slots(duration, day, now, SpansOf(BarberDay(appointments, barberId, day), services))[i].isAvailable
    ensures forall a | a in appointments ::
      !ConflictsWith(a, services, barberId, Midnight(day) + GridMinute(i), Midnight(day) + GridMinute(i) + duration)
  {
    forall a | a in appointments
      ensures !ConflictsWith(a, services, barberId, Midnight(day) + GridMinute(i), Midnight(day) + GridMinute(i) + duration)
    {
      AvailableSlotClearOf(appointments, services, barberId, day, duration, now, i, a);
    }
  }

  /** An available slot of an open day, for a user with nothing booked that day, passes every booking check. */
  lemma AvailableGridSlotBookable(appointments: seq<Appointment>, services: Services, user: Option<User>,
                                  barberId: int, serviceId: int, day: int, now: int, i: int,
                                  name: string, phone: string)
    requires Joined(appointments, services)
    requires forall a | a in appointments && a.barberId == barberId :: WithinBusinessHours(a, services)
    requires !IsSunday(day) && serviceId in services && 0 <= i < SlotCount
    requires Slots(services[serviceId].durationMinutes, day, now,
                   SpansOf(BarberDay(appointments, barberId, day), services))[i].isAvailable
    requires user.Some? ==> !HasAppointmentOn(appointments, user.value.id, day)
    ensures Decide(appointments, services, user,
                   BookingRequest(name, phone, Midnight(day) + GridMinute(i), barberId, serviceId)).Accept?
  {
    var duration := services[serviceId].durationMinutes;
    var spans := SpansOf(BarberDay(appointments, barberId, day), services);
    AvailableSlotEndsByClosing(duration, day, now, spans, i);
    AvailableSlotConflictFree(appointments, services, barberId, day, duration, now, i);
    DateOfMidnightPlus(day, GridMinute(i));
    AcceptedWhenChecksPass(appointments, services, user,
                           BookingRequest(name, phone, Midnight(day) + GridMinute(i), barberId, serviceId));
  }

  /** The label of slot `i` reads back as its grid minute. */
  lemma SlotLabelReadsBack(duration: int, day: int, now: int, existing: seq<Span>, i: int)
    requires 0 <= i < SlotCount
    ensures ParseTime(Slots(duration, day, now, existing)[i].time) == Some(GridMinute(i))
  {
    SlotsAreTheGrid(duration, day, now, existing);
  }

  /**
   * If the slot list for a barber, a service and a date marks a slot
   * available, then booking that barber and service at the slot's label
   * (read back into a time on that date) is accepted against the same tables
   * and the same signed-in user, provided every appointment of that barber
   * lies within business hours of its own date. (The booking check looks at
   * all of the barber's appointments, the slot list only at that date's.)
   */
  lemma AvailableSlotIsBookable(appointments: seq<Appointment>, services: Services, users: seq<User>,
                                barberId: int, serviceId: int, day: int, emailClaim: Option<string>, now: int,
                                i: int, name: string, phone: string)
    requires Joined(appointments, services)
    requires forall a | a in appointments && a.barberId == barberId :: WithinBusinessHours(a, services)
    requires var r := AvailableTimeSlots(appointments, services, users, barberId, serviceId, Some(day), emailClaim, now);
      0 <= i < |r.slots| && r.slots[i].isAvailable
    ensures var r := AvailableTimeSlots(appointments, services, users, barberId, serviceId, Some(day), emailClaim, now);
      && ParseTime(r.slots[i].time) == Some(GridMinute(i))
      && Decide(appointments, services, SessionUser(users, emailClaim),
                BookingRequest(name, phone, Midnight(day) + GridMinute(i), barberId, serviceId)).Accept?
  {
    var r := AvailableTimeSlots(appointments, services, users, barberId, serviceId, Some(day), emailClaim, now);
    ListedSlotsAreTheDaysGrid(appointments, services, users, barberId, serviceId, day, emailClaim, now);
    var slots := Slots(services[serviceId].durationMinutes, day, now,
                       SpansOf(BarberDay(appointments, barberId, day), services));
    assert r.slots[i] == slots[i];
    SlotLabelReadsBack(services[serviceId].durationMinutes, day, now,
                       SpansOf(BarberDay(appointments, barberId, day), services), i);
    AvailableGridSlotBookable(appointments, services, SessionUser(users, emailClaim), barberId, serviceId, day, now, i,
                              name, phone);
  }

  /**
   * The same for any table the controllers keep within business hours, as
   * every booking does: each available slot is accepted when it is booked.
   */
  lemma AvailableSlotIsBookableOnKeptTables(appointments: seq<Appointment>, services: Services, users: seq<User>,
                                            barberId: int, serviceId: int, day: int, emailClaim: Option<string>,
                                            now: int, i: int, name: string, phone: string)
    requires Joined(appointments, services) && AllWithinBusinessHours(appointments, services)
    requires var r := AvailableTimeSlots(appointments, services, users, barberId, serviceId, Some(day), emailClaim, now);
      0 <= i < |r.slots| && r.slots[i].isAvailable
    ensures var r := AvailableTimeSlots(appointments, services, users, barberId, serviceId, Some(day), emailClaim, now);
      && ParseTime(r.slots[i].time) == Some(GridMinute(i))
      && Decide(appointments, services, SessionUser(users, emailClaim),
                BookingRequest(name, phone, Midnight(day) + GridMinute(i), barberId, serviceId)).Accept?
  {
    AvailableSlotIsBookable(appointments, services, users, barberId, serviceId, day, emailClaim, now, i, name, phone);
  }
}
