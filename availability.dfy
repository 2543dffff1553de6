/**
 * The availability engine: the 15-minute grid of candidate start times of a
 * day, each flagged available or not, and the answer of the time-slot query.
 */
module Availability {
  import opened Wrappers
  import opened Calendar
  import opened Intervals
  import opened Models
  import Seqs

  /** Why a slot is not available, in the order the checks run; `Free` when it is. */
  datatype SlotReason = Free | PastTime | ExceedsClosingTime | Collision

  /** One entry of the slot list: its "HH:mm" label and its flag. */
  datatype Slot = Slot(time: string, isAvailable: bool, reason: SlotReason)

  /** The answer of the time-slot query. */
  datatype TimeSlots = TimeSlots(hasExistingAppointment: bool, slots: seq<Slot>)

  /** Candidates from 10:00 up to, not including, 22:00 in steps of 15 minutes. */
  const SlotCount: int := 48

  /** Minutes after midnight of the `i`-th candidate. */
  function GridMinute(i: int): int { OpeningTime + SlotMinutes * i }

  /** The proposed span overlaps one of the existing spans. */
  predicate Collides(start: int, end: int, existing: seq<Span>) {
    exists k :: 0 <= k < |existing| && Overlaps(start, end, existing[k].start, existing[k].end)
  }

  /** The three checks on a candidate starting `minute` after midnight of `day`, first failure wins. */
  function Classify(duration: int, day: int, now: int, existing: seq<Span>, minute: int): SlotReason {
    var start := Midnight(day) + minute;
    var end := start + duration;
    if day == DateOf(now) && start < now then PastTime
    else if end > Midnight(day) + ClosingTime then ExceedsClosingTime
    else if Collides(start, end, existing) then Collision
    else Free
  }

  function SlotAt(duration: int, day: int, now: int, existing: seq<Span>, minute: int): Slot
    requires 0 <= minute < MinutesPerDay
  {
    var reason := Classify(duration, day, now, existing, minute);
    Slot(FormatTime(minute), reason == Free, reason)
  }

  /** The slot list of a day for a service of `duration` minutes, given the barber's spans that day. */
  function Slots(duration: int, day: int, now: int, existing: seq<Span>): seq<Slot> {
    seq(SlotCount, i requires 0 <= i < SlotCount => SlotAt(duration, day, now, existing, GridMinute(i)))
  }

  /** The slot loop: walks the grid, flags each candidate, and appends it. */
  method ComputeSlots(duration: int, day: int, now: int, existing: seq<Span>) returns (slots: seq<Slot>)
    ensures slots == Slots(duration, day, now, existing)
  {
    var currentSlot := Midnight(day) + OpeningTime;
    var endTime := Midnight(day) + ClosingTime;
    slots := [];
    while currentSlot < endTime
      invariant |slots| <= SlotCount
      invariant currentSlot == Midnight(day) + GridMinute(|slots|)
      invariant forall i :: 0 <= i < |slots| ==> slots[i] == SlotAt(duration, day, now, existing, GridMinute(i))
      decreases endTime - currentSlot
    {
      var proposedStart := currentSlot;
      var proposedEnd := currentSlot + duration;
      var isAvailable := true;
      var reason := Free;

      if day == DateOf(now) && proposedStart < now {
        isAvailable := false;
        reason := PastTime;
      }

      if isAvailable && proposedEnd > endTime {
        isAvailable := false;
        reason := ExceedsClosingTime;
      }

      if isAvailable {
        var k := 0;
        while k < |existing|
          invariant 0 <= k <= |existing|
          invariant isAvailable
          invariant forall j :: 0 <= j < k ==>
            !Overlaps(proposedStart, proposedEnd, existing[j].start, existing[j].end)
        {
          if proposedStart < existing[k].end && proposedEnd > existing[k].start {
            isAvailable := false;
            reason := Collision;
            break;
          }
          k := k + 1;
        }
      }

      assert reason == Classify(duration, day, now, existing, GridMinute(|slots|));
      slots := slots + [Slot(FormatTime(currentSlot - Midnight(day)), isAvailable, reason)];
      currentSlot := currentSlot + SlotMinutes;
    }
  }

  /**
   * The time-slot query. A missing barber, service or date gives an empty
   * answer; a signed-in user who already holds an appointment that date is
   * told so before anything else; Sundays and unknown services give no slots.
   */
  function AvailableTimeSlots(appointments: seq<Appointment>, services: Services, users: seq<User>,
                              barberId: int, serviceId: int, date: Option<int>,
                              emailClaim: Option<string>, now: int): TimeSlots
    requires Joined(appointments, services)
  {
    if barberId == 0 || serviceId == 0 || date.None? then TimeSlots(false, [])
    else
      var day := date.value;
      var user := SessionUser(users, emailClaim);
      if user.Some? && HasAppointmentOn(appointments, user.value.id, day) then TimeSlots(true, [])
      else if IsSunday(day) then TimeSlots(false, [])
      else if serviceId !in services then TimeSlots(false, [])
      else
        var existing := BarberDay(appointments, barberId, day);
        TimeSlots(false, Slots(services[serviceId].durationMinutes, day, now, SpansOf(existing, services)))
  }

  /** The barber's appointments on the date (`a.BarberId == barberId && a.AppointmentDate.Date == date`). */
  function BarberDay(appointments: seq<Appointment>, barberId: int, day: int): (r: seq<Appointment>)
    ensures forall a | a in r :: a in appointments && a.barberId == barberId && DateOf(a.date) == day
    ensures forall a | a in appointments && a.barberId == barberId && DateOf(a.date) == day :: a in r
  {
    Seqs.Filter(appointments, (a: Appointment) => a.barberId == barberId && DateOf(a.date) == day)
  }

  // ---------------------------------------------------------------------
  // Properties of the slot list

  /** The list is the whole grid 10:00, 10:15, ..., 21:45, in ascending order, with "HH:mm" labels. */
  lemma SlotsAreTheGrid(duration: int, day: int, now: int, existing: seq<Span>)
    ensures var r := Slots(duration, day, now, existing);
      && |r| == SlotCount
      && r[0].time == "10:00" && r[SlotCount - 1].time == "21:45"
      && (forall i :: 0 <= i < |r| ==> ParseTime(r[i].time) == Some(GridMinute(i)))
      && (forall i :: 0 <= i < |r| ==> r[i].time == FormatTime(GridMinute(i)))
  {
    var r := Slots(duration, day, now, existing);
    forall i | 0 <= i < |r| ensures ParseTime(r[i].time) == Some(GridMinute(i)) {
      ParseFormat(GridMinute(i));
    }
  }

  /** Every grid minute in opening hours appears, exactly once, and the labels strictly ascend. */
  lemma SlotsCoverGridOnce(duration: int, day: int, now: int, existing: seq<Span>, m: int)
    requires OpeningTime <= m < ClosingTime && (m - OpeningTime) % SlotMinutes == 0
    ensures var r := Slots(duration, day, now, existing);
      && (exists i :: 0 <= i < |r| && r[i].time == FormatTime(m))
      && (forall i, j :: 0 <= i < |r| && 0 <= j < |r| && r[i].time == r[j].time == FormatTime(m) ==> i == j)
  {
    var r := Slots(duration, day, now, existing);
    var i := (m - OpeningTime) / SlotMinutes;
    assert GridMinute(i) == m;
    assert r[i].time == FormatTime(m);
    forall i1, j1 | 0 <= i1 < |r| && 0 <= j1 < |r| && r[i1].time == FormatTime(m) && r[j1].time == FormatTime(m)
      ensures i1 == j1
    {
      FormatInjective(GridMinute(i1), m);
      FormatInjective(GridMinute(j1), m);
    }
  }

  /** Labels strictly ascend: an earlier entry reads as an earlier time. */
  lemma SlotsAscend(duration: int, day: int, now: int, existing: seq<Span>, i: int, j: int)
    requires 0 <= i < j < SlotCount
    ensures var r := Slots(duration, day, now, existing);
      ParseTime(r[i].time).Some? && ParseTime(r[j].time).Some? &&
      ParseTime(r[i].time).value < ParseTime(r[j].time).value
  {
    ParseFormat(GridMinute(i));
    ParseFormat(GridMinute(j));
  }

  /**
   * A slot is available exactly when it is not in the past (on today's date),
   * finishes by 22:00 and is disjoint from every existing span; and every
   * unavailable slot carries the first of those checks that failed.
   */
  lemma SlotAvailability(duration: int, day: int, now: int, existing: seq<Span>, i: int)
    requires 0 <= i < SlotCount
    ensures var s := Slots(duration, day, now, existing)[i];
      var start := Midnight(day) + GridMinute(i);
      var end := start + duration;
      var past := day == DateOf(now) && start < now;
      var fits := end <= Midnight(day) + ClosingTime;
      var clear := forall k :: 0 <= k < |existing| ==> !Overlaps(start, end, existing[k].start, existing[k].end);
      && (s.isAvailable <==> !past && fits && clear)
      && (s.isAvailable <==> s.reason == Free)
      && (s.reason == PastTime <==> past)
      && (s.reason == ExceedsClosingTime <==> !past && !fits)
      && (s.reason == Collision <==> !past && fits && !clear)
  {
  }

  /** An available slot ends by closing time. */
  lemma AvailableSlotEndsByClosing(duration: int, day: int, now: int, existing: seq<Span>, i: int)
    requires 0 <= i < SlotCount && Slots(duration, day, now, existing)[i].isAvailable
    ensures Midnight(day) + GridMinute(i) + duration <= Midnight(day) + ClosingTime
  {
  }

  /** On today's date an available slot does not start before now. */
  lemma AvailableSlotIsNotPast(duration: int, day: int, now: int, existing: seq<Span>, i: int)
    requires 0 <= i < SlotCount && Slots(duration, day, now, existing)[i].isAvailable
    requires day == DateOf(now)
    ensures Midnight(day) + GridMinute(i) >= now
  {
  }

  /** An available slot is half-open-disjoint from every existing span. */
  lemma AvailableSlotIsClear(duration: int, day: int, now: int, existing: seq<Span>, i: int, k: int)
    requires 0 <= i < SlotCount && Slots(duration, day, now, existing)[i].isAvailable
    requires 0 <= k < |existing|
    ensures !Overlaps(Midnight(day) + GridMinute(i), Midnight(day) + GridMinute(i) + duration,
                      existing[k].start, existing[k].end)
  {
  }

  /** An appointment ending exactly when a slot starts does not make it unavailable. */
  lemma TouchingAppointmentDoesNotBlock(duration: int, day: int, now: int, existing: seq<Span>, i: int, before: int)
    requires 0 <= i < SlotCount
    ensures Slots(duration, day, now, existing + [Span(before, Midnight(day) + GridMinute(i))])[i]
         == Slots(duration, day, now, existing)[i]
  {
    var start := Midnight(day) + GridMinute(i);
    var grown := existing + [Span(before, start)];
    assert forall k :: 0 <= k < |existing| ==> grown[k] == existing[k];
    assert !Overlaps(start, start + duration, before, start);
    assert Collides(start, start + duration, grown) == Collides(start, start + duration, existing);
  }

  /**
   * A barber with a 30-minute appointment at 10:00, asked about a 15-minute
   * service on a date that is not today: 10:00 and 10:15 collide, 10:30 is free.
   */
  lemma ThirtyMinutesAtTenBlocksTwoSlots(day: int, now: int)
    requires day != DateOf(now)
    ensures var r := Slots(15, day, now, [Span(Midnight(day) + 600, Midnight(day) + 630)]);
      r[0] == Slot("10:00", false, Collision) &&
      r[1] == Slot("10:15", false, Collision) &&
      r[2] == Slot("10:30", true, Free)
  {
    var existing := [Span(Midnight(day) + 600, Midnight(day) + 630)];
    assert Overlaps(Midnight(day) + 600, Midnight(day) + 615, existing[0].start, existing[0].end);
    assert Overlaps(Midnight(day) + 615, Midnight(day) + 630, existing[0].start, existing[0].end);
    assert !Collides(Midnight(day) + 630, Midnight(day) + 645, existing);
  }

  /** With a 30-minute service the last candidate that fits is 21:30; 21:45 exceeds closing time. */
  lemma LastFittingSlot(day: int, now: int)
    requires day != DateOf(now)
    ensures var r := Slots(30, day, now, []);
      r[46] == Slot("21:30", true, Free) && r[47] == Slot("21:45", false, ExceedsClosingTime)
  {
    assert !Collides(Midnight(day) + 1290, Midnight(day) + 1320, []);
  }

  // ---------------------------------------------------------------------
  // Properties of the query's answer

  /** On a Sunday no slot is listed, whatever is booked. */
  lemma SundayListsNoSlots(appointments: seq<Appointment>, services: Services, users: seq<User>,
                           barberId: int, serviceId: int, day: int, emailClaim: Option<string>, now: int)
    requires Joined(appointments, services)
    requires IsSunday(day)
    ensures var r := AvailableTimeSlots(appointments, services, users, barberId, serviceId, Some(day), emailClaim, now);
      r.slots == [] &&
      (r.hasExistingAppointment <==>
         barberId != 0 && serviceId != 0 && SessionUser(users, emailClaim).Some? &&
         HasAppointmentOn(appointments, SessionUser(users, emailClaim).value.id, day))
  {
  }

  /** On a Sunday with nothing booked for the signed-in user, the answer is: no existing appointment, no slots. */
  lemma SundayAnswer(appointments: seq<Appointment>, services: Services, users: seq<User>,
                     barberId: int, serviceId: int, day: int, emailClaim: Option<string>, now: int)
    requires Joined(appointments, services)
    requires IsSunday(day)
    requires SessionUser(users, emailClaim).None? ||
             !HasAppointmentOn(appointments, SessionUser(users, emailClaim).value.id, day)
    ensures AvailableTimeSlots(appointments, services, users, barberId, serviceId, Some(day), emailClaim, now)
         == TimeSlots(false, [])
  {
  }

  /** A signed-in user with an appointment on that date gets no slots, on any day of the week. */
  lemma ExistingAppointmentComesFirst(appointments: seq<Appointment>, services: Services, users: seq<User>,
                                      barberId: int, serviceId: int, day: int, emailClaim: Option<string>, now: int)
    requires Joined(appointments, services)
    requires barberId != 0 && serviceId != 0
    requires SessionUser(users, emailClaim).Some?
    requires exists a :: a in appointments && a.userId == Some(SessionUser(users, emailClaim).value.id)
                         && DateOf(a.date) == day
    ensures AvailableTimeSlots(appointments, services, users, barberId, serviceId, Some(day), emailClaim, now)
         == TimeSlots(true, [])
  {
    HasAppointmentOnIff(appointments, SessionUser(users, emailClaim).value.id, day);
  }

  /** Slots are listed only for a known service on an open day with nothing booked for the user, and they are that day's grid. */
  lemma ListedSlotsAreTheDaysGrid(appointments: seq<Appointment>, services: Services, users: seq<User>,
                                  barberId: int, serviceId: int, day: int, emailClaim: Option<string>, now: int)
    requires Joined(appointments, services)
    requires AvailableTimeSlots(appointments, services, users, barberId, serviceId, Some(day), emailClaim, now).slots != []
    ensures !IsSunday(day) && serviceId in services && barberId != 0 && serviceId != 0
    ensures !AvailableTimeSlots(appointments, services, users, barberId, serviceId, Some(day), emailClaim, now).hasExistingAppointment
    ensures SessionUser(users, emailClaim).Some? ==>
              !HasAppointmentOn(appointments, SessionUser(users, emailClaim).value.id, day)
    ensures AvailableTimeSlots(appointments, services, users, barberId, serviceId, Some(day), emailClaim, now).slots
         == Slots(services[serviceId].durationMinutes, day, now, SpansOf(BarberDay(appointments, barberId, day), services))
  {
  }

  /** On an open day with a known service the whole grid is listed. */
  lemma OpenDayListsTheGrid(appointments: seq<Appointment>, services: Services, users: seq<User>,
                            barberId: int, serviceId: int, day: int, emailClaim: Option<string>, now: int)
    requires Joined(appointments, services)
    requires barberId != 0 && serviceId in services && serviceId != 0 && !IsSunday(day)
    requires SessionUser(users, emailClaim).None? ||
             !HasAppointmentOn(appointments, SessionUser(users, emailClaim).value.id, day)
    ensures var r := AvailableTimeSlots(appointments, services, users, barberId, serviceId, Some(day), emailClaim, now);
      !r.hasExistingAppointment && |r.slots| == SlotCount
  {
  }
}
