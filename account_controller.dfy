/** Login, registration, "my appointments", cancelling, the profile and the password change. */
module Account {
  import opened Wrappers
  import opened Models
  import opened Accounts
  import Seqs
  import Data

  class AccountController {
    const db: Data.AppDb

    constructor (db: Data.AppDb)
      ensures this.db == db
    {
      this.db := db;
    }

    /** POST Login: the first user whose e-mail and password both match, if any; the caller signs that user in. */
    method Login(email: string, password: string) returns (r: Option<User>)
      ensures r.Some? ==> r.value in db.users && r.value.email == email && r.value.password == password
      ensures r.None? <==> forall u | u in db.users :: !(u.email == email && u.password == password)
    {
      r := FindCredentials(db.users, email, password);
    }

    /** POST Register: refuses a taken e-mail, otherwise adds a member row with the next id. */
    method Register(fullName: string, email: string, password: string) returns (r: Outcome<AccountError>)
      requires db.Valid()
      modifies db
      ensures db.Valid()
      ensures r == Fail(EmailTaken) <==> exists u :: u in old(db.users) && u.email == email
      ensures r.Fail? ==> db.users == old(db.users) && db.nextUserId == old(db.nextUserId)
      ensures r.Pass? ==>
        && db.users == old(db.users) + [NewMember(old(db.nextUserId), fullName, email, password)]
        && db.nextUserId == old(db.nextUserId) + 1
      ensures r.Fail? ==> r == Fail(EmailTaken)
      ensures db.services == old(db.services) && db.appointments == old(db.appointments)
      ensures db.nextAppointmentId == old(db.nextAppointmentId)
      ensures old(EmailsUnique(db.users)) ==> EmailsUnique(db.users)
    {
      var taken := Seqs.IndexWhere(db.users, (u: User) => u.email == email);
      if taken.Some? {
        assert db.users[taken.value] in db.users;
        return Fail(EmailTaken);
      }
      var member := NewMember(db.nextUserId, fullName, email, password);
      if EmailsUnique(db.users) {
        RegisteredMemberCanLogIn(db.users, db.nextUserId, fullName, email, password);
      }
      db.AddUser(member);
      r := Pass;
    }

    /**
     * GET MyAppointments: deletes the signed-in user's appointments that start
     * before now, then lists the user's remaining ones, latest first. `None`
     * stands for the redirect to the login page.
     */
    method MyAppointments(emailClaim: Option<string>, now: int) returns (r: Option<seq<Appointment>>)
      requires db.Valid()
      modifies db
      ensures db.Valid()
      ensures r.None? <==> SessionUser(old(db.users), emailClaim).None?
      ensures r.None? ==> db.appointments == old(db.appointments)
      ensures r.Some? ==>
        var uid := SessionUser(old(db.users), emailClaim).value.id;
        && db.appointments == WithoutPast(old(db.appointments), uid, now)
        && r.value == UserAppointments(db.appointments, uid)
      ensures db.services == old(db.services) && db.users == old(db.users)
      ensures db.nextAppointmentId == old(db.nextAppointmentId) && db.nextUserId == old(db.nextUserId)
      ensures old(SchedulesDisjoint(db.appointments, db.services)) ==> SchedulesDisjoint(db.appointments, db.services)
      ensures old(AtMostOnePerUserPerDay(db.appointments)) ==> AtMostOnePerUserPerDay(db.appointments)
      ensures old(AllWithinBusinessHours(db.appointments, db.services)) ==> AllWithinBusinessHours(db.appointments, db.services)
    {
      var user := SessionUser(db.users, emailClaim);
      if user.None? {
        return None;
      }
      db.RemoveAppointmentsWhere(SurvivesPurge(user.value.id, now));
      r := Some(UserAppointments(db.appointments, user.value.id));
    }

    /** POST CancelAppointment: deletes the signed-in user's own future appointment `id`. */
    method CancelAppointment(emailClaim: Option<string>, id: int, now: int) returns (r: Outcome<AccountError>)
      requires db.Valid()
      modifies db
      ensures db.Valid()
      ensures SessionUser(old(db.users), emailClaim).None? ==> r == Fail(SignInRequired)
      ensures SessionUser(old(db.users), emailClaim).Some? ==>
        r == CancelCheck(old(db.appointments), SessionUser(old(db.users), emailClaim).value.id, id, now)
      ensures r.Pass? ==>
        && IndexOfAppointment(old(db.appointments), id).Some?
        && db.appointments == Seqs.RemoveAt(old(db.appointments), IndexOfAppointment(old(db.appointments), id).value)
      ensures r.Fail? ==> db.appointments == old(db.appointments)
      ensures db.services == old(db.services) && db.users == old(db.users)
      ensures db.nextAppointmentId == old(db.nextAppointmentId) && db.nextUserId == old(db.nextUserId)
      ensures old(SchedulesDisjoint(db.appointments, db.services)) ==> SchedulesDisjoint(db.appointments, db.services)
      ensures old(AtMostOnePerUserPerDay(db.appointments)) ==> AtMostOnePerUserPerDay(db.appointments)
      ensures old(AllWithinBusinessHours(db.appointments, db.services)) ==> AllWithinBusinessHours(db.appointments, db.services)
    {
      var user := SessionUser(db.users, emailClaim);
      if user.None? {
        return Fail(SignInRequired);
      }
      var k := IndexOfAppointment(db.appointments, id);
      if k.Some? && db.appointments[k.value].userId == Some(user.value.id) {
        if db.appointments[k.value].date > now {
          db.RemoveAppointmentAt(k.value);
          r := Pass;
        } else {
          r := Fail(PastAppointment);
        }
      } else {
        r := Fail(NotFoundOrNotYours);
      }
    }

    /** GET Profile: the signed-in user's row, or `None` for the redirect to the login page. */
    method Profile(emailClaim: Option<string>) returns (r: Option<User>)
      ensures r.Some? ==> r.value in db.users && emailClaim == Some(r.value.email) && r.value.email != ""
      ensures r.None? <==> (emailClaim.None? || emailClaim.value == ""
                            || forall u | u in db.users :: u.email != emailClaim.value)
    {
      r := SessionUser(db.users, emailClaim);
    }

    /**
     * POST Profile: rewrites the name and phone number of the user with the
     * posted id. The row is looked up by that id alone, not by the session.
     */
    method UpdateProfile(id: int, fullName: string, phoneNumber: Option<string>) returns (r: Outcome<AccountError>)
      requires db.Valid()
      modifies db
      ensures db.Valid()
      ensures r.Fail? <==> forall u | u in old(db.users) :: u.id != id
      ensures r.Fail? ==> r == Fail(SignInRequired) && db.users == old(db.users)
      ensures r.Pass? ==>
        exists k | 0 <= k < |old(db.users)| && old(db.users)[k].id == id ::
          db.users == old(db.users)[k := old(db.users)[k].(fullName := fullName, phoneNumber := phoneNumber)]
      ensures db.services == old(db.services) && db.appointments == old(db.appointments)
      ensures db.nextAppointmentId == old(db.nextAppointmentId) && db.nextUserId == old(db.nextUserId)
    {
      var k := Seqs.IndexWhere(db.users, (u: User) => u.id == id);
      if k.None? {
        return Fail(SignInRequired);
      }
      assert db.users[k.value] in db.users;
      var updated := db.users[k.value].(fullName := fullName, phoneNumber := phoneNumber);
      db.UpdateUserAt(k.value, updated);
      r := Pass;
    }

    /** POST ChangePassword: the two new entries must agree and the current password must match. */
    method ChangePassword(emailClaim: Option<string>, currentPassword: string, newPassword: string, confirmPassword: string)
      returns (r: Outcome<AccountError>)
      requires db.Valid()
      modifies db
      ensures db.Valid()
      ensures SessionUserIndex(old(db.users), emailClaim).None? ==> r == Fail(SignInRequired)
      ensures SessionUserIndex(old(db.users), emailClaim).Some? ==>
        var k := SessionUserIndex(old(db.users), emailClaim).value;
        && r == PasswordCheck(old(db.users)[k].password, currentPassword, newPassword, confirmPassword)
        && (r.Pass? ==> db.users == old(db.users)[k := old(db.users)[k].(password := newPassword)])
      ensures r.Fail? ==> db.users == old(db.users)
      ensures db.services == old(db.services) && db.appointments == old(db.appointments)
      ensures db.nextAppointmentId == old(db.nextAppointmentId) && db.nextUserId == old(db.nextUserId)
      ensures old(EmailsUnique(db.users)) ==> EmailsUnique(db.users)
    {
      var k := SessionUserIndex(db.users, emailClaim);
      if k.None? {
        return Fail(SignInRequired);
      }
      var user := db.users[k.value];
      if newPassword != confirmPassword {
        return Fail(PasswordsDiffer);
      }
      if user.password != currentPassword {
        return Fail(WrongCurrentPassword);
      }
      ghost var before := db.users;
      db.UpdateUserAt(k.value, user.(password := newPassword));
      assert forall i | 0 <= i < |before| :: db.users[i].email == before[i].email;
      r := Pass;
    }
  }
}
