/**
 * The account rules: the purge and ordering of "my appointments",
 * cancellation, the login match and the password change checks.
 */
module Accounts {
  import opened Wrappers
  import opened Models
  import Seqs

  /** The ways an account request fails. `SignInRequired` stands for the redirect to the login page. */
  datatype AccountError =
    | SignInRequired
    | EmailTaken
    | NotFoundOrNotYours
    | PastAppointment
    | PasswordsDiffer
    | WrongCurrentPassword

  // ---------------------------------------------------------------------
  // My appointments

  /** The table after the automatic clean-up: the user's rows that start before now are gone. */
  function WithoutPast(appointments: seq<Appointment>, userId: int, now: int): (r: seq<Appointment>)
    ensures forall a | a in r :: a in appointments
  {
    Seqs.Filter(appointments, SurvivesPurge(userId, now))
  }

  /** The rows the clean-up keeps: all but the user's own rows that start before now. */
  function SurvivesPurge(userId: int, now: int): Appointment -> bool {
    (a: Appointment) => !(a.userId == Some(userId) && a.date < now)
  }

  /** Appointments ordered by start, latest first. */
  predicate LatestFirst(s: seq<Appointment>) {
    forall i, j | 0 <= i < j < |s| :: s[i].date >= s[j].date
  }

  /** A row at least as late as every row of a latest-first list may go in front of it. */
  lemma PrependLatestFirst(y: Appointment, rest: seq<Appointment>)
    requires LatestFirst(rest) && forall j | 0 <= j < |rest| :: y.date >= rest[j].date
    ensures LatestFirst([y] + rest)
  {
    var r := [y] + rest;
    forall i, j | 0 <= i < j < |r| ensures r[i].date >= r[j].date {
      assert r[j] == rest[j - 1];
      if i > 0 { assert r[i] == rest[i - 1]; }
    }
  }

  /** Dropping the latest row keeps a list latest first. */
  lemma TailLatestFirst(s: seq<Appointment>)
    requires LatestFirst(s) && s != []
    ensures LatestFirst(s[1..])
  {
    forall i, j | 0 <= i < j < |s[1..]| ensures s[1..][i].date >= s[1..][j].date {
      assert s[1..][i] == s[i + 1] && s[1..][j] == s[j + 1];
    }
  }

  /** The head of a latest-first list is as late as every row of its tail and of anything earlier than it. */
  lemma HeadBoundsRest(x: Appointment, s: seq<Appointment>, rest: seq<Appointment>)
    requires LatestFirst(s) && s != [] && x.date < s[0].date
    requires forall y | y in rest :: y == x || y in s[1..]
    ensures forall j | 0 <= j < |rest| :: s[0].date >= rest[j].date
  {
    forall j | 0 <= j < |rest| ensures s[0].date >= rest[j].date {
      assert rest[j] in rest;
      if rest[j] != x {
        var k :| 0 <= k < |s[1..]| && s[1..][k] == rest[j];
        assert s[k + 1] == rest[j];
      }
    }
  }

  function InsertLatestFirst(x: Appointment, s: seq<Appointment>): (r: seq<Appointment>)
    requires LatestFirst(s)
    ensures LatestFirst(r)
    ensures multiset(r) == multiset(s) + multiset{x}
    ensures forall y | y in r :: y == x || y in s
  {
    if s == [] then [x]
    else if x.date >= s[0].date then
      PrependLatestFirst(x, s);
      [x] + s
    else
      var rest := InsertLatestFirst(x, s[1..]);
      assert s == [s[0]] + s[1..];
      TailLatestFirst(s);
      HeadBoundsRest(x, s, rest);
      PrependLatestFirst(s[0], rest);
      [s[0]] + rest
  }

  /** `OrderByDescending(a => a.AppointmentDate)`. */
  function SortLatestFirst(s: seq<Appointment>): (r: seq<Appointment>)
    ensures LatestFirst(r)
    ensures multiset(r) == multiset(s)
  {
    if s == [] then []
    else
      assert s == [s[0]] + s[1..];
      InsertLatestFirst(s[0], SortLatestFirst(s[1..]))
  }

  /** The list shown: the user's rows, latest first. */
  function UserAppointments(appointments: seq<Appointment>, userId: int): seq<Appointment> {
    SortLatestFirst(Seqs.Filter(appointments, (a: Appointment) => a.userId == Some(userId)))
  }

  /** The clean-up removes exactly the user's rows that start before now; every other row stays, as often as it was there. */
  lemma PurgeRemovesExactlyPastOwnRows(appointments: seq<Appointment>, userId: int, now: int)
    ensures var r := WithoutPast(appointments, userId, now);
      && (forall a | a in r :: a in appointments && !(a.userId == Some(userId) && a.date < now))
      && (forall a | a in appointments && !(a.userId == Some(userId) && a.date < now) ::
            a in r && multiset(r)[a] == multiset(appointments)[a])
  {
  }

  /** The listed rows are the user's own remaining rows, each as often as in the table, latest first, none before now. */
  lemma ListedAppointmentsAreOwnAndFuture(appointments: seq<Appointment>, userId: int, now: int)
    ensures var listed := UserAppointments(WithoutPast(appointments, userId, now), userId);
      && LatestFirst(listed)
      && (forall a | a in listed :: a in appointments && a.userId == Some(userId) && a.date >= now)
      && (forall a | a in appointments && a.userId == Some(userId) && a.date >= now ::
            multiset(listed)[a] == multiset(appointments)[a])
  {
    var purged := WithoutPast(appointments, userId, now);
    var own := Seqs.Filter(purged, (a: Appointment) => a.userId == Some(userId));
    var listed := UserAppointments(purged, userId);
    assert multiset(listed) == multiset(own);
    forall a | a in listed ensures a in appointments && a.userId == Some(userId) && a.date >= now {
      assert a in multiset(own);
    }
    forall a | a in appointments && a.userId == Some(userId) && a.date >= now
      ensures multiset(listed)[a] == multiset(appointments)[a]
    {
      assert SurvivesPurge(userId, now)(a);
      assert multiset(purged)[a] == multiset(appointments)[a];
      assert a in purged;
      assert multiset(own)[a] == multiset(purged)[a];
    }
  }

  // ---------------------------------------------------------------------
  // Cancelling

  /** Where `FindAsync(id)` finds the row with that id. */
  function IndexOfAppointment(appointments: seq<Appointment>, id: int): (r: Option<nat>)
    ensures r.Some? ==> r.value < |appointments| && appointments[r.value].id == id
    ensures r.None? <==> forall a | a in appointments :: a.id != id
  {
    Seqs.IndexWhere(appointments, (a: Appointment) => a.id == id)
  }

  /** Whether the user may cancel appointment `id` now: it must exist, be theirs and start after now. */
  function CancelCheck(appointments: seq<Appointment>, userId: int, id: int, now: int): Outcome<AccountError> {
    var k := IndexOfAppointment(appointments, id);
    if k.None? || appointments[k.value].userId != Some(userId) then Fail(NotFoundOrNotYours)
    else if appointments[k.value].date > now then Pass
    else Fail(PastAppointment)
  }

  /** A cancel goes through exactly for an existing row of the user that starts strictly after now. */
  lemma CancelAllowedExactly(appointments: seq<Appointment>, userId: int, id: int, now: int)
    requires AppointmentIdsUnique(appointments)
    ensures CancelCheck(appointments, userId, id, now).Pass? <==>
            exists a :: a in appointments && a.id == id && a.userId == Some(userId) && a.date > now
    ensures CancelCheck(appointments, userId, id, now) == Fail(NotFoundOrNotYours) <==>
            forall a | a in appointments && a.id == id :: a.userId != Some(userId)
    ensures CancelCheck(appointments, userId, id, now) == Fail(PastAppointment) <==>
            exists a :: a in appointments && a.id == id && a.userId == Some(userId) && a.date <= now
  {
    var k := IndexOfAppointment(appointments, id);
    if k.Some? {
      assert appointments[k.value] in appointments;
    }
  }

  /** A successful cancel removes that one row; every other row stays, as often as it was there. */
  lemma CancelRemovesOnlyTarget(appointments: seq<Appointment>, k: nat)
    requires k < |appointments| && AppointmentIdsUnique(appointments)
    ensures var r := Seqs.RemoveAt(appointments, k);
      && (forall a | a in r :: a.id != appointments[k].id)
      && (forall a | a in appointments && a != appointments[k] :: multiset(r)[a] == multiset(appointments)[a])
      && AppointmentIdsUnique(r)
  {
    var r := Seqs.RemoveAt(appointments, k);
    assert appointments[k] in appointments;
    assert multiset(r)[appointments[k]] == 0;
  }

  /** An appointment starting exactly now is neither removed by the clean-up nor cancellable. */
  lemma StartingNowIsKeptAndLocked(appointments: seq<Appointment>, userId: int, a: Appointment, now: int)
    requires AppointmentIdsUnique(appointments)
    requires a in appointments && a.userId == Some(userId) && a.date == now
    ensures a in WithoutPast(appointments, userId, now)
    ensures CancelCheck(appointments, userId, a.id, now) == Fail(PastAppointment)
  {
    CancelAllowedExactly(appointments, userId, a.id, now);
  }

  // ---------------------------------------------------------------------
  // Login, registration and passwords

  /** `Users.FirstOrDefaultAsync(u => u.Email == email && u.Password == password)`. */
  function FindCredentials(users: seq<User>, email: string, password: string): (r: Option<User>)
    ensures r.Some? ==> r.value in users && r.value.email == email && r.value.password == password
    ensures r.None? <==> forall u | u in users :: !(u.email == email && u.password == password)
  {
    Seqs.FirstWhere(users, (u: User) => u.email == email && u.password == password)
  }

  /** The row a registration adds: no phone number yet, role "Member". */
  function NewMember(id: int, fullName: string, email: string, password: string): User {
    User(id, fullName, email, None, password, "Member")
  }

  /** The checks of the password change, in order: the two new entries agree, then the current password. */
  function PasswordCheck(stored: string, current: string, newPassword: string, confirm: string)
    : Outcome<AccountError>
  {
    if newPassword != confirm then Fail(PasswordsDiffer)
    else if stored != current then Fail(WrongCurrentPassword)
    else Pass
  }

  /** A password change goes through exactly when the two new entries agree and the current password is the stored one. */
  lemma PasswordChangeAllowedExactly(stored: string, current: string, newPassword: string, confirm: string)
    ensures PasswordCheck(stored, current, newPassword, confirm).Pass? <==> newPassword == confirm && stored == current
    ensures PasswordCheck(stored, current, newPassword, confirm) == Fail(WrongCurrentPassword) <==>
            newPassword == confirm && stored != current
  {
  }

  /** A mismatch of the two new entries is reported even when the current password is wrong too. */
  lemma MismatchReportedFirst(stored: string, current: string, newPassword: string, confirm: string)
    requires newPassword != confirm
    ensures PasswordCheck(stored, current, newPassword, confirm) == Fail(PasswordsDiffer)
  {
  }

  /** A registration with a fresh e-mail keeps e-mails unique, and the new member can log in right away. */
  lemma RegisteredMemberCanLogIn(users: seq<User>, id: int, fullName: string, email: string, password: string)
    requires EmailsUnique(users) && forall u | u in users :: u.email != email
    ensures var grown := users + [NewMember(id, fullName, email, password)];
      && EmailsUnique(grown)
      && FindCredentials(grown, email, password) == Some(NewMember(id, fullName, email, password))
  {
    var grown := users + [NewMember(id, fullName, email, password)];
    assert forall j :: 0 <= j < |users| ==> grown[j] == users[j];
    assert grown[|users|] == NewMember(id, fullName, email, password);
    forall i, j | 0 <= i < j < |grown| ensures grown[i].email != grown[j].email {
      if j == |users| { assert users[i] in users; }
    }
    var r := FindCredentials(grown, email, password);
    var k :| 0 <= k < |grown| && grown[k] == r.value;
    if k < |users| { assert users[k] in users; }
  }

  /** After a password change the user logs in with the new password and, if it differs, not with the old one. */
  lemma ChangedPasswordLogsIn(users: seq<User>, k: nat, newPassword: string)
    requires k < |users| && EmailsUnique(users)
    ensures var changed := users[k := users[k].(password := newPassword)];
      && FindCredentials(changed, users[k].email, newPassword) == Some(changed[k])
      && (users[k].password != newPassword ==> FindCredentials(changed, users[k].email, users[k].password).None?)
  {
    var changed := users[k := users[k].(password := newPassword)];
    var email := users[k].email;
    forall u | u in changed && u.email == email ensures u == changed[k] {
      var j :| 0 <= j < |changed| && changed[j] == u;
      assert j == k;
    }
    assert changed[k] in changed;
  }

  /** A profile update (name and phone only) changes nobody's ability to log in with any e-mail and password. */
  lemma ProfileUpdateKeepsCredentials(users: seq<User>, k: nat, fullName: string, phoneNumber: Option<string>,
                                      email: string, password: string)
    requires k < |users|
    ensures var changed := users[k := users[k].(fullName := fullName, phoneNumber := phoneNumber)];
      FindCredentials(changed, email, password).None? <==> FindCredentials(users, email, password).None?
  {
    var changed := users[k := users[k].(fullName := fullName, phoneNumber := phoneNumber)];
    if FindCredentials(users, email, password).Some? {
      var u := FindCredentials(users, email, password).value;
      var j :| 0 <= j < |users| && users[j] == u;
      assert changed[j] in changed;
    }
    if FindCredentials(changed, email, password).Some? {
      var u := FindCredentials(changed, email, password).value;
      var j :| 0 <= j < |changed| && changed[j] == u;
      assert users[j] in users;
    }
  }
}
