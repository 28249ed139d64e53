// accounts.ts: login and lockout.
module Lockout {
  import opened Results

  const LOCKOUT_WINDOW := 15 * 60 * 1000

  const SESSION_TTL := 60 * 60 * 1000

  datatype Record = Record(email: string, passwordHash: string, failedAttempts: int, lastFailureTime: int)

  /** What other files decide: which passwords are strong enough, how they are hashed, and the
      token of a session. */
  datatype Policy = Policy(strong: string -> bool, hash: string -> string, token: (string, int, int) -> string)

  datatype SignupResult = SignedUp | TooWeak | Duplicate

  datatype LoginResult = LoggedIn(token: string, expiry: int) | Refused

  type Table = map<string, Record>

  // ---- one call --------------------------------------------------------------------------------

  predicate Locked(r: Record, now: int) {
    r.failedAttempts >= 5 && now - r.lastFailureTime < LOCKOUT_WINDOW
  }

  function Unlocked(r: Record, now: int): Record {
    if r.failedAttempts >= 5 then r.(failedAttempts := 0, lastFailureTime := 0) else r
  }

  /** The record after a password has been compared. */
  function Compared(r: Record, right: bool, now: int): Record {
    if right then Unlocked(r, now).(failedAttempts := 0, lastFailureTime := 0)
    else Unlocked(r, now).(failedAttempts := Unlocked(r, now).failedAttempts + 1, lastFailureTime := now)
  }

  datatype Event =
    | Signup(email: string, password: string, now: int)
    | Login(email: string, password: string, now: int)

  /** Whether the call gets as far as comparing passwords. */
  predicate Compares(t: Table, e: Event) {
    e.Login? && e.email in t && !Locked(t[e.email], e.now)
  }

  predicate Right(p: Policy, t: Table, e: Event)
    requires Compares(t, e)
  {
    t[e.email].passwordHash == p.hash(e.password)
  }

  function After(p: Policy, t: Table, e: Event): Table {
    if e.Signup? then
      if !p.strong(e.password) || e.email in t then t else t[e.email := Record(e.email, p.hash(e.password), 0, 0)]
    else if !Compares(t, e) then t
    else t[e.email := Compared(t[e.email], Right(p, t, e), e.now)]
  }

  // ---- whole runs ------------------------------------------------------------------------------

  /** A clock that never runs backwards. */
  predicate Timely(events: seq<Event>) {
    forall i, j :: 0 <= i < j < |events| ==> events[i].now <= events[j].now
  }

  function Run(p: Policy, events: seq<Event>): Table {
    if events == [] then map[]
    else After(p, Run(p, events[..|events| - 1]), events[|events| - 1])
  }

  /** A password compared for `email`: whether it was right, and when. */
  datatype Try = Try(right: bool, now: int)

  /** Every comparison made for one account, in order. */
  function Tries(p: Policy, events: seq<Event>, email: string): seq<Try> {
    if events == [] then []
    else
      var before, e := events[..|events| - 1], events[|events| - 1];
      var t := Run(p, before);
      Tries(p, before, email)
      + if e.email == email && Compares(t, e) then [Try(Right(p, t, e), e.now)] else []
  }

  /** How many tries in the half-open window from `start` came out `right`. */
  function Count(tries: seq<Try>, start: int, right: bool): nat {
    if tries == [] then 0
    else
      var last := tries[|tries| - 1];
      Count(tries[..|tries| - 1], start, right)
      + if last.right == right && start <= last.now < start + 900_000 then 1 else 0
  }

  /** Wrong passwords in a row at the end. */
  function Streak(tries: seq<Try>): nat {
    if tries == [] || tries[|tries| - 1].right then 0 else 1 + Streak(tries[..|tries| - 1])
  }

  /** The counter forgets every fifth failure once its lockout is over. */
  function Counter(streak: nat): nat {
    if streak == 0 then 0 else (streak - 1) % 5 + 1
  }

  /** What a run leaves in an account's record. */
  ghost predicate Remembers(p: Policy, events: seq<Event>, email: string) {
    var t, tries := Run(p, events), Tries(p, events, email);
    if email !in t then tries == []
    else
      && t[email].failedAttempts == Counter(Streak(tries))
      && (t[email].failedAttempts > 0 ==> tries != [] && t[email].lastFailureTime == tries[|tries| - 1].now)
  }

  lemma CounterSteps(streak: nat)
    ensures Counter(streak + 1) == if Counter(streak) == 5 then 1 else Counter(streak) + 1
    ensures Counter(streak) <= 5 && (Counter(streak) == 0 <==> streak == 0)
    ensures Counter(streak) == 5 <==> streak > 0 && streak % 5 == 0
  {}

  // ---- what a caller knows -------------------------------------------------------------------------

  /** The password an account was first signed up with. */
  function Password(p: Policy, events: seq<Event>, email: string): Option<string> {
    if events == [] then None
    else
      var before, e := Password(p, events[..|events| - 1], email), events[|events| - 1];
      if before.None? && e.Signup? && e.email == email && p.strong(e.password) then Some(e.password) else before
  }

  /** The failures in a row come to a multiple of five, and the last is less than fifteen minutes old. */
  predicate LockedBy(tries: seq<Try>, now: int) {
    Streak(tries) > 0 && Streak(tries) % 5 == 0 && now - tries[|tries| - 1].now < 900_000
  }

  /** The comparisons made for an account, from the calls alone: of every login after its sign-up that
      is not locked out by the guesses before, whether it hashes as the sign-up's password does. */
  function Guesses(p: Policy, events: seq<Event>, email: string): seq<Try> {
    if events == [] then []
    else
      var before, e := events[..|events| - 1], events[|events| - 1];
      var guesses, password := Guesses(p, before, email), Password(p, before, email);
      if e.Login? && e.email == email && password.Some? && !LockedBy(guesses, e.now)
      then guesses + [Try(p.hash(e.password) == p.hash(password.value), e.now)]
      else guesses
  }

  /** Sign-ups again, logins, lockouts and other accounts leave an account's password as it was. */
  lemma {:induction false} PasswordStays(p: Policy, events: seq<Event>, email: string)
    ensures var t, password := Run(p, events), Password(p, events, email);
      && (email in t <==> password.Some?)
      && (password.Some? ==> t[email].passwordHash == p.hash(password.value))
  {
    if events != [] {
      PasswordStays(p, events[..|events| - 1], email);
      LastEvent(p, events, email);
    }
  }

  /** For every run, account and login: it is compared exactly if the account is signed up and the
      guesses so far do not lock it, and it is right exactly if it hashes as the password of the
      first sign-up; and so the guesses are the comparisons. */
  lemma {:induction false} LoginExactly(p: Policy, events: seq<Event>, login: Event)
    requires login.Login?
    ensures var t, password := Run(p, events), Password(p, events, login.email);
      && (Compares(t, login) <==> password.Some? && !LockedBy(Guesses(p, events, login.email), login.now))
      && (Compares(t, login) ==> (Right(p, t, login) <==> p.hash(login.password) == p.hash(password.value)))
    ensures Guesses(p, events, login.email) == Tries(p, events, login.email)
  {
    GuessesAreTries(p, events, login.email);
    PasswordStays(p, events, login.email);
    if login.email in Run(p, events) { LockedExactly(p, events, login); }
  }

  lemma {:induction false} GuessesAreTries(p: Policy, events: seq<Event>, email: string)
    ensures Guesses(p, events, email) == Tries(p, events, email)
  {
    if events != [] {
      var before, e := events[..|events| - 1], events[|events| - 1];
      GuessesAreTries(p, before, email);
      LastEvent(p, events, email);
      PasswordStays(p, before, email);
      hide Run, Tries, Streak, After, Password;
      if e.Login? && e.email == email && email in Run(p, before) { LockedExactly(p, before, e); }
    }
  }

  /** The last event of a run, when it gets as far as comparing and when not. */
  lemma LastEvent(p: Policy, events: seq<Event>, email: string)
    requires events != []
    ensures var before, e := events[..|events| - 1], events[|events| - 1];
      && Run(p, events) == After(p, Run(p, before), e)
      && Tries(p, events, email)
         == if e.email == email && Compares(Run(p, before), e)
            then Tries(p, before, email) + [Try(Right(p, Run(p, before), e), e.now)]
            else Tries(p, before, email)
  {
    hide After, Run, Compares, Right;
    assert Run(p, events) == After(p, Run(p, events[..|events| - 1]), events[|events| - 1]) by { RunLast(p, events); }
    assert Tries(p, events[..|events| - 1], email) + [] == Tries(p, events[..|events| - 1], email);
  }

  lemma RunLast(p: Policy, events: seq<Event>)
    requires events != []
    ensures Run(p, events) == After(p, Run(p, events[..|events| - 1]), events[|events| - 1])
  {}

  /** The counter never passes five: it is the length of the current run of failures, five by five,
      and the time is the latest failure's. */
  lemma {:induction false} CounterIsStreak(p: Policy, events: seq<Event>, email: string)
    ensures Remembers(p, events, email)
    ensures email in Run(p, events) ==> 0 <= Run(p, events)[email].failedAttempts <= 5
  {
    if events != [] {
      var before, e := events[..|events| - 1], events[|events| - 1];
      CounterIsStreak(p, before, email);
      LastEvent(p, events, email);
      hide Run, Tries, Streak, Counter;
      var tries := Tries(p, before, email);
      CounterSteps(Streak(tries));
      assert Streak([]) == 0 && Counter(0) == 0;
      if e.email == email && Compares(Run(p, before), e) {
        var next := Try(Right(p, Run(p, before), e), e.now);
        assert (tries + [next])[..|tries|] == tries;
        assert Streak(tries + [next]) == if next.right then 0 else 1 + Streak(tries);
      }
    }
  }

  /** A login is turned away unread exactly when the failures in a row come to a multiple of five
      and the last of them is less than fifteen minutes old, right password or not. */
  lemma LockedExactly(p: Policy, events: seq<Event>, login: Event)
    requires login.Login? && login.email in Run(p, events)
    ensures var tries := Tries(p, events, login.email);
      !Compares(Run(p, events), login) <==>
      LockedBy(tries, login.now)
  {
    hide Run, Tries, Streak, Counter;
    CounterIsStreak(p, events, login.email);
    CounterSteps(Streak(Tries(p, events, login.email)));
  }

  /** Wrong passwords the window from `start` has room for. */
  function Room(t: Table, email: string, start: int): int {
    if email !in t || t[email].failedAttempts < 0 then 5
    else if t[email].failedAttempts < 5 then 5 - t[email].failedAttempts
    else if t[email].lastFailureTime < start then 5
    else 0
  }

  lemma CountGrows(tries: seq<Try>, next: Try, start: int, right: bool)
    ensures Count(tries + [next], start, right)
         == Count(tries, start, right) + if next.right == right && start <= next.now < start + 900_000 then 1 else 0
  {
    assert (tries + [next])[..|tries|] == tries;
  }

  lemma {:induction false} NoneYet(tries: seq<Try>, start: int, right: bool)
    requires forall t <- tries :: t.now < start
    ensures Count(tries, start, right) == 0
  {
    if tries != [] {
      assert tries[|tries| - 1] in tries;
      NoneYet(tries[..|tries| - 1], start, right);
    }
  }

  lemma {:induction false} TimelyBefore(p: Policy, events: seq<Event>, email: string)
    requires Timely(events) && events != []
    ensures Timely(events[..|events| - 1])
    ensures forall t <- Tries(p, events[..|events| - 1], email) :: t.now <= events[|events| - 1].now
    decreases |events|
  {
    var before := events[..|events| - 1];
    if before != [] {
      assert before[|before| - 1].now <= events[|events| - 1].now;
      TimelyBefore(p, before, email);
      LastEvent(p, before, email);
      hide Run, Tries;
    }
  }

  /** One event before the end of the window. */
  lemma RoomStep(p: Policy, t: Table, e: Event, email: string, start: int)
    requires e.now < start + 900_000 && (email in t ==> 0 <= t[email].failedAttempts <= 5)
    ensures Room(After(p, t, e), email, start) <= 5
    ensures !(e.email == email && Compares(t, e)) ==> Room(After(p, t, e), email, start) == Room(t, email, start)
    ensures e.email == email && Compares(t, e) && !Right(p, t, e) && start <= e.now ==>
      Room(After(p, t, e), email, start) == Room(t, email, start) - 1
    ensures Room(t, email, start) >= 0
  {}

  /** Up to the end of the window, wrong passwords and the room left come to five for every right
      one, and five to begin with. */
  lemma {:induction false} RoomIsKept(p: Policy, events: seq<Event>, email: string, start: int)
    requires Timely(events)
    requires events != [] ==> events[|events| - 1].now < start + 900_000
    ensures var tries := Tries(p, events, email);
      Count(tries, start, false) + Room(Run(p, events), email, start) <= 5 + 5 * Count(tries, start, true)
  {
    if events != [] {
      var before, e := events[..|events| - 1], events[|events| - 1];
      TimelyBefore(p, events, email);
      RoomIsKept(p, before, email, start);
      CounterIsStreak(p, before, email);
      LastEvent(p, events, email);
      RoomStep(p, Run(p, before), e, email, start);
      hide Run, Tries, Count, After, Room, Compares, Right, Remembers;
      var tries := Tries(p, before, email);
      if e.email == email && Compares(Run(p, before), e) {
        var next := Try(Right(p, Run(p, before), e), e.now);
        if e.now < start { NoneYet(tries, start, false); }
        CountGrows(tries, next, start, false);
        CountGrows(tries, next, start, true);
      }
    }
  }

  /** In every run, in every half-open quarter of an hour, for every account: at most five wrong
      passwords are compared, and five more for each right one. */
  lemma {:induction false} RateBound(p: Policy, events: seq<Event>, email: string, start: int)
    requires Timely(events)
    ensures Count(Tries(p, events, email), start, false) <= 5 * (1 + Count(Tries(p, events, email), start, true))
  {
    if events != [] {
      var before, e := events[..|events| - 1], events[|events| - 1];
      if e.now < start + 900_000 {
        RoomIsKept(p, events, email, start);
      } else {
        TimelyBefore(p, events, email);
        RateBound(p, before, email, start);
        LastEvent(p, events, email);
        hide Run, Tries, Count;
        if e.email == email && Compares(Run(p, before), e) {
          var next := Try(Right(p, Run(p, before), e), e.now);
          CountGrows(Tries(p, before, email), next, start, false);
          CountGrows(Tries(p, before, email), next, start, true);
        }
      }
    }
  }

  // ---- the class ---------------------------------------------------------------------------------

  class Accounts {
    const policy: Policy
    var accounts: Table
    ghost var history: seq<Event>   // the calls so far

    ghost predicate Valid()
      reads this
    {
      accounts == Run(policy, history)
    }

    constructor (policy: Policy)
      ensures Valid() && this.policy == policy && history == []
    {
      this.policy := policy;
      accounts, history := map[], [];
    }

    method SignUp(email: string, password: string, now: int) returns (r: SignupResult)
      requires Valid()
      modifies this
      ensures Valid() && history == old(history) + [Signup(email, password, now)]
      ensures r == if !policy.strong(password) then TooWeak
                   else if Password(policy, old(history), email).Some? then Duplicate else SignedUp
    {
      PasswordStays(policy, history, email);
      RunGrows(policy, history, Signup(email, password, now));
      history := history + [Signup(email, password, now)];
      if !policy.strong(password) { return TooWeak; }
      if email in accounts { return Duplicate; }
      accounts := accounts[email := Record(email, policy.hash(password), 0, 0)];
      return SignedUp;
    }

    /** A token exactly for the password of the account's first sign-up, up to its hash, unless the
        failures so far have locked it. */
    method LogIn(email: string, password: string, now: int) returns (r: LoginResult)
      requires Valid()
      modifies this
      ensures Valid() && history == old(history) + [Login(email, password, now)]
      ensures r.LoggedIn? <==>
        && Password(policy, old(history), email).Some?
        && policy.hash(password) == policy.hash(Password(policy, old(history), email).value)
        && !LockedBy(Guesses(policy, old(history), email), now)
      ensures r.LoggedIn? ==> r.expiry == now + 3_600_000 && r.token == policy.token(email, now, 3_600_000)
    {
      LoginExactly(policy, history, Login(email, password, now));
      RunGrows(policy, history, Login(email, password, now));
      history := history + [Login(email, password, now)];
      if email !in accounts { return Refused; }
      var record := accounts[email];
      var timeSinceLastFailure := now - record.lastFailureTime;
      if record.failedAttempts >= 5 && timeSinceLastFailure < LOCKOUT_WINDOW { return Refused; }
      if record.failedAttempts >= 5 && timeSinceLastFailure >= LOCKOUT_WINDOW {
        record := record.(failedAttempts := 0, lastFailureTime := 0);
      }
      var passwordCorrect := record.passwordHash == policy.hash(password);
      if passwordCorrect {
        accounts := accounts[email := record.(failedAttempts := 0, lastFailureTime := 0)];
        return LoggedIn(policy.token(email, now, SESSION_TTL), now + SESSION_TTL);
      }
      accounts := accounts[email := record.(failedAttempts := record.failedAttempts + 1, lastFailureTime := now)];
      return Refused;
    }
  }

  lemma RunGrows(p: Policy, events: seq<Event>, e: Event)
    ensures Run(p, events + [e]) == After(p, Run(p, events), e)
  {
    assert (events + [e])[..|events|] == events;
  }
}
