/** What the sign-in requests themselves say of the limiters: whose wrong
    passwords are on record, and who is let through for it
    (internal/web/auth.go:357-425). */
module LoginHistory {
  import opened Options
  import opened RateLimiter
  import opened RateLimiterRuns
  import opened LoginAttempts

  // ---- Told from the steps alone

  /** The keys the request arrived with, the last time its id was used. */
  function Arrived(steps: seq<Step>, id: int): Option<(string, string)> {
    if steps == [] then None
    else
      var last := steps[|steps| - 1];
      if last.Arrive? && last.id == id then Some((last.ipKey, last.userKey)) else Arrived(steps[..|steps| - 1], id)
  }

  /** What the check of the request's password said. */
  function SaidFailed(steps: seq<Step>, id: int): bool {
    if steps == [] then false
    else
      var last := steps[|steps| - 1];
      if last.SettleIp? && last.id == id then last.failed else SaidFailed(steps[..|steps| - 1], id)
  }

  /** When requests from the address had a wrong password. */
  function AddressFailures(steps: seq<Step>, key: string): seq<int> {
    if steps == [] then []
    else
      var init, last := steps[..|steps| - 1], steps[|steps| - 1];
      AddressFailures(init, key)
      + if last.SettleIp? && last.failed && Arrived(init, last.id).Some? && Arrived(init, last.id).value.0 == key
        then [last.now] else []
  }

  /** When requests for the account that had a wrong password were settled. */
  function AccountFailures(steps: seq<Step>, key: string): seq<int> {
    if steps == [] then []
    else
      var init, last := steps[..|steps| - 1], steps[|steps| - 1];
      AccountFailures(init, key)
      + if last.SettleUser? && SaidFailed(init, last.id) && Arrived(init, last.id).Some?
           && Arrived(init, last.id).value.1 == key
        then [last.now] else []
  }

  /** The request carries the keys it came with, and the answer its check gave. */
  ghost predicate Remembers(steps: seq<Step>, requests: map<int, Phase>, id: int) {
    id in requests ==>
      && Arrived(steps, id).Some?
      && var keys, p := Arrived(steps, id).value, requests[id];
         && (p.Entered? || p.IpHeld? || p.UserRefused? || p.Checking? ==> p.ipKey == keys.0)
         && (p.Entered? || p.IpHeld? || p.Checking? || p.IpSettled? ==> p.userKey == keys.1)
         && (p.IpSettled? ==> p.failed == SaidFailed(steps, id))
  }

  /** The limiters hold exactly the failures the steps tell of. */
  ghost predicate OnRecord(steps: seq<Step>, s: State) {
    && (forall id :: Remembers(steps, s.requests, id))
    && (forall key :: FailsOf(s.ip, key) == AddressFailures(steps, key))
    && (forall key :: FailsOf(s.user, key) == AccountFailures(steps, key))
  }

  lemma OneMoreStep(steps: seq<Step>, step: Step, id: int)
    ensures Arrived(steps + [step], id) ==
              if step.Arrive? && step.id == id then Some((step.ipKey, step.userKey)) else Arrived(steps, id)
    ensures SaidFailed(steps + [step], id) ==
              if step.SettleIp? && step.id == id then step.failed else SaidFailed(steps, id)
  {
    assert (steps + [step])[..|steps|] == steps;
  }

  lemma RemembersStep(steps: seq<Step>, s: State, step: Step, t: State, id: int)
    requires Remembers(steps, s.requests, id) && Next(s, step, t)
    ensures Remembers(steps + [step], t.requests, id)
  {
    OneMoreStep(steps, step, id);
  }

  lemma FailuresStep(steps: seq<Step>, s: State, step: Step, t: State, key: string)
    requires OnRecord(steps, s) && Next(s, step, t)
    ensures FailsOf(t.ip, key) == AddressFailures(steps + [step], key)
    ensures FailsOf(t.user, key) == AccountFailures(steps + [step], key)
  {
    assert (steps + [step])[..|steps|] == steps;
    assert Remembers(steps, s.requests, step.id);
  }

  lemma {:induction false} RunIsOnRecord(ss: seq<State>, steps: seq<Step>, i: nat)
    requires LoginAttempts.Run(ss, steps) && i < |ss|
    ensures OnRecord(steps[..i], ss[i])
  {
    if i > 0 {
      RunIsOnRecord(ss, steps, i - 1);
      var s, step, t := ss[i - 1], steps[i - 1], ss[i];
      assert Next(s, step, ss[i - 1 + 1]);
      assert steps[..i] == steps[..i - 1] + [step];
      forall id ensures Remembers(steps[..i], t.requests, id) {
        RemembersStep(steps[..i - 1], s, step, t, id);
      }
      forall key
        ensures FailsOf(t.ip, key) == AddressFailures(steps[..i], key)
        ensures FailsOf(t.user, key) == AccountFailures(steps[..i], key)
      {
        FailuresStep(steps[..i - 1], s, step, t, key);
      }
    }
  }

  /** However requests interleave, each wrong password is charged once to its
      address and once to its account, and nothing else is. */
  lemma WrongPasswordsAreCharged(ss: seq<State>, steps: seq<Step>, i: nat, key: string)
    requires LoginAttempts.Run(ss, steps) && i < |ss|
    ensures FailsOf(ss[i].ip, key) == AddressFailures(steps[..i], key)
    ensures FailsOf(ss[i].user, key) == AccountFailures(steps[..i], key)
  {
    RunIsOnRecord(ss, steps, i);
  }

  // ---- Who is let through

  /** How many of the times are less than a window ago. */
  function Recent(times: seq<int>, now: int, window: int): nat {
    |set k | 0 <= k < |times| && now - times[k] < window|
  }

  lemma {:induction false} AfterIsRecent(times: seq<int>, now: int, window: int)
    ensures |After(times, now - window)| == Recent(times, now, window)
  {
    var all := set k | 0 <= k < |times| && now - times[k] < window;
    if times == [] {
      assert all == {};
    } else {
      var n := |times| - 1;
      AfterIsRecent(times[..n], now, window);
      var before := set k | 0 <= k < |times[..n]| && now - times[..n][k] < window;
      assert all == before + if now - times[n] < window then {n} else {};
    }
  }

  /** Requests from the address past the first reservation and not yet settled. */
  function AddressInFlight(requests: map<int, Phase>, key: string): set<int> {
    set id | id in requests
      && (requests[id].IpHeld? || requests[id].UserRefused? || requests[id].Checking?) && requests[id].ipKey == key
  }

  /** Requests for the account past both reservations and not yet settled. */
  function AccountInFlight(requests: map<int, Phase>, key: string): set<int> {
    set id | id in requests && (requests[id].Checking? || requests[id].IpSettled?) && requests[id].userKey == key
  }

  lemma InFlightAreHolders(requests: map<int, Phase>, key: string)
    ensures AddressInFlight(requests, key) == IpHolders(requests, key)
    ensures AccountInFlight(requests, key) == UserHolders(requests, key)
  {
    assert forall id :: id in AddressInFlight(requests, key) <==> id in IpHolders(requests, key);
    assert forall id :: id in AccountInFlight(requests, key) <==> id in UserHolders(requests, key);
  }

  /** A limiter grants by the failures and attempts in flight that count. */
  lemma GrantsByHistory(limit: nat, window: int, s: Sys, key: string, now: int, failures: seq<int>, inFlight: nat)
    requires Sound(limit, window, s) && now >= s.clock && FailsOf(s, key) == failures && FlightOf(s, key) == inFlight
    ensures Grants(s.m, limit, window, key, now) <==> Recent(failures, now, window) + inFlight < limit
  {
    assert Faithful(window, s, key);
    GrantsExactly(limit, window, s, key, now);
    AfterIsRecent(failures, now, window);
  }

  lemma LimitersByHistory(steps: seq<Step>, s: State, key: string, now: int)
    requires OnRecord(steps, s) && Inv(s)
    ensures now >= s.ip.clock ==>
              (Grants(s.ip.m, IP_MAX, IP_WINDOW, key, now) <==>
                 Recent(AddressFailures(steps, key), now, 60) + |AddressInFlight(s.requests, key)| < 5)
    ensures now >= s.user.clock ==>
              (Grants(s.user.m, USER_MAX, USER_WINDOW, key, now) <==>
                 Recent(AccountFailures(steps, key), now, 900) + |AccountInFlight(s.requests, key)| < 10)
  {
    assert Matched(s, key);
    InFlightAreHolders(s.requests, key);
    if now >= s.ip.clock {
      GrantsByHistory(5, 60, s.ip, key, now, AddressFailures(steps, key), |AddressInFlight(s.requests, key)|);
    }
    if now >= s.user.clock {
      GrantsByHistory(10, 900, s.user, key, now, AccountFailures(steps, key), |AccountInFlight(s.requests, key)|);
    }
  }

  /** A request is let past its address's limiter exactly when fewer than 5 wrong
      passwords of the last minute and requests in flight are the address's. */
  lemma AddressIsLetIn(ss: seq<State>, steps: seq<Step>, i: nat)
    requires LoginAttempts.Run(ss, steps) && i < |steps| && steps[i].ReserveIp?
    ensures steps[i].id in ss[i].requests && ss[i].requests[steps[i].id].Entered?
    ensures var id, now, key := steps[i].id, steps[i].now, ss[i].requests[steps[i].id].ipKey;
            var counted := Recent(AddressFailures(steps[..i], key), now, 60) + |AddressInFlight(ss[i].requests, key)|;
            && (counted < 5 ==> id in ss[i + 1].requests && ss[i + 1].requests[id].IpHeld?)
            && (counted >= 5 ==> id !in ss[i + 1].requests)
  {
    assert Next(ss[i], steps[i], ss[i + 1]);
    RunKeepsInv(ss, steps, i);
    RunIsOnRecord(ss, steps, i);
    LimitersByHistory(steps[..i], ss[i], ss[i].requests[steps[i].id].ipKey, steps[i].now);
  }

  /** And its password is checked exactly when fewer than 10 wrong passwords of
      the last 15 minutes and requests in flight are the account's. */
  lemma AccountIsLetIn(ss: seq<State>, steps: seq<Step>, i: nat)
    requires LoginAttempts.Run(ss, steps) && i < |steps| && steps[i].ReserveUser?
    ensures steps[i].id in ss[i].requests && ss[i].requests[steps[i].id].IpHeld? && steps[i].id in ss[i + 1].requests
    ensures var id, now, key := steps[i].id, steps[i].now, ss[i].requests[steps[i].id].userKey;
            var counted := Recent(AccountFailures(steps[..i], key), now, 900) + |AccountInFlight(ss[i].requests, key)|;
            && (counted < 10 ==> ss[i + 1].requests[id].Checking?)
            && (counted >= 10 ==> ss[i + 1].requests[id].UserRefused?)
  {
    assert Next(ss[i], steps[i], ss[i + 1]);
    RunKeepsInv(ss, steps, i);
    RunIsOnRecord(ss, steps, i);
    LimitersByHistory(steps[..i], ss[i], ss[i].requests[steps[i].id].userKey, steps[i].now);
  }
}
