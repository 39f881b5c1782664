/** Sign-in requests running side by side, each reserving an attempt for its
    address and one for its account before the password is checked, and
    settling both afterwards (internal/web/auth.go, handleLogin). */
module LoginAttempts {
  import opened RateLimiter
  import opened RateLimiterRuns

  // Times are in seconds.
  const IP_MAX: nat := 5
  const IP_WINDOW := 60
  const USER_MAX: nat := 10
  const USER_WINDOW := 900

  /** Where a request stands. */
  datatype Phase =
    | Entered(ipKey: string, userKey: string)
    | IpHeld(ipKey: string, userKey: string)
    | UserRefused(ipKey: string)
    | Checking(ipKey: string, userKey: string)
    | IpSettled(userKey: string, failed: bool)

  datatype State = State(ip: Sys, user: Sys, requests: map<int, Phase>)

  datatype Step =
    | Arrive(id: int, ipKey: string, userKey: string)
    | ReserveIp(id: int, now: int)
    | ReserveUser(id: int, now: int)
    | GiveBackIp(id: int, now: int)
    | SettleIp(id: int, failed: bool, now: int)
    | SettleUser(id: int, now: int)

  function Ip(s: State, c: Call): Sys {
    After1(IP_MAX, IP_WINDOW, s.ip, c)
  }

  function User(s: State, c: Call): Sys {
    After1(USER_MAX, USER_WINDOW, s.user, c)
  }

  ghost predicate Next(s: State, step: Step, t: State) {
    match step
    case Arrive(id, ipKey, userKey) =>
      id !in s.requests && t == s.(requests := s.requests[id := Entered(ipKey, userKey)])
    case ReserveIp(id, now) =>
      && id in s.requests && s.requests[id].Entered? && now >= s.ip.clock
      && var r := s.requests[id];
         t == s.(ip := Ip(s, ReserveCall(r.ipKey, now)),
                 requests := if Grants(s.ip.m, IP_MAX, IP_WINDOW, r.ipKey, now)
                             then s.requests[id := IpHeld(r.ipKey, r.userKey)] else s.requests - {id})
    case ReserveUser(id, now) =>
      && id in s.requests && s.requests[id].IpHeld? && now >= s.user.clock
      && var r := s.requests[id];
         t == s.(user := User(s, ReserveCall(r.userKey, now)),
                 requests := s.requests[id := if Grants(s.user.m, USER_MAX, USER_WINDOW, r.userKey, now)
                                              then Checking(r.ipKey, r.userKey) else UserRefused(r.ipKey)])
    case GiveBackIp(id, now) =>
      && id in s.requests && s.requests[id].UserRefused? && now >= s.ip.clock
      && t == s.(ip := Ip(s, DoneCall(s.requests[id].ipKey, false, now)), requests := s.requests - {id})
    case SettleIp(id, failed, now) =>
      && id in s.requests && s.requests[id].Checking? && now >= s.ip.clock
      && t == s.(ip := Ip(s, DoneCall(s.requests[id].ipKey, failed, now)),
                 requests := s.requests[id := IpSettled(s.requests[id].userKey, failed)])
    case SettleUser(id, now) =>
      && id in s.requests && s.requests[id].IpSettled? && now >= s.user.clock
      && t == s.(user := User(s, DoneCall(s.requests[id].userKey, s.requests[id].failed, now)),
          requests := s.requests - {id})
  }

  ghost predicate Init(s: State) {
    && s.ip.m == map[] && s.ip.fails == map[] && s.ip.flight == map[]
    && s.user.m == map[] && s.user.fails == map[] && s.user.flight == map[]
    && s.requests == map[]
  }

  ghost predicate Run(ss: seq<State>, steps: seq<Step>) {
    && |ss| == |steps| + 1 && Init(ss[0])
    && forall i :: 0 <= i < |steps| ==> Next(ss[i], steps[i], ss[i + 1])
  }

  // ---- Each granted reserve has exactly one request that will settle it

  predicate HoldsIp(p: Phase, key: string) {
    (p.IpHeld? || p.UserRefused? || p.Checking?) && p.ipKey == key
  }

  predicate HoldsUser(p: Phase, key: string) {
    (p.Checking? || p.IpSettled?) && p.userKey == key
  }

  function IpHolders(requests: map<int, Phase>, key: string): set<int> {
    set id | id in requests && HoldsIp(requests[id], key)
  }

  function UserHolders(requests: map<int, Phase>, key: string): set<int> {
    set id | id in requests && HoldsUser(requests[id], key)
  }

  ghost predicate Sound(limit: nat, window: int, s: Sys) {
    forall key :: Faithful(window, s, key) && Bounded(limit, window, s, key)
  }

  /** Each key's attempts in flight are the requests holding it. */
  ghost predicate Matched(s: State, key: string) {
    |IpHolders(s.requests, key)| == FlightOf(s.ip, key) && |UserHolders(s.requests, key)| == FlightOf(s.user, key)
  }

  ghost predicate Inv(s: State) {
    && (forall key :: Matched(s, key))
    && Sound(IP_MAX, IP_WINDOW, s.ip) && Sound(USER_MAX, USER_WINDOW, s.user)
  }

  lemma SoundNext(limit: nat, window: int, s: Sys, c: Call)
    requires Sound(limit, window, s) && Enabled(s, c)
    ensures Sound(limit, window, After1(limit, window, s, c))
  {
    forall key ensures Faithful(window, After1(limit, window, s, c), key)
        && Bounded(limit, window, After1(limit, window, s, c), key) {
      if c.ReserveCall? {
        ReserveKeeps(limit, window, s, c, key);
      } else {
        DoneKeeps(limit, window, s, c, key);
      }
    }
  }

  lemma IpHoldersSplit(m: map<int, Phase>, id: int, key: string)
    ensures |IpHolders(m, key)| == |IpHolders(m - {id}, key)| + if id in m && HoldsIp(m[id], key) then 1 else 0
  {
    var rest := IpHolders(m - {id}, key);
    if id in m && HoldsIp(m[id], key) {
      assert IpHolders(m, key) == rest + {id};
    } else {
      assert IpHolders(m, key) == rest;
    }
  }

  lemma UserHoldersSplit(m: map<int, Phase>, id: int, key: string)
    ensures |UserHolders(m, key)| == |UserHolders(m - {id}, key)| + if id in m && HoldsUser(m[id], key) then 1 else 0
  {
    var rest := UserHolders(m - {id}, key);
    if id in m && HoldsUser(m[id], key) {
      assert UserHolders(m, key) == rest + {id};
    } else {
      assert UserHolders(m, key) == rest;
    }
  }

  /** Changing one request changes the holders by at most that request. */
  lemma HoldersChange(before: map<int, Phase>, after: map<int, Phase>, id: int, key: string)
    requires after - {id} == before - {id}
    ensures |IpHolders(after, key)| - |IpHolders(before, key)|
              == (if id in after && HoldsIp(after[id], key) then 1 else 0)
              - (if id in before && HoldsIp(before[id], key) then 1 else 0)
    ensures |UserHolders(after, key)| - |UserHolders(before, key)|
              == (if id in after && HoldsUser(after[id], key) then 1 else 0)
              - (if id in before && HoldsUser(before[id], key) then 1 else 0)
  {
    IpHoldersSplit(before, id, key);
    IpHoldersSplit(after, id, key);
    UserHoldersSplit(before, id, key);
    UserHoldersSplit(after, id, key);
  }

  /** Every step settles only what its own request holds. */
  lemma StepsAreEnabled(s: State, step: Step, t: State)
    requires (forall key :: Matched(s, key)) && Next(s, step, t)
    ensures step.GiveBackIp? || step.SettleIp? ==> FlightOf(s.ip, s.requests[step.id].ipKey) > 0
    ensures step.SettleUser? ==> FlightOf(s.user, s.requests[step.id].userKey) > 0
  {
    if step.GiveBackIp? || step.SettleIp? {
      assert Matched(s, s.requests[step.id].ipKey);
      assert step.id in IpHolders(s.requests, s.requests[step.id].ipKey);
    } else if step.SettleUser? {
      assert Matched(s, s.requests[step.id].userKey);
      assert step.id in UserHolders(s.requests, s.requests[step.id].userKey);
    }
  }

  lemma NextKeepsSound(s: State, step: Step, t: State)
    requires Inv(s) && Next(s, step, t)
    ensures Sound(IP_MAX, IP_WINDOW, t.ip) && Sound(USER_MAX, USER_WINDOW, t.user)
  {
    StepsAreEnabled(s, step, t);
    match step {
      case Arrive(id, ipKey, userKey) =>
      case ReserveIp(id, now) => SoundNext(IP_MAX, IP_WINDOW, s.ip, ReserveCall(s.requests[id].ipKey, now));
      case ReserveUser(id, now) => SoundNext(USER_MAX, USER_WINDOW, s.user, ReserveCall(s.requests[id].userKey, now));
      case GiveBackIp(id, now) => SoundNext(IP_MAX, IP_WINDOW, s.ip, DoneCall(s.requests[id].ipKey, false, now));
      case SettleIp(id, failed, now) => SoundNext(IP_MAX, IP_WINDOW, s.ip, DoneCall(s.requests[id].ipKey, failed, now));
      case SettleUser(id, now) => SoundNext(USER_MAX, USER_WINDOW, s.user,
          DoneCall(s.requests[id].userKey, s.requests[id].failed, now));
    }
  }

  function One(b: bool): int {
    if b then 1 else 0
  }

  /** The attempts in flight change by what the step's request takes or gives up. */
  lemma IpFlightMoves(s: State, step: Step, t: State, key: string)
    requires (forall k :: Matched(s, k)) && Next(s, step, t)
    ensures FlightOf(t.ip, key) - FlightOf(s.ip, key)
         == One(step.id in t.requests && HoldsIp(t.requests[step.id], key))
            - One(step.id in s.requests && HoldsIp(s.requests[step.id], key))
  {
    StepsAreEnabled(s, step, t);
  }

  lemma UserFlightMoves(s: State, step: Step, t: State, key: string)
    requires (forall k :: Matched(s, k)) && Next(s, step, t)
    ensures FlightOf(t.user, key) - FlightOf(s.user, key)
         == One(step.id in t.requests && HoldsUser(t.requests[step.id], key))
            - One(step.id in s.requests && HoldsUser(s.requests[step.id], key))
  {
    StepsAreEnabled(s, step, t);
  }

  lemma OtherRequestsStay(s: State, step: Step, t: State)
    requires Next(s, step, t)
    ensures t.requests - {step.id} == s.requests - {step.id}
  {
  }

  lemma NextKeepsHolders(s: State, step: Step, t: State, key: string)
    requires (forall key :: Matched(s, key)) && Next(s, step, t)
    ensures Matched(t, key)
  {
    assert Matched(s, key);
    IpFlightMoves(s, step, t, key);
    UserFlightMoves(s, step, t, key);
    OtherRequestsStay(s, step, t);
    HoldersChange(s.requests, t.requests, step.id, key);
  }

  lemma NextKeepsInv(s: State, step: Step, t: State)
    requires Inv(s) && Next(s, step, t)
    ensures Inv(t)
  {
    NextKeepsSound(s, step, t);
    forall key
      ensures Matched(t, key)
    {
      NextKeepsHolders(s, step, t, key);
    }
  }

  lemma {:induction false} RunKeepsInv(ss: seq<State>, steps: seq<Step>, i: nat)
    requires Run(ss, steps) && i < |ss|
    ensures Inv(ss[i])
  {
    if i > 0 {
      RunKeepsInv(ss, steps, i - 1);
      assert Next(ss[i - 1], steps[i - 1], ss[i - 1 + 1]);
      NextKeepsInv(ss[i - 1], steps[i - 1], ss[i]);
    } else {
      forall key
        ensures Matched(ss[0], key)
      {
        assert IpHolders(ss[0].requests, key) == {} && UserHolders(ss[0].requests, key) == {};
      }
    }
  }

  /** However requests interleave, no address fails more than 5 times in any
      minute and no account more than 10 times in any 15 minutes. */
  lemma LoginsStayWithinLimits(ss: seq<State>, steps: seq<Step>, i: nat, key: string, lo: int)
    requires Run(ss, steps) && i < |ss|
    ensures CountIn(FailsOf(ss[i].ip, key), lo, IP_WINDOW) <= IP_MAX
    ensures CountIn(FailsOf(ss[i].user, key), lo, USER_WINDOW) <= USER_MAX
  {
    RunKeepsInv(ss, steps, i);
    assert Bounded(IP_MAX, IP_WINDOW, ss[i].ip, key) && Bounded(USER_MAX, USER_WINDOW, ss[i].user, key);
  }

  /** No request leaks an attempt: each key's pending count is the number of
      requests holding it, so it is zero once none is running. */
  lemma NothingLeaks(ss: seq<State>, steps: seq<Step>, i: nat, key: string)
    requires Run(ss, steps) && i < |ss|
    ensures BucketAt(ss[i].ip.m, key).pending == |IpHolders(ss[i].requests, key)|
    ensures BucketAt(ss[i].user.m, key).pending == |UserHolders(ss[i].requests, key)|
    ensures ss[i].requests == map[] ==>
        BucketAt(ss[i].ip.m, key).pending == 0 && BucketAt(ss[i].user.m, key).pending == 0
  {
    RunKeepsInv(ss, steps, i);
    assert Faithful(IP_WINDOW, ss[i].ip, key) && Faithful(USER_WINDOW, ss[i].user, key) && Matched(ss[i], key);
    if ss[i].requests == map[] {
      assert IpHolders(map[], key) == {} && UserHolders(map[], key) == {};
    }
  }
}
