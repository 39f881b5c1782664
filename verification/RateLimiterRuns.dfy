/** Whole runs of one limiter: any calls, by any number of callers, in the order
    the mutex admits them, with a clock that never goes back
    (internal/web/auth.go:74-125). */
module RateLimiterRuns {
  import opened RateLimiter

  datatype Call = ReserveCall(key: string, now: int) | DoneCall(key: string, failed: bool, now: int)

  /** The limiter with, for each key, every failure ever charged and the number
      of granted attempts not yet settled. */
  datatype Sys = Sys(m: map<string, Bucket>, clock: int, fails: map<string, seq<int>>, flight: map<string, nat>)

  function FailsOf(s: Sys, key: string): seq<int> {
    if key in s.fails then s.fails[key] else []
  }

  function FlightOf(s: Sys, key: string): nat {
    if key in s.flight then s.flight[key] else 0
  }

  /** Time does not go back, and only a granted attempt is settled. */
  predicate Enabled(s: Sys, c: Call) {
    c.now >= s.clock && (c.DoneCall? ==> FlightOf(s, c.key) > 0)
  }

  function After1(limit: nat, window: int, s: Sys, c: Call): Sys {
    match c
    case ReserveCall(key, now) =>
      Sys(AfterReserve(s.m, limit, window, key, now), now, s.fails,
          if Grants(s.m, limit, window, key, now) then s.flight[key := FlightOf(s, key) + 1] else s.flight)
    case DoneCall(key, failed, now) =>
      Sys(AfterDone(s.m, key, failed, now), now,
          if failed then s.fails[key := FailsOf(s, key) + [now]] else s.fails,
          s.flight[key := if FlightOf(s, key) > 0 then FlightOf(s, key) - 1 else 0])
  }

  ghost predicate Run(limit: nat, window: int, ss: seq<Sys>, calls: seq<Call>) {
    && |ss| == |calls| + 1
    && ss[0].m == map[] && ss[0].fails == map[] && ss[0].flight == map[]
    && forall i :: 0 <= i < |calls| ==> Enabled(ss[i], calls[i]) && ss[i + 1] == After1(limit, window, ss[i], calls[i])
  }

  // ---- Counting

  /** How many times are in the half-open span of this length from lo. */
  function CountIn(times: seq<int>, lo: int, length: int): nat {
    if times == [] then 0
    else
      var t := times[|times| - 1];
      CountIn(times[..|times| - 1], lo, length) + if lo <= t < lo + length then 1 else 0
  }

  function CountFrom(times: seq<int>, lo: int): nat {
    if times == [] then 0
    else
      var t := times[|times| - 1];
      CountFrom(times[..|times| - 1], lo) + if lo <= t then 1 else 0
  }

  lemma {:induction false} InSpanIsFrom(times: seq<int>, lo: int, length: int)
    ensures CountIn(times, lo, length) <= CountFrom(times, lo)
  {
    if times != [] {
      InSpanIsFrom(times[..|times| - 1], lo, length);
    }
  }

  lemma {:induction false} FromIsAfter(times: seq<int>, lo: int, cutoff: int)
    requires lo > cutoff
    ensures CountFrom(times, lo) <= |After(times, cutoff)|
  {
    if times != [] {
      FromIsAfter(times[..|times| - 1], lo, cutoff);
    }
  }

  lemma OneMore(times: seq<int>, t: int, lo: int, length: int)
    ensures CountIn(times + [t], lo, length) == CountIn(times, lo, length) + if lo <= t < lo + length then 1 else 0
    ensures CountFrom(times + [t], lo) == CountFrom(times, lo) + if lo <= t then 1 else 0
  {
    assert (times + [t])[..|times|] == times;
  }

  lemma AfterOneMore(times: seq<int>, t: int, c: int)
    ensures After(times + [t], c) == if t > c then After(times, c) + [t] else After(times, c)
  {
    assert (times + [t])[..|times|] == times;
  }

  lemma {:induction false} AfterAfter(times: seq<int>, c: int, d: int)
    requires c <= d
    ensures After(After(times, c), d) == After(times, d)
  {
    if times != [] {
      var init, t := times[..|times| - 1], times[|times| - 1];
      AfterAfter(init, c, d);
      if t > c {
        var kept := After(init, c);
        assert (kept + [t])[..|kept|] == kept;
        assert After(times, c) == kept + [t];
      }
    }
  }

  /** Two lists that agree after a cutoff agree after any later one. */
  lemma AgreeLater(a: seq<int>, b: seq<int>, c: int, d: int)
    requires c <= d && After(a, c) == After(b, c)
    ensures After(a, d) == After(b, d)
  {
    AfterAfter(a, c, d);
    AfterAfter(b, c, d);
  }

  lemma AgreeWithOneMore(a: seq<int>, b: seq<int>, t: int, c: int, d: int)
    requires c <= d && After(a, c) == After(b, c)
    ensures After(a, d) == After(b, d) && After(a + [t], d) == After(b + [t], d)
  {
    AgreeLater(a, b, c, d);
    AfterOneMore(a, t, d);
    AfterOneMore(b, t, d);
  }

  // ---- What a run keeps, key by key

  /** The bucket says what the whole history says about the current window. */
  ghost predicate Faithful(window: int, s: Sys, key: string) {
    var b := BucketAt(s.m, key);
    && b.pending == FlightOf(s, key)
    && After(b.fails, s.clock - window) == After(FailsOf(s, key), s.clock - window)
  }

  ghost predicate Bounded(limit: nat, window: int, s: Sys, key: string) {
    var h := FailsOf(s, key);
    && (forall lo :: CountIn(h, lo, window) <= limit)
    && (forall lo :: lo > s.clock - window ==> CountFrom(h, lo) + FlightOf(s, key) <= limit)
  }

  lemma TidiedBucket(m: map<string, Bucket>, cutoff: int, k: string)
    ensures BucketAt(Tidied(m, cutoff), k).pending == BucketAt(m, k).pending
    ensures After(BucketAt(Tidied(m, cutoff), k).fails, cutoff) == After(BucketAt(m, k).fails, cutoff)
  {
    AfterAfter(BucketAt(m, k).fails, cutoff, cutoff);
    if k in Swept(m, cutoff) {
      assert Swept(m, cutoff)[k] == Pruned(m[k], cutoff);
    }
  }

  /** Sweeping, pruning and deleting lose nothing of the window. */
  lemma BucketAfterReserve(m: map<string, Bucket>, limit: nat, window: int, key: string, now: int, k: string)
    ensures var b, a, c := BucketAt(m, k), BucketAt(AfterReserve(m, limit, window, key, now), k), now - window;
            && After(a.fails, c) == After(b.fails, c)
            && a.pending == b.pending + if k == key && Grants(m, limit, window, key, now) then 1 else 0
  {
    var tidy, c := Tidied(m, now - window), now - window;
    TidiedBucket(m, c, k);
    var b := BucketAt(tidy, key);
    var granted := Grants(m, limit, window, key, now);
    var t := AfterReserve(m, limit, window, key, now);
    assert t == tidy[key := if granted then Pruned(b, c).(pending := b.pending + 1) else Pruned(b, c)];
    AfterAfter(b.fails, c, c);
    if k != key {
      assert BucketAt(t, k) == BucketAt(tidy, k);
    }
  }

  lemma GrantsByBucket(m: map<string, Bucket>, limit: nat, window: int, key: string, now: int)
    ensures Grants(m, limit, window, key, now) <==>
        |After(BucketAt(m, key).fails, now - window)| + BucketAt(m, key).pending < limit
  {
    TidiedBucket(m, now - window, key);
  }

  lemma BucketAfterDone(m: map<string, Bucket>, key: string, failed: bool, now: int, k: string)
    requires BucketAt(m, key).pending > 0
    ensures var b, a := BucketAt(m, k), BucketAt(AfterDone(m, key, failed, now), k);
            && a.fails == (if k == key && failed then b.fails + [now] else b.fails)
            && a.pending == b.pending - if k == key then 1 else 0
  {
  }

  /** What a reserve does to one key, seen through the window. */
  ghost predicate ReserveEffect(window: int, s: Sys, c: Call, granted: bool, t: Sys, k: string) {
    var taken := if k == c.key && granted then 1 else 0;
    && t.clock == c.now >= s.clock
    && After(BucketAt(t.m, k).fails, c.now - window) == After(BucketAt(s.m, k).fails, c.now - window)
    && BucketAt(t.m, k).pending == BucketAt(s.m, k).pending + taken
    && FailsOf(t, k) == FailsOf(s, k) && FlightOf(t, k) == FlightOf(s, k) + taken
  }

  lemma ReserveHasEffect(limit: nat, window: int, s: Sys, c: Call, k: string)
    requires c.ReserveCall? && Enabled(s, c)
    ensures ReserveEffect(window, s, c, Grants(s.m, limit, window, c.key, c.now), After1(limit, window, s, c), k)
  {
    BucketAfterReserve(s.m, limit, window, c.key, c.now, k);
  }

  ghost predicate DoneEffect(s: Sys, c: Call, t: Sys, k: string)
    requires c.DoneCall?
  {
    var settled := if k == c.key then 1 else 0;
    var charged := k == c.key && c.failed;
    && t.clock == c.now >= s.clock
    && BucketAt(t.m, k).fails == (if charged then BucketAt(s.m, k).fails + [c.now] else BucketAt(s.m, k).fails)
    && BucketAt(t.m, k).pending == BucketAt(s.m, k).pending - settled
    && FailsOf(t, k) == (if charged then FailsOf(s, k) + [c.now] else FailsOf(s, k))
    && FlightOf(s, k) >= settled && FlightOf(t, k) == FlightOf(s, k) - settled
  }

  lemma DoneHasEffect(limit: nat, window: int, s: Sys, c: Call, k: string)
    requires c.DoneCall? && Enabled(s, c) && Faithful(window, s, c.key)
    ensures DoneEffect(s, c, After1(limit, window, s, c), k)
  {
    BucketAfterDone(s.m, c.key, c.failed, c.now, k);
  }

  /** An attempt is granted exactly when the failures of the window ending now
      and the attempts in flight leave room, whatever was pruned or deleted. */
  lemma GrantsExactly(limit: nat, window: int, s: Sys, key: string, now: int)
    requires now >= s.clock && Faithful(window, s, key)
    ensures Grants(s.m, limit, window, key, now) <==> |After(FailsOf(s, key), now - window)| + FlightOf(s, key) < limit
  {
    AgreeLater(BucketAt(s.m, key).fails, FailsOf(s, key), s.clock - window, now - window);
    GrantsByBucket(s.m, limit, window, key, now);
  }

  lemma ReserveIsFaithful(window: int, s: Sys, c: Call, granted: bool, t: Sys, k: string)
    requires ReserveEffect(window, s, c, granted, t, k) && Faithful(window, s, k)
    ensures Faithful(window, t, k)
  {
    AgreeLater(BucketAt(s.m, k).fails, FailsOf(s, k), s.clock - window, c.now - window);
  }

  lemma DoneIsFaithful(window: int, s: Sys, c: Call, t: Sys, k: string)
    requires c.DoneCall? && DoneEffect(s, c, t, k) && Faithful(window, s, k)
    ensures Faithful(window, t, k)
  {
    AgreeWithOneMore(BucketAt(s.m, k).fails, FailsOf(s, k), c.now, s.clock - window, c.now - window);
  }

  lemma ReserveIsBounded(limit: nat, window: int, s: Sys, c: Call, granted: bool, t: Sys, k: string)
    requires ReserveEffect(window, s, c, granted, t, k) && Bounded(limit, window, s, k)
    requires k == c.key && granted ==> |After(FailsOf(s, k), c.now - window)| + FlightOf(s, k) < limit
    ensures Bounded(limit, window, t, k)
  {
    var h := FailsOf(s, k);
    forall lo | lo > t.clock - window ensures CountFrom(h, lo) + FlightOf(t, k) <= limit {
      FromIsAfter(h, lo, c.now - window);
    }
  }

  /** One more failure stays within the limit in any span, since the failures
      from its start and the attempts in flight did. */
  lemma SpanStaysBounded(limit: nat, window: int, h: seq<int>, clock: int, flight: nat, now: int, lo: int)
    requires clock <= now && flight > 0 && CountIn(h, lo, window) <= limit
    requires lo > clock - window ==> CountFrom(h, lo) + flight <= limit
    ensures CountIn(h + [now], lo, window) <= limit
    ensures lo > clock - window ==> CountFrom(h + [now], lo) + flight - 1 <= limit
  {
    OneMore(h, now, lo, window);
    InSpanIsFrom(h, lo, window);
  }

  lemma DoneIsBounded(limit: nat, window: int, s: Sys, c: Call, t: Sys, k: string)
    requires c.DoneCall? && DoneEffect(s, c, t, k) && Bounded(limit, window, s, k)
    ensures Bounded(limit, window, t, k)
  {
    if k == c.key && c.failed {
      var h := FailsOf(s, k);
      forall lo
        ensures CountIn(FailsOf(t, k), lo, window) <= limit
        ensures lo > t.clock - window ==> CountFrom(FailsOf(t, k), lo) + FlightOf(t, k) <= limit
      {
        SpanStaysBounded(limit, window, h, s.clock, FlightOf(s, k), c.now, lo);
      }
    }
  }

  lemma ReserveKeeps(limit: nat, window: int, s: Sys, c: Call, k: string)
    requires c.ReserveCall? && Enabled(s, c)
    requires Faithful(window, s, c.key) && Faithful(window, s, k) && Bounded(limit, window, s, k)
    ensures Faithful(window, After1(limit, window, s, c), k) && Bounded(limit, window, After1(limit, window, s, c), k)
  {
    ReserveHasEffect(limit, window, s, c, k);
    GrantsExactly(limit, window, s, c.key, c.now);
    var t, granted := After1(limit, window, s, c), Grants(s.m, limit, window, c.key, c.now);
    ReserveIsFaithful(window, s, c, granted, t, k);
    ReserveIsBounded(limit, window, s, c, granted, t, k);
  }

  lemma DoneKeeps(limit: nat, window: int, s: Sys, c: Call, k: string)
    requires c.DoneCall? && Enabled(s, c)
    requires Faithful(window, s, c.key) && Faithful(window, s, k) && Bounded(limit, window, s, k)
    ensures Faithful(window, After1(limit, window, s, c), k) && Bounded(limit, window, After1(limit, window, s, c), k)
  {
    DoneHasEffect(limit, window, s, c, k);
    var t := After1(limit, window, s, c);
    DoneIsFaithful(window, s, c, t, k);
    DoneIsBounded(limit, window, s, c, t, k);
  }

  lemma {:induction false} RunKeeps(limit: nat, window: int, ss: seq<Sys>, calls: seq<Call>, i: nat, key: string)
    requires Run(limit, window, ss, calls) && i < |ss|
    ensures Faithful(window, ss[i], key) && Bounded(limit, window, ss[i], key)
  {
    if i > 0 {
      var s, c := ss[i - 1], calls[i - 1];
      RunKeeps(limit, window, ss, calls, i - 1, key);
      RunKeeps(limit, window, ss, calls, i - 1, c.key);
      assert ss[i - 1 + 1] == After1(limit, window, s, c);
      if c.ReserveCall? {
        ReserveKeeps(limit, window, s, c, key);
      } else {
        DoneKeeps(limit, window, s, c, key);
      }
    }
  }

  /** Every span of the window's length holds at most `limit` failures of a key. */
  lemma NoSpanExceedsLimit(limit: nat, window: int, ss: seq<Sys>, calls: seq<Call>, i: nat, key: string, lo: int)
    requires Run(limit, window, ss, calls) && i < |ss|
    ensures CountIn(FailsOf(ss[i], key), lo, window) <= limit
  {
    RunKeeps(limit, window, ss, calls, i, key);
  }

  /** The pending count is the number of attempts in flight, never more than the
      limit; and settling one always finds its bucket. */
  lemma PendingIsInFlight(limit: nat, window: int, ss: seq<Sys>, calls: seq<Call>, i: nat, key: string)
    requires Run(limit, window, ss, calls) && i < |ss|
    ensures BucketAt(ss[i].m, key).pending == FlightOf(ss[i], key) <= limit
    ensures FlightOf(ss[i], key) > 0 ==> key in ss[i].m
  {
    RunKeeps(limit, window, ss, calls, i, key);
    assert CountFrom(FailsOf(ss[i], key), ss[i].clock - window + 1) + FlightOf(ss[i], key) <= limit;
  }

  /** Over a run, an attempt is refused only for failures and attempts that count. */
  lemma ReserveIsExact(limit: nat, window: int, ss: seq<Sys>, calls: seq<Call>, i: nat)
    requires Run(limit, window, ss, calls) && i < |calls| && calls[i].ReserveCall?
    ensures var key, now := calls[i].key, calls[i].now;
            Grants(ss[i].m, limit, window, key, now) <==>
              |After(FailsOf(ss[i], key), now - window)| + FlightOf(ss[i], key) < limit
  {
    RunKeeps(limit, window, ss, calls, i, calls[i].key);
    GrantsExactly(limit, window, ss[i], calls[i].key, calls[i].now);
  }

  /** When attempts for the key were settled as failures, told from the calls alone. */
  function FailedAt(calls: seq<Call>, key: string): seq<int> {
    if calls == [] then []
    else
      var last := calls[|calls| - 1];
      FailedAt(calls[..|calls| - 1], key)
      + if last.DoneCall? && last.failed && last.key == key then [last.now] else []
  }

  /** Every failed attempt is charged, at the time it is settled, and nothing else is. */
  lemma {:induction false} FailuresAreCharged(limit: nat, window: int, ss: seq<Sys>, calls: seq<Call>, i: nat,
                                              key: string)
    requires Run(limit, window, ss, calls) && i < |ss|
    ensures FailsOf(ss[i], key) == FailedAt(calls[..i], key)
  {
    if i > 0 {
      FailuresAreCharged(limit, window, ss, calls, i - 1, key);
      assert calls[..i][..i - 1] == calls[..i - 1];
      assert ss[i - 1 + 1] == After1(limit, window, ss[i - 1], calls[i - 1]);
    }
  }

  /** A reserve that finds more than 1024 buckets leaves only those with a failure
      in the window or an attempt in flight, besides its own. */
  lemma SweepLeavesNoStale(m: map<string, Bucket>, limit: nat, window: int, key: string, now: int, k: string)
    requires |m| > 1024 && k in AfterReserve(m, limit, window, key, now) && k != key
    ensures var b := AfterReserve(m, limit, window, key, now)[k];
            b.pending != 0 || exists n :: 0 <= n < |b.fails| && now - b.fails[n] < window
  {
    var b := AfterReserve(m, limit, window, key, now)[k];
    assert b == Pruned(m[k], now - window) && !Stale(m[k], now - window);
    if b.pending == 0 {
      AfterIsLate(m[k].fails, now - window);
      assert b.fails[0] > now - window;
    }
  }

  /** Settling an attempt leaves no empty bucket behind. */
  lemma SettlingLeavesNoEmpty(limit: nat, window: int, s: Sys, c: Call)
    requires c.DoneCall? && c.key in After1(limit, window, s, c).m
    ensures var b := After1(limit, window, s, c).m[c.key]; b.fails != [] || b.pending > 0
  {
  }

  lemma {:induction false} AfterIsLate(times: seq<int>, cutoff: int)
    ensures forall n :: 0 <= n < |After(times, cutoff)| ==> After(times, cutoff)[n] > cutoff
  {
    if times != [] {
      AfterIsLate(times[..|times| - 1], cutoff);
    }
  }
}
