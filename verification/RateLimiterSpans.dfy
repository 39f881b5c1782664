/** The limiter's spans are half open. What a span counted with both of its ends
    can hold (internal/web/auth.go:117-128). */
module RateLimiterSpans {
  import opened RateLimiter
  import opened RateLimiterRuns

  /** A span is its two parts. */
  lemma {:induction false} SpanSplits(times: seq<int>, lo: int, a: nat, b: nat)
    ensures CountIn(times, lo, a + b) == CountIn(times, lo, a) + CountIn(times, lo + a, b)
  {
    if times != [] {
      SpanSplits(times[..|times| - 1], lo, a, b);
    }
  }

  /** A closed span holds at most twice the limit, and more than the limit only
      with failures at its very start and at its very end. */
  lemma ClosedSpanHolds(limit: nat, window: nat, ss: seq<Sys>, calls: seq<Call>, i: nat, key: string, lo: int)
    requires Run(limit, window, ss, calls) && i < |ss| && window > 0
    ensures var h := FailsOf(ss[i], key);
            && CountIn(h, lo, window + 1) <= 2 * limit
            && (CountIn(h, lo, window + 1) > limit ==> CountIn(h, lo, 1) > 0 && CountIn(h, lo + window, 1) > 0)
  {
    var h := FailsOf(ss[i], key);
    NoSpanExceedsLimit(limit, window, ss, calls, i, key, lo);
    NoSpanExceedsLimit(limit, window, ss, calls, i, key, lo + 1);
    NoSpanExceedsLimit(limit, window, ss, calls, i, key, lo + window);
    SpanSplits(h, lo, window, 1);
    SpanSplits(h, lo, 1, window);
    SpanSplits(h, lo + window, 1, window - 1);
  }

  // ---- A run that fills a closed span

  function Repeated(t: int, n: nat): seq<int> {
    if n == 0 then [] else Repeated(t, n - 1) + [t]
  }

  lemma OneMoreRepeated(h: seq<int>, t: int, n: nat)
    requires n > 0
    ensures h + Repeated(t, n) == h + Repeated(t, n - 1) + [t]
  {
  }

  lemma {:induction false} CountRepeated(h: seq<int>, t: int, n: nat, lo: int, length: int)
    ensures CountIn(h + Repeated(t, n), lo, length) == CountIn(h, lo, length) + if lo <= t < lo + length then n else 0
  {
    if n == 0 {
      assert h + [] == h;
    } else {
      var before := h + Repeated(t, n - 1);
      OneMoreRepeated(h, t, n);
      CountRepeated(h, t, n - 1, lo, length);
      OneMore(before, t, lo, length);
    }
  }

  lemma {:induction false} RepeatedAfter(h: seq<int>, t: int, n: nat, cutoff: int)
    ensures |After(h + Repeated(t, n), cutoff)| == |After(h, cutoff)| + if t > cutoff then n else 0
  {
    if n == 0 {
      assert h + [] == h;
    } else {
      var before := h + Repeated(t, n - 1);
      RepeatedAfter(h, t, n - 1, cutoff);
      OneMoreRepeated(h, t, n);
      AfterOneMore(before, t, cutoff);
    }
  }

  lemma Goes(limit: nat, window: int, ss: seq<Sys>, calls: seq<Call>, c: Call)
      returns (more: seq<Sys>, longer: seq<Call>)
    requires Run(limit, window, ss, calls) && Enabled(ss[|calls|], c)
    ensures Run(limit, window, more, longer) && |longer| == |calls| + 1
    ensures more[|longer|] == After1(limit, window, ss[|calls|], c)
  {
    var t := After1(limit, window, ss[|calls|], c);
    more, longer := ss + [t], calls + [c];
    forall i | 0 <= i < |longer|
      ensures Enabled(more[i], longer[i]) && more[i + 1] == After1(limit, window, more[i], longer[i])
    {
      if i < |calls| {
        assert more[i] == ss[i] && more[i + 1] == ss[i + 1] && longer[i] == calls[i];
      }
    }
  }

  /** The key has failed as h says and has nothing in flight. */
  ghost predicate AtRest(s: Sys, key: string, h: seq<int>, now: int) {
    FailsOf(s, key) == h && FlightOf(s, key) == 0 && s.clock <= now
  }

  /** One attempt that is granted and fails. */
  lemma FailOnce(limit: nat, window: int, ss: seq<Sys>, calls: seq<Call>, key: string, h: seq<int>, now: int)
    returns (more: seq<Sys>, longer: seq<Call>)
    requires Run(limit, window, ss, calls) && AtRest(ss[|calls|], key, h, now) && |After(h, now - window)| < limit
    ensures Run(limit, window, more, longer) && AtRest(more[|longer|], key, h + [now], now)
  {
    var s := ss[|calls|];
    RunKeeps(limit, window, ss, calls, |calls|, key);
    GrantsExactly(limit, window, s, key, now);
    ReserveHasEffect(limit, window, s, ReserveCall(key, now), key);
    more, longer := Goes(limit, window, ss, calls, ReserveCall(key, now));
    RunKeeps(limit, window, more, longer, |longer|, key);
    DoneHasEffect(limit, window, more[|longer|], DoneCall(key, true, now), key);
    more, longer := Goes(limit, window, more, longer, DoneCall(key, true, now));
  }

  /** n attempts one after another at the same time. */
  lemma {:induction false} FailRepeatedly(limit: nat, window: int, ss: seq<Sys>, calls: seq<Call>, key: string,
                                          h: seq<int>,
                                          now: int, n: nat)
    returns (more: seq<Sys>, longer: seq<Call>)
    requires Run(limit, window, ss, calls) && AtRest(ss[|calls|], key, h, now)
    requires window > 0 && |After(h, now - window)| + n <= limit
    ensures Run(limit, window, more, longer) && AtRest(more[|longer|], key, h + Repeated(now, n), now)
  {
    if n == 0 {
      more, longer := ss, calls;
      assert h + [] == h;
    } else {
      more, longer := FailRepeatedly(limit, window, ss, calls, key, h, now, n - 1);
      RepeatedAfter(h, now, n - 1, now - window);
      more, longer := FailOnce(limit, window, more, longer, key, h + Repeated(now, n - 1), now);
      OneMoreRepeated(h, now, n);
    }
  }

  /** For every limit and window there is a run that fills a closed span with twice the limit. */
  lemma ClosedSpanReachesTwice(limit: nat, window: nat, key: string) returns (ss: seq<Sys>, calls: seq<Call>)
    requires limit > 0 && window > 0
    ensures Run(limit, window, ss, calls)
    ensures CountIn(FailsOf(ss[|calls|], key), 0, window + 1) == 2 * limit > limit
  {
    var first, second := Repeated(0, limit), Repeated(window, limit);
    assert [] + first == first;
    ss, calls := FailRepeatedly(limit, window, [Sys(map[], 0, map[], map[])], [], key, [], 0, limit);
    RepeatedAfter([], 0, limit, 0);
    assert AtRest(ss[|calls|], key, first, window);
    ss, calls := FailRepeatedly(limit, window, ss, calls, key, first, window, limit);
    CountRepeated([], 0, limit, 0, window + 1);
    CountRepeated(first, window, limit, 0, window + 1);
  }

  ghost predicate SpansHold(limit: nat, s: Sys, length: int) {
    forall key, lo :: CountIn(FailsOf(s, key), lo, length) <= limit
  }

  /** No run ever puts more failures of a key into a closed span than the limit. */
  ghost predicate ClosedSpansHold(limit: nat, window: nat) {
    forall ss, calls, i: nat :: Run(limit, window, ss, calls) && i < |ss| ==> SpansHold(limit, ss[i], window + 1)
  }

  /** That is so only for the limiter that never grants. */
  lemma ClosedSpansHoldOnlyAtZero(limit: nat, window: nat)
    requires window > 0
    ensures ClosedSpansHold(limit, window) <==> limit == 0
  {
    if limit > 0 {
      var ss, calls := ClosedSpanReachesTwice(limit, window, "");
      assert !SpansHold(limit, ss[|calls|], window + 1);
    } else {
      forall ss, calls, i: nat | Run(limit, window, ss, calls) && i < |ss|
        ensures SpansHold(limit, ss[i], window + 1)
      {
        var length := window + 1;
        forall key, lo ensures CountIn(FailsOf(ss[i], key), lo, length) <= limit {
          ClosedSpanHolds(limit, window, ss, calls, i, key, lo);
        }
      }
    }
  }
}
