/** The limiter of sign-in attempts: for each key the recent failures and the
    attempts still open (internal/web/auth.go, rateLimiter). Times are integers;
    each method takes the time its call to time.Now returned. */
module RateLimiter {

  datatype Bucket = Bucket(fails: seq<int>, pending: int)

  /** The times after `cutoff`, in order. */
  function After(times: seq<int>, cutoff: int): seq<int> {
    if times == [] then []
    else
      var t := times[|times| - 1];
      var kept := After(times[..|times| - 1], cutoff);
      if t > cutoff then kept + [t] else kept
  }

  // ---- What each call makes of the buckets

  /** The map is swept once it grows past this. */
  const SWEEP_ABOVE := 1024

  function Pruned(b: Bucket, cutoff: int): Bucket {
    b.(fails := After(b.fails, cutoff))
  }

  predicate Stale(b: Bucket, cutoff: int) {
    After(b.fails, cutoff) == [] && b.pending == 0
  }

  function Swept(m: map<string, Bucket>, cutoff: int): map<string, Bucket> {
    map k | k in m && !Stale(m[k], cutoff) :: Pruned(m[k], cutoff)
  }

  /** A sweep under way: the keys in `rest` are still to be visited. */
  function PartSwept(m: map<string, Bucket>, rest: set<string>, cutoff: int): map<string, Bucket> {
    map k | k in m && (k in rest || !Stale(m[k], cutoff)) :: if k in rest then m[k] else Pruned(m[k], cutoff)
  }

  lemma SweepStep(m: map<string, Bucket>, rest: set<string>, cutoff: int, k: string)
    requires k in rest && rest <= m.Keys
    ensures k in PartSwept(m, rest, cutoff) && PartSwept(m, rest, cutoff)[k] == m[k]
    ensures PartSwept(m, rest - {k}, cutoff) ==
              if Stale(m[k], cutoff) then PartSwept(m, rest, cutoff) - {k}
              else PartSwept(m, rest, cutoff)[k := Pruned(m[k], cutoff)]
  {
  }

  lemma SetTwice(m: map<string, Bucket>, key: string, a: Bucket, b: Bucket)
    ensures m[key := a][key := b] == m[key := b]
  {
  }

  function BucketAt(m: map<string, Bucket>, key: string): Bucket {
    if key in m then m[key] else Bucket([], 0)
  }

  /** The buckets reserve finds, swept when there are too many. */
  function Tidied(m: map<string, Bucket>, cutoff: int): map<string, Bucket> {
    if |m| > SWEEP_ABOVE then Swept(m, cutoff) else m
  }

  predicate Grants(m: map<string, Bucket>, limit: nat, window: int, key: string, now: int) {
    var b := Pruned(BucketAt(Tidied(m, now - window), key), now - window);
    |b.fails| + b.pending < limit
  }

  function AfterReserve(m: map<string, Bucket>, limit: nat, window: int, key: string, now: int): map<string, Bucket> {
    var tidy := Tidied(m, now - window);
    var b := Pruned(BucketAt(tidy, key), now - window);
    tidy[key := if Grants(m, limit, window, key, now) then b.(pending := b.pending + 1) else b]
  }

  /** Whether the bucket the key has leaves room for one more attempt. */
  predicate Affords(m: map<string, Bucket>, limit: nat, key: string, cutoff: int)
    requires key in m
  {
    |Pruned(m[key], cutoff).fails| + m[key].pending < limit
  }

  function Charged(m: map<string, Bucket>, limit: nat, key: string, cutoff: int): map<string, Bucket>
    requires key in m
  {
    var b := Pruned(m[key], cutoff);
    m[key := if Affords(m, limit, key, cutoff) then b.(pending := b.pending + 1) else b]
  }

  lemma ReserveCharges(m: map<string, Bucket>, limit: nat, window: int, key: string, now: int,
                       tidy: map<string, Bucket>, found: map<string, Bucket>)
    requires tidy == Tidied(m, now - window) && found == tidy[key := BucketAt(tidy, key)]
    ensures Grants(m, limit, window, key, now) <==> Affords(found, limit, key, now - window)
    ensures AfterReserve(m, limit, window, key, now) == Charged(found, limit, key, now - window)
  {
    var b := BucketAt(tidy, key);
    SetTwice(tidy, key, b, Pruned(b, now - window));
    SetTwice(tidy, key, b, Pruned(b, now - window).(pending := b.pending + 1));
  }

  function AfterDone(m: map<string, Bucket>, key: string, failed: bool, now: int): map<string, Bucket> {
    if key !in m then m
    else
      var b := Bucket(if failed then m[key].fails + [now] else m[key].fails, m[key].pending - 1);
      if b.fails == [] && b.pending <= 0 then m - {key} else m[key := b]
  }

  class LimitBucket {
    var fails: seq<int>
    var pending: int

    constructor ()
      ensures fails == [] && pending == 0
    {
      fails, pending := [], 0;
    }

    method Prune(cutoff: int)
      modifies this`fails
      ensures fails == After(old(fails), cutoff)
    {
      var kept: seq<int> := [];
      for i := 0 to |fails|
        invariant fails == old(fails)
        invariant kept == After(fails[..i], cutoff)
      {
        assert fails[..i + 1][..i] == fails[..i];
        if fails[i] > cutoff {
          kept := kept + [fails[i]];
        }
      }
      assert fails[..|fails|] == fails;
      fails := kept;
    }
  }

  class Limiter {
    const limit: nat
    const window: int
    var buckets: map<string, LimitBucket>
    ghost var Repr: set<LimitBucket>

    ghost predicate Valid()
      reads this
    {
      && (forall k :: k in buckets ==> buckets[k] in Repr)
      && (forall j, k :: j in buckets && k in buckets && j != k ==> buckets[j] != buckets[k])
    }

    ghost function View(): map<string, Bucket>
      requires Valid()
      reads this, Repr
    {
      map k | k in buckets :: Bucket(buckets[k].fails, buckets[k].pending)
    }

    constructor (limit: nat, window: int)
      ensures Valid() && View() == map[] && this.limit == limit && this.window == window && Repr == {}
    {
      this.limit, this.window, buckets, Repr := limit, window, map[], {};
    }

    method PruneAt(key: string, cutoff: int) returns (b: LimitBucket)
      requires Valid() && key in buckets
      modifies Repr
      ensures Valid() && buckets == old(buckets) && Repr == old(Repr)
      ensures b == buckets[key] && Bucket(b.fails, b.pending) == View()[key]
      ensures View() == old(View())[key := Pruned(old(View())[key], cutoff)]
    {
      b := buckets[key];
      b.Prune(cutoff);
    }

    method Drop(key: string)
      requires Valid()
      modifies this`buckets
      ensures Valid() && View() == old(View()) - {key}
    {
      buckets := buckets - {key};
    }

    method MakeBucket(key: string)
      requires Valid() && key !in buckets
      modifies this
      ensures Valid() && fresh(Repr - old(Repr)) && old(Repr) <= Repr && key in buckets
      ensures View() == old(View())[key := Bucket([], 0)]
    {
      var made := new LimitBucket();
      buckets := buckets[key := made];
      Repr := Repr + {made};
    }

    method AddPending(key: string)
      requires Valid() && key in buckets
      modifies Repr
      ensures Valid() && buckets == old(buckets) && Repr == old(Repr)
      ensures View() == old(View())[key := old(View())[key].(pending := old(View())[key].pending + 1)]
    {
      buckets[key].pending := buckets[key].pending + 1;
    }

    method PruneOrDrop(key: string, cutoff: int)
      requires Valid() && key in buckets
      modifies this`buckets, Repr
      ensures Valid()
      ensures View() == if Stale(old(View())[key], cutoff) then old(View()) - {key}
                        else old(View())[key := Pruned(old(View())[key], cutoff)]
    {
      ghost var before := View();
      var b := PruneAt(key, cutoff);
      assert View()[key] == Pruned(before[key], cutoff);
      if |b.fails| == 0 && b.pending == 0 {
        Drop(key);
        assert before[key := Pruned(before[key], cutoff)] - {key} == before - {key};
      }
    }

    /** Drops every stale key and prunes the others. */
    method Sweep(cutoff: int)
      requires Valid()
      modifies this`buckets, Repr
      ensures Valid()
      ensures View() == Swept(old(View()), cutoff)
    {
      ghost var start := View();
      var rest := buckets.Keys;
      assert PartSwept(start, rest, cutoff) == start;
      while rest != {}
        invariant Valid() && rest <= start.Keys
        invariant View() == PartSwept(start, rest, cutoff)
      {
        var k :| k in rest;
        SweepStep(start, rest, cutoff, k);
        assert k in View();
        rest := rest - {k};
        PruneOrDrop(k, cutoff);
      }
      assert PartSwept(start, {}, cutoff) == Swept(start, cutoff);
    }

    /** Sweeps a map that has grown large. */
    method Tidy(cutoff: int, ghost m: map<string, Bucket>) returns (ghost tidy: map<string, Bucket>)
      requires Valid() && View() == m
      modifies this`buckets, Repr
      ensures Valid() && View() == tidy && tidy == Tidied(m, cutoff)
    {
      assert View().Keys == buckets.Keys;
      if |buckets.Keys| > SWEEP_ABOVE {
        Sweep(cutoff);
      }
      tidy := View();
    }

    /** Makes sure the key has a bucket. */
    method FindBucket(key: string, ghost m: map<string, Bucket>) returns (ghost found: map<string, Bucket>)
      requires Valid() && View() == m
      modifies this
      ensures Valid() && fresh(Repr - old(Repr)) && old(Repr) <= Repr && key in buckets
      ensures View() == found && key in found && found == m[key := BucketAt(m, key)]
    {
      if key !in buckets {
        MakeBucket(key);
      } else {
        assert m == m[key := m[key]];
      }
      found := View();
    }

    /** Prunes the key's bucket and takes an attempt if the limit allows one. */
    method Charge(key: string, cutoff: int, ghost m: map<string, Bucket>) returns (granted: bool)
      requires Valid() && key in buckets && View() == m
      modifies Repr
      ensures Valid() && Repr == old(Repr) && key in m
      ensures granted <==> Affords(m, limit, key, cutoff)
      ensures View() == Charged(m, limit, key, cutoff)
    {
      var b := PruneAt(key, cutoff);
      if |b.fails| + b.pending >= limit {
        return false;
      }
      AddPending(key);
      ghost var pruned := Pruned(m[key], cutoff);
      SetTwice(m, key, pruned, pruned.(pending := pruned.pending + 1));
      return true;
    }

    /** Opens an attempt, unless recent failures and open attempts already fill the key's limit. */
    method Reserve(key: string, now: int) returns (granted: bool)
      requires Valid()
      modifies this, Repr
      ensures Valid() && fresh(Repr - old(Repr))
      ensures granted <==> Grants(old(View()), limit, window, key, now)
      ensures View() == AfterReserve(old(View()), limit, window, key, now)
    {
      ghost var m := View();
      ghost var tidy := Tidy(now - window, m);
      ghost var found := FindBucket(key, tidy);
      ReserveCharges(m, limit, window, key, now, tidy, found);
      granted := Charge(key, now - window, found);
    }

    /** Closes an attempt, with its outcome; an unknown key is ignored. */
    method Done(key: string, failed: bool, now: int)
      requires Valid()
      modifies this`buckets, Repr
      ensures Valid()
      ensures View() == AfterDone(old(View()), key, failed, now)
    {
      if key !in buckets {
        return;
      }
      var b := buckets[key];
      b.pending := b.pending - 1;
      if failed {
        b.fails := b.fails + [now];
      }
      if |b.fails| == 0 && b.pending <= 0 {
        buckets := buckets - {key};
      }
    }
  }
}
