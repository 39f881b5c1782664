/** Recording the DHCP pools a server reports (internal/leases/pools.go, ApplyPools). */
module DhcpPools {
  import opened Options
  import opened Addresses

  /** First and last address, as far as they parse. */
  datatype Range = Range(start: Option<Addr>, end: Option<Addr>)

  datatype SubnetId = SubnetId(number: int)

  datatype Subnet = Subnet(id: SubnetId, cidr: Option<Prefix>)

  /** A subnet's stored pool and who recorded it: nobody (""), a person or an integration. */
  datatype Pool = Pool(range: Range, source: string)

  /** Both ends parse, in one family and in order. */
  predicate HasBounds(r: Range) {
    r.start.Some? && r.end.Some? && r.start.value.is4 == r.end.value.is4 && r.start.value.value <= r.end.value.value
  }

  function Size(r: Range): int
    requires HasBounds(r)
  {
    r.end.value.value - r.start.value.value
  }

  predicate Fits(sn: Subnet, r: Range) {
    sn.cidr.Some? && Contains(sn.cidr.value, r.start) && Contains(sn.cidr.value, r.end)
  }

  /** Subnet n is the most specific one the range lies inside, the first of several. */
  ghost predicate IsHome(subnets: seq<Subnet>, r: Range, n: int) {
    && 0 <= n < |subnets| && Fits(subnets[n], r)
    && forall m :: 0 <= m < |subnets| && Fits(subnets[m], r) ==>
         subnets[m].cidr.value.bits <= subnets[n].cidr.value.bits
         && (m < n ==> subnets[m].cidr.value.bits < subnets[n].cidr.value.bits)
  }

  ghost predicate LivesIn(subnets: seq<Subnet>, r: Range, id: SubnetId) {
    HasBounds(r) && exists n :: IsHome(subnets, r, n) && subnets[n].id == id
  }

  method FindHome(subnets: seq<Subnet>, r: Range) returns (home: Option<SubnetId>)
    requires HasBounds(r)
    ensures forall id :: home == Some(id) <==> LivesIn(subnets, r, id)
  {
    var best: int, bits: int := -1, -1;
    for n := 0 to |subnets|
      invariant if best < 0 then bits == -1 && forall m :: 0 <= m < n ==> !Fits(subnets[m], r)
                else best < n && IsHome(subnets[..n], r, best) && bits == subnets[best].cidr.value.bits
    {
      var sn := subnets[n];
      assert subnets[..n + 1] == subnets[..n] + [sn];
      if sn.cidr.Some? && Contains(sn.cidr.value, r.start) && Contains(sn.cidr.value, r.end)
          && sn.cidr.value.bits > bits {
        best, bits := n, sn.cidr.value.bits;
      }
      if best >= 0 {
        assert IsHome(subnets[..n + 1], r, best);
      }
    }
    assert subnets[..|subnets|] == subnets;
    if best < 0 {
      return None;
    }
    assert forall n :: IsHome(subnets, r, n) ==> n == best;
    return Some(subnets[best].id);
  }

  predicate IsBetween(n: int, lo: int, hi: int) {
    lo <= n <= hi
  }

  function Between(lo: int, hi: int): set<int> {
    set n | lo <= n <= hi && IsBetween(n, lo, hi)
  }

  lemma {:induction false} BetweenCount(lo: int, hi: int)
    requires lo <= hi + 1
    ensures |Between(lo, hi)| == hi - lo + 1
    decreases hi - lo + 1
  {
    if lo <= hi {
      BetweenCount(lo, hi - 1);
      forall n ensures n in Between(lo, hi) <==> n in Between(lo, hi - 1) || n == hi {
        assert IsBetween(n, lo, hi) <==> IsBetween(n, lo, hi - 1) || n == hi;
      }
      assert Between(lo, hi) == Between(lo, hi - 1) + {hi};
    } else {
      assert Between(lo, hi) == {};
    }
  }

  /** How many addresses the range has. */
  ghost function Reach(r: Range): nat
    requires HasBounds(r)
  {
    |Between(r.start.value.value, r.end.value.value)|
  }

  lemma ReachIsSize(r: Range)
    requires HasBounds(r)
    ensures Reach(r) == Size(r) + 1
  {
    BetweenCount(r.start.value.value, r.end.value.value);
  }

  /** Range k is the largest that lives in the subnet, the first of several. */
  ghost predicate IsLargest(subnets: seq<Subnet>, ranges: seq<Range>, id: SubnetId, k: int) {
    && 0 <= k < |ranges| && LivesIn(subnets, ranges[k], id)
    && forall j :: 0 <= j < |ranges| && LivesIn(subnets, ranges[j], id) ==>
         Reach(ranges[j]) <= Reach(ranges[k]) && (j < k ==> Reach(ranges[j]) < Reach(ranges[k]))
  }

  ghost predicate IsBest(subnets: seq<Subnet>, ranges: seq<Range>, best: map<SubnetId, Range>, id: SubnetId) {
    if id in best then exists k :: IsLargest(subnets, ranges, id, k) && best[id] == ranges[k]
    else forall j :: 0 <= j < |ranges| ==> !LivesIn(subnets, ranges[j], id)
  }

  /** One more range takes its home's place if it is strictly larger. */
  function Improved(best: map<SubnetId, Range>, id: SubnetId, r: Range): map<SubnetId, Range>
    requires HasBounds(r) && (id in best ==> HasBounds(best[id]))
  {
    if id !in best || Size(r) > Size(best[id]) then best[id := r] else best
  }

  lemma ImprovedIsBest(subnets: seq<Subnet>, ranges: seq<Range>, r: Range, best: map<SubnetId, Range>, id: SubnetId)
    requires IsBest(subnets, ranges, best, id) && LivesIn(subnets, r, id)
    ensures id in best ==> HasBounds(best[id])
    ensures IsBest(subnets, ranges + [r], Improved(best, id, r), id)
  {
    var all := ranges + [r];
    assert all[|ranges|] == r && forall j :: 0 <= j < |ranges| ==> all[j] == ranges[j];
    ReachIsSize(r);
    if id in best {
      var k :| IsLargest(subnets, ranges, id, k) && best[id] == ranges[k];
      ReachIsSize(ranges[k]);
      var w := if Size(r) > Size(best[id]) then |ranges| else k;
      assert IsLargest(subnets, all, id, w) && Improved(best, id, r)[id] == all[w];
    } else {
      assert IsLargest(subnets, all, id, |ranges|);
    }
  }

  lemma OthersStayBest(subnets: seq<Subnet>, ranges: seq<Range>, r: Range, best: map<SubnetId, Range>,
                       b: map<SubnetId, Range>, id: SubnetId)
    requires IsBest(subnets, ranges, best, id) && !LivesIn(subnets, r, id)
    requires (id in b <==> id in best) && (id in b ==> b[id] == best[id])
    ensures IsBest(subnets, ranges + [r], b, id)
  {
    var all := ranges + [r];
    assert all[|ranges|] == r && forall j :: 0 <= j < |ranges| ==> all[j] == ranges[j];
    if id in best {
      var k :| IsLargest(subnets, ranges, id, k) && best[id] == ranges[k];
      assert IsLargest(subnets, all, id, k);
    }
  }

  method AddRange(subnets: seq<Subnet>, ghost ranges: seq<Range>, r: Range, best: map<SubnetId, Range>)
    returns (b: map<SubnetId, Range>)
    requires forall id :: IsBest(subnets, ranges, best, id)
    ensures forall id :: IsBest(subnets, ranges + [r], b, id)
  {
    b := best;
    if HasBounds(r) {
      var home := FindHome(subnets, r);
      if home.Some? {
        ImprovedIsBest(subnets, ranges, r, best, home.value);
        b := Improved(best, home.value, r);
      }
    }
    forall id
      ensures IsBest(subnets, ranges + [r], b, id)
    {
      if !LivesIn(subnets, r, id) {
        OthersStayBest(subnets, ranges, r, best, b, id);
      }
    }
  }

  method ChooseRanges(subnets: seq<Subnet>, ranges: seq<Range>) returns (best: map<SubnetId, Range>)
    ensures forall id :: IsBest(subnets, ranges, best, id)
  {
    best := map[];
    for n := 0 to |ranges|
      invariant forall id :: IsBest(subnets, ranges[..n], best, id)
    {
      best := AddRange(subnets, ranges[..n], ranges[n], best);
      assert ranges[..n + 1] == ranges[..n] + [ranges[n]];
    }
    assert ranges[..|ranges|] == ranges;
  }

  /** What the pool of a subnet becomes. */
  function Updated(pool: Pool, range: Range, source: string): Pool {
    if pool.source == "" || pool.source == source then Pool(range, source) else pool
  }

  /** How many of these subnets have another pool in u than in t. */
  ghost function Differing(ids: set<SubnetId>, t: map<SubnetId, Pool>, u: map<SubnetId, Pool>): set<SubnetId> {
    set id | id in ids && id in t && id in u && t[id] != u[id]
  }

  lemma OneMoreDiffers(before: map<SubnetId, Pool>, was: map<SubnetId, Pool>, now: map<SubnetId, Pool>, id: SubnetId)
    requires was.Keys == before.Keys == now.Keys && (id in was ==> was[id] == before[id])
    requires forall j :: j in was && j != id ==> now[j] == was[j]
    ensures |Differing(now.Keys, before, now)| == |Differing(was.Keys, before, was)| + if now != was then 1 else 0
  {
    var d := Differing(was.Keys, before, was);
    if now != was {
      assert id in was && now[id] != was[id];
      assert Differing(now.Keys, before, now) == d + {id};
    }
  }

  class Subnets {
    var pools: map<SubnetId, Pool>

    constructor (pools: map<SubnetId, Pool>)
      ensures this.pools == pools
    {
      this.pools := pools;
    }

    method SetDHCPPoolFrom(id: SubnetId, range: Range, source: string) returns (changed: bool)
      modifies this
      ensures pools == if id in old(pools) then old(pools)[id := Updated(old(pools)[id], range, source)] else old(pools)
      ensures changed <==> pools != old(pools)
    {
      changed := false;
      if id in pools && (pools[id].source == "" || pools[id].source == source)
         && (pools[id].range != range || pools[id].source != source)
      {
        pools := pools[id := Pool(range, source)];
        changed := true;
      }
    }

    method ApplyPools(source: string, subnets: seq<Subnet>, ranges: seq<Range>) returns (changed: nat)
      modifies this
      ensures pools.Keys == old(pools).Keys
      ensures forall id :: id in pools ==> IsApplied(subnets, ranges, source, id, old(pools)[id], pools[id])
      ensures changed == |Differing(pools.Keys, old(pools), pools)|
    {
      var best := ChooseRanges(subnets, ranges);
      ghost var before := pools;
      changed := 0;
      var rest := best.Keys;
      while rest != {}
        invariant rest <= best.Keys && pools.Keys == before.Keys
        invariant forall id :: id in pools ==>
          pools[id] == if id in best && id !in rest then Updated(before[id], best[id], source) else before[id]
        invariant changed == |Differing(pools.Keys, before, pools)|
      {
        var id :| id in rest;
        ghost var was := pools;
        var c := SetDHCPPoolFrom(id, best[id], source);
        OneMoreDiffers(before, was, pools, id);
        changed := changed + if c then 1 else 0;
        rest := rest - {id};
      }
      forall id | id in pools
        ensures IsApplied(subnets, ranges, source, id, before[id], pools[id])
      {
        BestIsApplied(subnets, ranges, best, source, id, before[id]);
      }
    }
  }

  /** The subnet takes the largest range that lives in it, unless there is none
      or a person or another integration recorded its pool. */
  ghost predicate IsApplied(subnets: seq<Subnet>, ranges: seq<Range>, source: string, id: SubnetId, was: Pool,
                            now: Pool) {
    if exists k :: IsLargest(subnets, ranges, id, k)
    then exists k :: IsLargest(subnets, ranges, id, k) && now == Updated(was, ranges[k], source)
    else now == was
  }

  lemma BestIsApplied(subnets: seq<Subnet>, ranges: seq<Range>, best: map<SubnetId, Range>, source: string,
                      id: SubnetId, was: Pool)
    requires IsBest(subnets, ranges, best, id)
    ensures IsApplied(subnets, ranges, source, id, was, if id in best then Updated(was, best[id], source) else was)
  {
  }

  lemma {:induction false} LargestExists(subnets: seq<Subnet>, ranges: seq<Range>, id: SubnetId) returns (k: int)
    requires exists j :: 0 <= j < |ranges| && LivesIn(subnets, ranges[j], id)
    ensures IsLargest(subnets, ranges, id, k)
  {
    var init, last := ranges[..|ranges| - 1], ranges[|ranges| - 1];
    assert forall j :: 0 <= j < |init| ==> init[j] == ranges[j];
    if exists j :: 0 <= j < |init| && LivesIn(subnets, init[j], id) {
      k := LargestExists(subnets, init, id);
      if LivesIn(subnets, last, id) && Reach(last) > Reach(ranges[k]) {
        k := |ranges| - 1;
      }
    } else {
      k := |ranges| - 1;
    }
  }

  /** A pool that nobody or this source recorded becomes the range with the most
      addresses among those whose most specific subnet this is, labelled with the
      source. Without such a range, or recorded by anybody else, it stays. */
  lemma PoolsBecome(subnets: seq<Subnet>, ranges: seq<Range>, source: string, id: SubnetId, was: Pool, now: Pool)
    requires IsApplied(subnets, ranges, source, id, was, now)
    ensures var free, some := was.source == "" || was.source == source,
                              exists j :: 0 <= j < |ranges| && LivesIn(subnets, ranges[j], id);
            && (!(free && some) ==> now == was)
            && (free && some ==> now.source == source)
            && (free && some ==>
                exists k :: 0 <= k < |ranges| && now.range == ranges[k] && LivesIn(subnets, ranges[k], id)
                    && forall j :: 0 <= j < |ranges| && LivesIn(subnets, ranges[j], id) ==>
                         Reach(ranges[j]) <= Reach(ranges[k]))
  {
    if exists j :: 0 <= j < |ranges| && LivesIn(subnets, ranges[j], id) {
      var k := LargestExists(subnets, ranges, id);
      var l :| IsLargest(subnets, ranges, id, l) && now == Updated(was, ranges[l], source);
    }
  }
}
