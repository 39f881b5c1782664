/** One pass over one device with nobody editing: recompute the local hints,
    resolve every hint, decide, apply (internal/autofill/service.go, runOne). */
module AutofillPass {
  import opened AutofillModel
  import opened AutofillResolve
  import opened AutofillDecide
  import opened AutofillStore
  import opened AutofillSources
  import opened AutofillRuns

  datatype Content = Content(field: Field, value: string, detail: string, confidence: int)

  function ContentOf(h: Hint): Content {
    Content(h.field, h.value, h.detail, h.confidence)
  }

  function Contents(hints: seq<Hint>): (r: seq<Content>)
    ensures |r| == |hints| && forall i :: 0 <= i < |r| ==> r[i] == ContentOf(hints[i])
  {
    seq(|hints|, i requires 0 <= i < |hints| => ContentOf(hints[i]))
  }

  function CountIn(counts: map<Content, int>, k: Content): int {
    if k in counts then counts[k] else 0
  }

  /** How often each content occurs in `a` beyond how often it occurs in `b`. */
  ghost predicate Tallies(counts: map<Content, int>, a: seq<Content>, b: seq<Content>) {
    forall k :: CountIn(counts, k) + multiset(b)[k] == multiset(a)[k]
  }

  lemma CountUp(counts: map<Content, int>, a: seq<Content>, i: nat)
    requires i < |a| && Tallies(counts, a[..i], [])
    ensures Tallies(counts[a[i] := CountIn(counts, a[i]) + 1], a[..i + 1], [])
  {
    assert a[..i + 1] == a[..i] + [a[i]];
  }

  lemma CountDown(counts: map<Content, int>, a: seq<Content>, b: seq<Content>, i: nat)
    requires i < |b| && Tallies(counts, a, b[..i])
    ensures Tallies(counts[b[i] := CountIn(counts, b[i]) - 1], a, b[..i + 1])
  {
    assert b[..i + 1] == b[..i] + [b[i]];
  }

  lemma ZeroTally(counts: map<Content, int>, a: seq<Content>, b: seq<Content>)
    requires Tallies(counts, a, b)
    ensures (forall k :: k in counts ==> counts[k] == 0) <==> multiset(a) == multiset(b)
  {
    if forall k :: k in counts ==> counts[k] == 0 {
      assert forall k :: multiset(a)[k] == multiset(b)[k];
    } else {
      var k :| k in counts && counts[k] != 0;
      assert multiset(a)[k] != multiset(b)[k];
    }
  }

  lemma OtherLength(a: seq<Content>, b: seq<Content>)
    requires |a| != |b|
    ensures multiset(a) != multiset(b)
  {
    assert |multiset(a)| == |a| && |multiset(b)| == |b|;
  }

  /** Whether two lists hold the same content, whatever their order, sources and times. */
  method HintsEqual(a: seq<Hint>, b: seq<Hint>) returns (equal: bool)
    ensures equal <==> multiset(Contents(a)) == multiset(Contents(b))
  {
    var ca, cb := Contents(a), Contents(b);
    if |a| != |b| {
      OtherLength(ca, cb);
      return false;
    }
    var counts: map<Content, int> := map[];
    for i := 0 to |a|
      invariant Tallies(counts, ca[..i], [])
    {
      CountUp(counts, ca, i);
      counts := counts[ca[i] := CountIn(counts, ca[i]) + 1];
    }
    assert ca[..|a|] == ca && cb[..0] == [];
    for i := 0 to |b|
      invariant Tallies(counts, ca, cb[..i])
    {
      CountDown(counts, ca, cb, i);
      counts := counts[cb[i] := CountIn(counts, cb[i]) - 1];
    }
    assert cb[..|b|] == cb;
    ZeroTally(counts, ca, cb);
    equal := forall k | k in counts :: counts[k] == 0;
  }

  // ---- The hint table of one pass

  function ContentsFrom(table: set<Hint>, source: string): set<Content> {
    set h | h in table && h.source == source :: ContentOf(h)
  }

  function ContentSet(rows: seq<Hint>): set<Content> {
    set h | h in rows :: ContentOf(h)
  }

  /** The table already says what the source says now. */
  predicate Settled(table: set<Hint>, source: string, rows: seq<Hint>) {
    ContentsFrom(table, source) == ContentSet(rows)
  }

  function Stamped(rows: seq<Hint>, source: string, now: string): (r: seq<Hint>)
    ensures |r| == |rows| && forall i :: 0 <= i < |r| ==> r[i] == rows[i].(source := source, seenAt := now)
  {
    seq(|rows|, i requires 0 <= i < |rows| => rows[i].(source := source, seenAt := now))
  }

  /** Unchanged content is not rewritten, so its seenAt stays. */
  function Refreshed(table: set<Hint>, source: string, rows: seq<Hint>, now: string): set<Hint> {
    if Settled(table, source, rows) then table else Replaced(table, source, Stamped(rows, source, now))
  }

  function HintsAfter(table: set<Hint>, env: Env, name: string, now: string): set<Hint> {
    var t1 := Refreshed(table, "oui", LocalHints(env, "oui", name), now);
    var t2 := Refreshed(t1, "hostname", LocalHints(env, "hostname", name), now);
    Refreshed(t2, "ports", LocalHints(env, "ports", name), now)
  }

  /** The hint table's primary key, for one device. */
  ghost predicate UniqueKeys(table: set<Hint>) {
    forall g, h :: g in table && h in table && g.source == h.source && SameKey(g, h) ==> g == h
  }

  ghost predicate Ranked(table: set<Hint>) {
    forall h :: h in table ==> Rank(h.source) > 0
  }

  ghost predicate WellFormed(db: DB) {
    UniqueKeys(db.hints) && Ranked(db.hints) && WellKeyed(db.recs)
  }

  lemma RefreshedOthers(table: set<Hint>, source: string, rows: seq<Hint>, now: string)
    ensures forall h: Hint :: h.source != source ==> (h in Refreshed(table, source, rows, now) <==> h in table)
  {
    var r := Stamped(rows, source, now);
    forall h | h in r ensures h.(source := source) == h {
    }
  }

  lemma RefreshedSettles(table: set<Hint>, source: string, rows: seq<Hint>, now: string)
    ensures Settled(Refreshed(table, source, rows, now), source, rows)
  {
    if !Settled(table, source, rows) {
      var stamped := Stamped(rows, source, now);
      var after := Replaced(table, source, stamped);
      forall k ensures k in ContentsFrom(after, source) <==> k in ContentSet(rows) {
        if k in ContentSet(rows) {
          var h :| h in rows && ContentOf(h) == k;
          var i :| 0 <= i < |rows| && rows[i] == h;
          assert stamped[i] in stamped && stamped[i] == stamped[i].(source := source);
          assert stamped[i] in after && ContentOf(stamped[i]) == k;
        }
        if k in ContentsFrom(after, source) {
          var h :| h in after && h.source == source && ContentOf(h) == k;
          var g :| g in stamped && h == g.(source := source);
          var i :| 0 <= i < |stamped| && stamped[i] == g;
          assert rows[i] in rows && ContentOf(rows[i]) == k;
        }
      }
    }
  }

  /** Content that changed is stamped with this pass's time, and content that did
      not keeps the rows it had. */
  lemma RefreshedStamps(table: set<Hint>, source: string, rows: seq<Hint>, now: string, h: Hint)
    requires h in Refreshed(table, source, rows, now) && h.source == source
    ensures ContentsFrom(table, source) == ContentSet(rows) ==> h in table
    ensures ContentsFrom(table, source) != ContentSet(rows) ==> h.seenAt == now
  {
    if ContentsFrom(table, source) != ContentSet(rows) {
      var stamped := Stamped(rows, source, now);
      var g :| g in stamped && h == g.(source := source);
      var i :| 0 <= i < |stamped| && stamped[i] == g;
    }
  }

  lemma RefreshedWellFormed(table: set<Hint>, source: string, rows: seq<Hint>, now: string)
    requires UniqueKeys(table) && Ranked(table) && DistinctValues(rows) && Rank(source) > 0
    ensures UniqueKeys(Refreshed(table, source, rows, now)) && Ranked(Refreshed(table, source, rows, now))
  {
    if !Settled(table, source, rows) {
      var stamped := Stamped(rows, source, now);
      var after := Replaced(table, source, stamped);
      forall h | h in stamped ensures h.source == source {
      }
      forall g, h | g in after && h in after && g.source == h.source && SameKey(g, h) ensures g == h {
        if g.source == source {
          var g0 :| g0 in stamped && g == g0.(source := source);
          var h0 :| h0 in stamped && h == h0.(source := source);
          var i :| 0 <= i < |stamped| && stamped[i] == g0;
          var j :| 0 <= j < |stamped| && stamped[j] == h0;
        }
      }
    }
  }

  /** Refreshing one source leaves what the others say. */
  lemma RefreshedKeeps(table: set<Hint>, source: string, rows: seq<Hint>, now: string, other: string)
    requires other != source
    ensures ContentsFrom(Refreshed(table, source, rows, now), other) == ContentsFrom(table, other)
  {
    RefreshedOthers(table, source, rows, now);
  }

  lemma HintsAfterKeys(table: set<Hint>, env: Env, name: string, now: string)
    requires UniqueKeys(table) && Ranked(table)
    ensures var t := HintsAfter(table, env, name, now);
            && UniqueKeys(t) && Ranked(t)
            && (forall h: Hint :: h.source !in LOCAL_SOURCES ==> (h in t <==> h in table))
  {
    var oui, host, ports := LocalHints(env, "oui", name), LocalHints(env, "hostname", name),
        LocalHints(env, "ports", name);
    var t1 := Refreshed(table, "oui", oui, now);
    var t2 := Refreshed(t1, "hostname", host, now);
    LocalHintsDistinct(env, "oui", name);
    LocalHintsDistinct(env, "hostname", name);
    LocalHintsDistinct(env, "ports", name);
    RefreshedWellFormed(table, "oui", oui, now);
    RefreshedWellFormed(t1, "hostname", host, now);
    RefreshedWellFormed(t2, "ports", ports, now);
    RefreshedOthers(table, "oui", oui, now);
    RefreshedOthers(t1, "hostname", host, now);
    RefreshedOthers(t2, "ports", ports, now);
    InLocalSources();
  }

  /** After its three sources were recomputed, the table is settled for that name. */
  lemma HintsAfterHolds(table: set<Hint>, env: Env, name: string, now: string)
    requires UniqueKeys(table) && Ranked(table)
    ensures var t := HintsAfter(table, env, name, now);
            && UniqueKeys(t) && Ranked(t)
            && (forall h: Hint :: h.source !in LOCAL_SOURCES ==> (h in t <==> h in table))
            && (forall s :: s in LOCAL_SOURCES ==> Settled(t, s, LocalHints(env, s, name)))
  {
    var oui, host, ports := LocalHints(env, "oui", name), LocalHints(env, "hostname", name),
        LocalHints(env, "ports", name);
    var t1 := Refreshed(table, "oui", oui, now);
    var t2 := Refreshed(t1, "hostname", host, now);
    HintsAfterKeys(table, env, name, now);
    RefreshedSettles(table, "oui", oui, now);
    RefreshedSettles(t1, "hostname", host, now);
    RefreshedSettles(t2, "ports", ports, now);
    RefreshedKeeps(t1, "hostname", host, now, "oui");
    RefreshedKeeps(t2, "ports", ports, now, "oui");
    RefreshedKeeps(t2, "ports", ports, now, "hostname");
    InLocalSources();
  }

  /** A settled table is not touched. */
  lemma HintsAfterSettled(table: set<Hint>, env: Env, name: string, now: string)
    requires forall s :: s in LOCAL_SOURCES ==> Settled(table, s, LocalHints(env, s, name))
    ensures HintsAfter(table, env, name, now) == table
  {
    InLocalSources();
  }

  // ---- A pass as a relation: the store may list rows in any order

  datatype Listing = Listing(hints: seq<Hint>, recs: seq<Record>, fields: map<Col, Candidate>, tagCands: seq<Candidate>)

  ghost predicate ListsHints(hints: seq<Hint>, table: set<Hint>) {
    DistinctKeys(hints) && forall h :: h in hints <==> h in table
  }

  ghost predicate PassVia(db: DB, env: Env, now: string, l: Listing, t: DB) {
    var hs := HintsAfter(db.hints, env, db.dev.Get(Name), now);
    && ListsHints(l.hints, hs) && Lists(l.recs, db.recs)
    && IsFieldMap(l.hints, l.fields) && IsTagList(l.hints, l.tagCands)
    && t == AfterApply(db.(hints := hs), Decision(db.dev, db.tags, l.recs, l.fields, l.tagCands), now)
  }

  ghost predicate Pass(db: DB, env: Env, now: string, t: DB) {
    exists l :: PassVia(db, env, now, l, t)
  }

  lemma EmptyChangesNothing(db: DB, ch: Changes, now: string)
    requires ch.writes == [] && ch.tags == [] && ch.own == []
    ensures AfterApply(db, ch, now) == db
  {
  }

  /** The pass, as the service runs it. */
  class Service {
    const tables: Tables

    constructor (tables: Tables)
      ensures this.tables == tables
    {
      this.tables := tables;
    }

    method ListHints() returns (listed: seq<Hint>)
      requires UniqueKeys(tables.hints)
      ensures ListsHints(listed, tables.hints)
    {
      listed := [];
      var rest := tables.hints;
      while rest != {}
        invariant rest <= tables.hints
        invariant DistinctKeys(listed)
        invariant forall h :: h in listed <==> h in tables.hints && h !in rest
      {
        var h :| h in rest;
        forall i | 0 <= i < |listed|
          ensures !(listed[i].source == h.source && listed[i].field == h.field && listed[i].value == h.value)
        {
          assert listed[i] in listed;
        }
        listed, rest := listed + [h], rest - {h};
      }
    }

    method ListRecords() returns (listed: seq<Record>)
      requires WellKeyed(tables.recs)
      ensures Lists(listed, tables.recs)
    {
      listed := [];
      var rest := tables.recs.Keys;
      while rest != {}
        invariant rest <= tables.recs.Keys
        invariant DistinctSlots(listed)
        invariant forall r :: r in listed ==> r.slot in tables.recs && r.slot !in rest
        invariant BySlot(listed) == map s | s in tables.recs && s !in rest :: tables.recs[s]
      {
        var s :| s in rest;
        forall i | 0 <= i < |listed| ensures listed[i].slot != s {
          assert listed[i] in listed;
        }
        var r := tables.recs[s];
        assert (listed + [r])[..|listed|] == listed;
        listed, rest := listed + [r], rest - {s};
      }
      assert BySlot(listed) == tables.recs;
    }

    method ListTags() returns (listed: seq<string>)
      ensures SetOf(listed) == tables.tags
    {
      listed := [];
      var rest := tables.tags;
      while rest != {}
        invariant rest <= tables.tags
        invariant SetOf(listed) == tables.tags - rest
      {
        var t :| t in rest;
        assert SetOf(listed + [t]) == SetOf(listed) + {t};
        listed, rest := listed + [t], rest - {t};
      }
    }

    /** Brings one source's rows up to date and returns the hints to resolve from. */
    method Refresh(stored: seq<Hint>, source: string, rows: seq<Hint>, now: string) returns (used: seq<Hint>)
      requires DistinctValues(rows) && DistinctKeys(stored)
      requires forall h :: h in stored <==> h in tables.hints && h.source == source
      modifies tables`hints
      ensures tables.hints == Refreshed(old(tables.hints), source, rows, now)
      ensures DistinctKeys(used)
      ensures forall h :: h in used <==> h in tables.hints && h.source == source
    {
      var equal := HintsEqual(stored, rows);
      SameContents(stored, rows);
      assert ContentSet(stored) == ContentsFrom(tables.hints, source);
      if equal {
        return stored;
      }
      used := Stamped(rows, source, now);
      var ok := tables.ReplaceHints(source, used);
      assert DistinctValues(used);
      assert forall h :: h in used ==> h.(source := source) == h;
    }

    /** Recomputes the local sources and lists every hint to resolve. */
    method RefreshAll(env: Env, name: string, now: string) returns (hints: seq<Hint>)
      requires UniqueKeys(tables.hints)
      modifies tables`hints
      ensures tables.hints == HintsAfter(old(tables.hints), env, name, now)
      ensures ListsHints(hints, tables.hints)
    {
      var names := NamesOf(name, env.hostNames);
      var existing := ListHints();
      var hostHints := HostnameHints(names, env.rules);
      var ouiHints := Dedupe(env.oui);
      var portHints := Dedupe(env.ports);
      LocalHintsDistinct(env, "oui", name);
      LocalHintsDistinct(env, "hostname", name);
      LocalHintsDistinct(env, "ports", name);
      RefreshedOthers(tables.hints, "oui", ouiHints, now);
      var h1 := Refresh(BySource(existing, "oui"), "oui", ouiHints, now);
      RefreshedOthers(tables.hints, "hostname", hostHints, now);
      var h2 := Refresh(BySource(existing, "hostname"), "hostname", hostHints, now);
      RefreshedOthers(tables.hints, "ports", portHints, now);
      var h3 := Refresh(BySource(existing, "ports"), "ports", portHints, now);
      var others := OtherSources(existing);
      JoinedKeys(h1, h2);
      JoinedKeys(h1 + h2, h3);
      JoinedKeys(h1 + h2 + h3, others);
      hints := h1 + h2 + h3 + others;
      InLocalSources();
    }

    /** One pass over the device. */
    method RunOne(env: Env, now: string)
      requires WellFormed(tables.View())
      modifies tables
      ensures Pass(old(tables.View()), env, now, tables.View())
    {
      var d := tables.dev;
      var hints := RefreshAll(env, d.Get(Name), now);
      var tags := ListTags();
      var recs := ListRecords();
      var fields, tagCands := Resolve(hints);
      var ch := Decide(d, tags, recs, fields, tagCands);
      ghost var l := Listing(hints, recs, fields, tagCands);
      if ch.writes == [] && ch.tags == [] && ch.own == [] {
        EmptyChangesNothing(tables.View(), ch, now);
        assert PassVia(old(tables.View()), env, now, l, tables.View());
        return;
      }
      var _, _ := tables.ApplyAutofill(ch, now);
      assert PassVia(old(tables.View()), env, now, l, tables.View());
    }
  }

  lemma InLocalSources()
    ensures forall s: string :: s in LOCAL_SOURCES <==> s == "oui" || s == "hostname" || s == "ports"
  {
    assert LOCAL_SOURCES[0] in LOCAL_SOURCES && LOCAL_SOURCES[1] in LOCAL_SOURCES && LOCAL_SOURCES[2] in LOCAL_SOURCES;
  }

  function BySource(hints: seq<Hint>, source: string): (r: seq<Hint>)
    ensures forall h :: h in r <==> h in hints && h.source == source
    ensures DistinctKeys(hints) ==> DistinctKeys(r)
  {
    if hints == [] then []
    else
      var r := BySource(hints[1..], source);
      assert hints == [hints[0]] + hints[1..];
      if hints[0].source == source then
        assert forall j :: 0 <= j < |r| ==> r[j] in hints[1..];
        [hints[0]] + r
      else r
  }

  function OtherSources(hints: seq<Hint>): (r: seq<Hint>)
    ensures forall h :: h in r <==> h in hints && h.source !in LOCAL_SOURCES
    ensures DistinctKeys(hints) ==> DistinctKeys(r)
  {
    if hints == [] then []
    else
      var r := OtherSources(hints[1..]);
      assert hints == [hints[0]] + hints[1..];
      if hints[0].source !in LOCAL_SOURCES then
        assert forall j :: 0 <= j < |r| ==> r[j] in hints[1..];
        [hints[0]] + r
      else r
  }

  lemma JoinedKeys(a: seq<Hint>, b: seq<Hint>)
    requires DistinctKeys(a) && DistinctKeys(b)
    requires forall g, h :: g in a && h in b ==> g.source != h.source
    ensures DistinctKeys(a + b)
  {
    forall i, j | 0 <= i < j < |a + b|
      ensures !((a + b)[i].source == (a + b)[j].source && (a + b)[i].field == (a + b)[j].field
          && (a + b)[i].value == (a + b)[j].value)
    {
      if i < |a| && j >= |a| {
        assert a[i] in a && b[j - |a|] in b;
      }
    }
  }

  lemma {:induction false} DistinctCounts(s: seq<Content>)
    requires forall i, j :: 0 <= i < j < |s| ==> s[i] != s[j]
    ensures forall k :: multiset(s)[k] == if k in s then 1 else 0
  {
    if s != [] {
      DistinctCounts(s[1..]);
      assert s == [s[0]] + s[1..];
    }
  }

  /** For rows with distinct keys, comparing contents with counts or as sets is the same. */
  lemma SameContents(a: seq<Hint>, b: seq<Hint>)
    requires DistinctKeys(a) && DistinctValues(b) && forall g, h :: g in a && h in a ==> g.source == h.source
    ensures multiset(Contents(a)) == multiset(Contents(b)) <==> ContentSet(a) == ContentSet(b)
  {
    var ca, cb := Contents(a), Contents(b);
    forall i, j | 0 <= i < j < |a| ensures ca[i] != ca[j] {
      assert a[i] in a && a[j] in a;
    }
    DistinctCounts(ca);
    DistinctCounts(cb);
    InContents(a);
    InContents(b);
    if multiset(ca) == multiset(cb) {
      forall k ensures k in ContentSet(a) <==> k in ContentSet(b) {
        assert multiset(ca)[k] == multiset(cb)[k];
      }
    }
    if ContentSet(a) == ContentSet(b) {
      assert forall k :: multiset(ca)[k] == multiset(cb)[k];
    }
  }

  lemma InContents(a: seq<Hint>)
    ensures forall k :: k in Contents(a) <==> k in ContentSet(a)
  {
    var ca := Contents(a);
    forall k ensures k in ca <==> k in ContentSet(a) {
      if k in ca {
        var i :| 0 <= i < |ca| && ca[i] == k;
        assert a[i] in a;
      }
      if k in ContentSet(a) {
        var h :| h in a && ContentOf(h) == k;
        var i :| 0 <= i < |a| && a[i] == h;
        assert ca[i] == k;
      }
    }
  }
}
