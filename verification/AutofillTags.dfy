/** Which tags autofill attaches. Records go by a tag's spelling, tags by their
    name without case, and the two can disagree (internal/autofill/resolve.go:158-168,
    internal/store/meta.go:268-298). */
module AutofillTags {
  import opened Options
  import opened AutofillModel
  import opened TextOrder
  import opened AutofillResolve
  import opened AutofillDecide
  import opened AutofillStore
  import opened AutofillRuns
  import AutofillSafety

  // ---- A name keeps its meaning while tags are created

  predicate IsKnown(table: seq<string>, name: string) {
    FindTag(table, name).Some?
  }

  lemma {:induction false} FirstFoldLasts(table: seq<string>, u: string, name: string)
    requires FirstFold(table, name).Some?
    ensures FirstFold(table + [u], name) == FirstFold(table, name)
  {
    assert (table + [u])[1..] == table[1..] + [u];
    if Lower(table[0]) != Lower(name) {
      FirstFoldLasts(table[1..], u, name);
    }
  }

  lemma MeaningLasts(table: seq<string>, u: string, name: string)
    requires IsKnown(table, name)
    ensures IsKnown(TableWith(table, u), name) && TagMeant(TableWith(table, u), name) == TagMeant(table, name)
  {
    if !IsKnown(table, u) && name !in table {
      FirstFoldLasts(table, u, name);
      assert name != u;
    }
  }

  lemma NowKnown(table: seq<string>, name: string)
    ensures IsKnown(TableWith(table, name), name) && TagMeant(TableWith(table, name), name) == TagMeant(table, name)
  {
    if !IsKnown(table, name) {
      assert (table + [name])[|table|] == name;
    }
  }

  // ---- What one transaction attaches

  /** Some tag of the list means x. */
  ghost predicate Names(ts: seq<TagAdd>, table: seq<string>, x: string) {
    exists a :: a in ts && TagMeant(table, a.name) == x
  }

  ghost predicate Gained(db: DB, t: DB, ts: seq<TagAdd>) {
    && (forall a :: a in ts ==> IsKnown(t.tagTable, a.name))
    && (forall x :: x in t.tags <==> x in db.tags || Names(ts, t.tagTable, x))
    && (forall n :: IsKnown(db.tagTable, n) ==>
        IsKnown(t.tagTable, n) && TagMeant(t.tagTable, n) == TagMeant(db.tagTable, n))
  }

  lemma GainsOneMore(db: DB, mid: DB, init: seq<TagAdd>, a: TagAdd, now: string)
    requires Gained(db, mid, init)
    ensures Gained(db, AttachOne(mid, a, now), init + [a])
  {
    var t, ts := AttachOne(mid, a, now), init + [a];
    NowKnown(mid.tagTable, a.name);
    forall n | IsKnown(mid.tagTable, n)
      ensures IsKnown(t.tagTable, n) && TagMeant(t.tagTable, n) == TagMeant(mid.tagTable, n)
    {
      MeaningLasts(mid.tagTable, a.name, n);
    }
    assert forall b :: b in ts <==> b in init || b == a;
    forall x
      ensures Names(ts, t.tagTable, x) <==> Names(init, mid.tagTable, x) || x == TagMeant(mid.tagTable, a.name)
    {
      if Names(init, mid.tagTable, x) {
        var b :| b in init && TagMeant(mid.tagTable, b.name) == x;
        assert b in ts && TagMeant(t.tagTable, b.name) == x;
      }
      if x == TagMeant(mid.tagTable, a.name) {
        assert a in ts && TagMeant(t.tagTable, a.name) == x;
      }
    }
  }

  lemma {:induction false} TagsGained(db: DB, ts: seq<TagAdd>, now: string)
    ensures Gained(db, AfterTags(db, ts, now), ts)
  {
    if ts != [] {
      var init, last := ts[..|ts| - 1], ts[|ts| - 1];
      assert ts == init + [last];
      TagsGained(db, init, now);
      GainsOneMore(db, AfterTags(db, init, now), init, last, now);
    }
  }

  /** What a name means among the tags known before does not depend on tags created since. */
  lemma MeaningOfOld(db: DB, t: DB, ts: seq<TagAdd>, name: string, x: string)
    requires Gained(db, t, ts) && x in db.tagTable
    ensures TagMeant(t.tagTable, name) == x <==> TagMeant(db.tagTable, name) == x
  {
    TagMeantIs(db.tagTable, name);
    TagMeantIs(t.tagTable, name);
    NoFold(db.tagTable, name);
  }

  /** Some candidate of the pass wants a tag that means x. */
  ghost predicate Wants(recs: map<Slot, Record>, have: set<string>, cands: seq<Candidate>, table: seq<string>,
                        x: string) {
    exists c :: c in cands && TagWanted(recs, have, c.value) && TagMeant(table, c.value) == x
  }

  lemma DecisionNames(d: Device, have: set<string>, recs: seq<Record>, fields: map<Col, Candidate>,
                      cands: seq<Candidate>, table: seq<string>, x: string)
    requires DistinctSlots(recs)
    ensures Names(Decision(d, have, recs, fields, cands).tags, table, x) <==> Wants(BySlot(recs), have, cands, table, x)
  {
    DecisionMembers(d, have, recs, fields, cands);
    var ts := Decision(d, have, recs, fields, cands).tags;
    if Wants(BySlot(recs), have, cands, table, x) {
      var c :| c in cands && TagWanted(BySlot(recs), have, c.value) && TagMeant(table, c.value) == x;
      assert TagAdd(c.value, c.source) in ts;
    }
  }

  lemma BeforeTags(db: DB, ch: Changes, now: string)
    ensures var written := AfterWrites(AfterOwn(db, ch.own, now), ch.writes, now);
            written.tags == db.tags && written.tagTable == db.tagTable
            && AfterApply(db, ch, now) == AfterTags(written, ch.tags, now)
  {
    AfterWritesFrame(AfterOwn(db, ch.own, now), ch.writes, now);
  }

  /** A pass attaches a tag the device lacks exactly when one of its candidates
      wants a spelling that means this tag, whatever other spellings have records. */
  lemma PassAttaches(db: DB, d: Device, have: set<string>, recs: seq<Record>, fields: map<Col, Candidate>,
                     cands: seq<Candidate>, now: string, x: string)
    requires DistinctSlots(recs) && x !in db.tags
    ensures var t := AfterApply(db, Decision(d, have, recs, fields, cands), now);
            && (x in t.tags <==> Wants(BySlot(recs), have, cands, t.tagTable, x))
            && (x in db.tagTable ==> (x in t.tags <==> Wants(BySlot(recs), have, cands, db.tagTable, x)))
  {
    var ch := Decision(d, have, recs, fields, cands);
    BeforeTags(db, ch, now);
    var written := AfterWrites(AfterOwn(db, ch.own, now), ch.writes, now);
    var t := AfterApply(db, ch, now);
    TagsGained(written, ch.tags, now);
    DecisionNames(d, have, recs, fields, cands, t.tagTable, x);
    if x in db.tagTable {
      forall n
        ensures TagMeant(t.tagTable, n) == x <==> TagMeant(db.tagTable, n) == x
      {
        MeaningOfOld(written, t, ch.tags, n, x);
      }
    }
  }

  // ---- Whole runs with one spelling for every tag

  ghost predicate Gains(s: Sys, t: Sys, x: string) {
    x !in s.db.tags && x in t.db.tags
  }

  /** Hints and the tag table never spell one tag in two ways. */
  ghost predicate SpellsOneWay(ss: seq<Sys>, steps: seq<Step>, words: iset<string>) {
    && FoldInjective(words)
    && (forall i :: 0 <= i < |ss| ==> TableSpelled(ss[i], words))
    && (forall i :: 0 <= i < |steps| ==> HintsSpelled(steps[i], words))
  }

  ghost predicate TableSpelled(s: Sys, words: iset<string>) {
    forall x :: x in s.db.tagTable ==> x in words
  }

  ghost predicate HintsSpelled(step: Step, words: iset<string>) {
    step.ReadRecords? ==> forall h :: h in step.resolved && h.field.Tag? ==> h.value in words
  }

  ghost predicate ChangesSpelled(s: Sys, words: iset<string>) {
    s.phase.Decided? ==> forall a :: a in s.phase.ch.tags ==> a.name in words
  }

  lemma NextKeepsSpelling(s: Sys, step: Step, t: Sys, words: iset<string>)
    requires Next(s, step, t) && ChangesSpelled(s, words) && HintsSpelled(step, words)
    ensures ChangesSpelled(t, words)
  {
    if step.ReadRecords? {
      DecisionMembers(s.phase.dev, s.phase.have, step.recs, step.fields, step.tagCands);
      forall a | a in t.phase.ch.tags
        ensures a.name in words
      {
        var c :| c in step.tagCands && c.value == a.name && c.source == a.source;
        CandidateSpelled(step.resolved, step.tagCands, words, c);
      }
    }
  }

  lemma {:induction false} DecidedSpelled(ss: seq<Sys>, steps: seq<Step>, words: iset<string>, i: nat)
    requires Run(ss, steps) && SpellsOneWay(ss, steps, words) && i < |ss|
    ensures ChangesSpelled(ss[i], words)
  {
    if i > 0 {
      DecidedSpelled(ss, steps, words, i - 1);
      assert Follows(ss, steps, i - 1) && HintsSpelled(steps[i - 1], words);
      NextKeepsSpelling(ss[i - 1], steps[i - 1], ss[i], words);
    }
  }

  /** A gained tag is one of those reported as attached. */
  lemma {:induction false} GainedIsAttached(db: DB, ts: seq<TagAdd>, now: string, x: string)
    requires x !in db.tags && x in AfterTags(db, ts, now).tags
    ensures Names(Attached(db, ts, now), AfterTags(db, ts, now).tagTable, x)
  {
    var init, last := ts[..|ts| - 1], ts[|ts| - 1];
    var mid, t := AfterTags(db, init, now), AfterTags(db, ts, now);
    assert ts == init + [last];
    TagsGained(db, init, now);
    if x in mid.tags {
      GainedIsAttached(db, init, now, x);
      var a :| a in Attached(db, init, now) && TagMeant(mid.tagTable, a.name) == x;
      AttachedAreGiven(db, init, now, a);
      MeaningLasts(mid.tagTable, last.name, a.name);
      assert a in Attached(db, ts, now);
    } else {
      NowKnown(mid.tagTable, last.name);
      assert last in Attached(db, ts, now);
    }
  }

  lemma {:induction false} AttachedAreGiven(db: DB, ts: seq<TagAdd>, now: string, a: TagAdd)
    requires a in Attached(db, ts, now)
    ensures a in ts
  {
    var init, last := ts[..|ts| - 1], ts[|ts| - 1];
    assert ts == init + [last];
    if a in Attached(db, init, now) {
      AttachedAreGiven(db, init, now, a);
    }
  }

  /** With one spelling for every tag, a gained tag is attached by its own name. */
  lemma GainedBySpelling(db: DB, ts: seq<TagAdd>, now: string, words: iset<string>, x: string) returns (j: nat)
    requires x !in db.tags && x in AfterTags(db, ts, now).tags && FoldInjective(words)
    requires forall a :: a in ts ==> a.name in words
    requires forall y :: y in AfterTags(db, ts, now).tagTable ==> y in words
    ensures j < |Attached(db, ts, now)| && Attached(db, ts, now)[j].name == x
  {
    var table, added := AfterTags(db, ts, now).tagTable, Attached(db, ts, now);
    GainedIsAttached(db, ts, now, x);
    var a :| a in added && TagMeant(table, a.name) == x;
    AttachedAreGiven(db, ts, now, a);
    ExactTag(table, a.name, words);
    j :| 0 <= j < |added| && added[j] == a;
  }

  lemma EventAt(log: seq<Event>, ws: seq<Write>, added: seq<TagAdd>, j: nat)
    requires j < |added|
    ensures var all, k := log + EventsOf(ws, added), |log| + |ws| + j; k < |all| && all[k] == TagAttached(added[j].name)
  {
  }

  lemma GainIsLogged(s: Sys, now: string, t: Sys, words: iset<string>, x: string) returns (k: nat)
    requires Next(s, Apply(now), t) && Gains(s, t, x)
    requires FoldInjective(words) && ChangesSpelled(s, words) && TableSpelled(t, words)
    ensures |s.log| <= k < |t.log| && t.log[k] == TagAttached(x)
  {
    var ch := s.phase.ch;
    var written := AfterWrites(AfterOwn(s.db, ch.own, now), ch.writes, now);
    BeforeTags(s.db, ch, now);
    var j := GainedBySpelling(written, ch.tags, now, words, x);
    var ws := LandedWrites(s.db, ch, now);
    EventAt(s.log, ws, Attached(written, ch.tags, now), j);
    k := |s.log| + |ws| + j;
  }

  lemma {:induction false} LogGrows(ss: seq<Sys>, steps: seq<Step>, i: nat, j: nat)
    requires Run(ss, steps) && i <= j < |ss|
    ensures ss[i].log <= ss[j].log
    decreases j
  {
    if i < j {
      LogGrows(ss, steps, i, j - 1);
      assert Follows(ss, steps, j - 1);
    }
  }

  /** With one spelling for every tag, autofill gives a device a tag at most
      once, whatever people remove in between. */
  lemma TagGainedAtMostOnce(ss: seq<Sys>, steps: seq<Step>, words: iset<string>, i: nat, j: nat, x: string)
    requires Run(ss, steps) && SpellsOneWay(ss, steps, words) && i < j < |steps|
    requires steps[i].Apply? && steps[j].Apply? && Gains(ss[i], ss[i + 1], x)
    ensures !Gains(ss[j], ss[j + 1], x)
  {
    if Gains(ss[j], ss[j + 1], x) {
      var k := GainAt(ss, steps, words, i, x);
      var l := GainAt(ss, steps, words, j, x);
      LogGrows(ss, steps, i + 1, j);
      LogGrows(ss, steps, i + 1, j + 1);
      AutofillSafety.TagAttachedAtMostOnce(ss, steps, j + 1);
      assert false;
    }
  }

  lemma GainAt(ss: seq<Sys>, steps: seq<Step>, words: iset<string>, i: nat, x: string) returns (k: nat)
    requires Run(ss, steps) && SpellsOneWay(ss, steps, words) && i < |steps| && steps[i].Apply?
        && Gains(ss[i], ss[i + 1], x)
    ensures |ss[i].log| <= k < |ss[i + 1].log| && ss[i + 1].log[k] == TagAttached(x)
  {
    DecidedSpelled(ss, steps, words, i);
    assert Follows(ss, steps, i) && TableSpelled(ss[i + 1], words);
    k := GainIsLogged(ss[i], steps[i].now, ss[i + 1], words, x);
  }

  // ---- A run with two spellings

  lemma Goes(ss: seq<Sys>, steps: seq<Step>, step: Step, t: Sys) returns (more: seq<Sys>, longer: seq<Step>)
    requires Run(ss, steps) && Next(ss[|steps|], step, t)
    ensures Run(more, longer) && more == ss + [t] && longer == steps + [step]
  {
    more, longer := ss + [t], steps + [step];
    forall i | 0 <= i < |longer|
      ensures Follows(more, longer, i)
    {
      if i < |steps| {
        assert Follows(ss, steps, i);
      }
    }
  }

  /** A pass with nobody in between, over hints about tags only. */
  lemma OnePass(ss: seq<Sys>, steps: seq<Step>, recs: seq<Record>, hints: seq<Hint>, cands: seq<Candidate>, now: string)
    returns (more: seq<Sys>, longer: seq<Step>)
    requires Run(ss, steps) && ss[|steps|].phase.Idle? && Lists(recs, ss[|steps|].db.recs)
    requires IsFieldMap(hints, map[]) && IsTagList(hints, cands)
    ensures Run(more, longer) && |longer| == |steps| + 4 && ss <= more && steps <= longer
    ensures longer[|steps| + 3] == Apply(now) && more[|steps| + 3].db == ss[|steps|].db && more[|steps| + 4].phase.Idle?
    ensures var db := ss[|steps|].db;
            more[|steps| + 4].db == AfterApply(db, Decision(db.dev, db.tags, recs, map[], cands), now)
  {
    var s := ss[|steps|];
    var ch := Decision(s.db.dev, s.db.tags, recs, map[], cands);
    more, longer := Goes(ss, steps, ReadDevice, s.(phase := GotDevice(s.db.dev)));
    more, longer := Goes(more, longer, ReadTags, s.(phase := GotTags(s.db.dev, s.db.tags)));
    more, longer := Goes(more, longer, ReadRecords(recs, hints, map[], cands), s.(phase := Decided(ch)));
    more, longer := Goes(more, longer, Apply(now),
                         Sys(AfterApply(s.db, ch, now), Idle,
                             s.log + EventsOf(LandedWrites(s.db, ch, now), AttachedTags(s.db, ch, now))));
  }

  function TagHint(source: string, name: string): Hint {
    Hint(source, Tag, name, 90, "", "")
  }

  lemma OneHintResolves(h: Hint)
    requires h.field.Tag? && h.value != "" && h.confidence >= THRESHOLD
    ensures IsFieldMap([h], map[]) && IsTagList([h], [CandidateOf(h)])
  {
    assert [h][..0] == [];
  }

  /** Two hints about differently spelled tags, resolved in the order of the spellings. */
  lemma TwoHintsResolve(g: Hint, h: Hint)
    requires g.field.Tag? && g.value != "" && g.confidence >= THRESHOLD
    requires h.field.Tag? && h.value != "" && h.confidence >= THRESHOLD && Less(g.value, h.value)
    ensures IsFieldMap([g, h], map[]) && IsTagList([g, h], [CandidateOf(g), CandidateOf(h)])
  {
    LessIrreflexive(g.value);
    assert [g, h][..1] == [g] && [g][..0] == [];
    forall s: Slot
      ensures Best([g, h], s) == if s == TagSlot(g.value) then Some(CandidateOf(g))
                                 else if s == TagSlot(h.value) then Some(CandidateOf(h)) else None
    {
      assert Best([g], s) == if s == TagSlot(g.value) then Some(CandidateOf(g)) else None;
    }
  }

  lemma FirstDecision(d: Device, c: Candidate)
    ensures Decision(d, {}, [], map[], [c]) == Changes([], [TagAdd(c.value, c.source)], [])
  {
    var ch := Decision(d, {}, [], map[], [c]);
    DecisionMembers(d, {}, [], map[], [c]);
    assert [c][..|[c]| - 1] == [] && TagWanted(map[], {}, c.value);
    assert TagAdds(map[], {}, [c]) == [TagAdd(c.value, c.source)];
    if ch.writes != [] {
      SeqFacts.HasMember(ch.writes);
      assert false;
    }
    if ch.own != [] {
      SeqFacts.HasMember(ch.own);
      var s :| s in ch.own;
      match s case ColumnSlot(f) => assert false; case TagSlot(n) => assert false;
    }
  }

  lemma FirstAttached(db: DB, u: string, source: string, now: string)
    requires db.recs == map[] && db.tags == {} && db.tagTable == []
    ensures AfterApply(db, Changes([], [TagAdd(u, source)], []), now)
         == db.(tagTable := [u], tags := {u}, recs := map[TagSlot(u) := Record(TagSlot(u), u, source, Applied, now)])
  {
    var ts := [TagAdd(u, source)];
    assert ts[..0] == [];
    assert AfterWrites(AfterOwn(db, [], now), [], now) == db;
    assert AfterTags(db, ts, now) == AttachOne(AfterTags(db, [], now), ts[0], now);
  }

  /** For any two spellings of one tag there is a run in which autofill gives it
      to a device, a person removes it, and autofill gives it again. */
  lemma OtherSpellingAttachesAgain(d: Device, u: string, v: string) returns (ss: seq<Sys>, steps: seq<Step>)
    requires u != v && Lower(u) == Lower(v) && u != "" && v != ""
    ensures Run(ss, steps) && |steps| == 9
    ensures steps[3] == Apply("1") && Gains(ss[3], ss[4], u)
    ensures steps[4] == TagsEdited({}, [u]) && ss[5].db.tags == {}
    ensures steps[8] == Apply("2") && Gains(ss[8], ss[9], u)
  {
    ss, steps := FirstPass(d, u);
    ss, steps := Goes(ss, steps, TagsEdited({}, [u]), ss[4].(db := ss[4].db.(tags := {}, tagTable := [u])));
    ss, steps := SecondPass(ss, steps, u, v);
  }

  lemma FirstPass(d: Device, u: string) returns (ss: seq<Sys>, steps: seq<Step>)
    requires u != ""
    ensures Run(ss, steps) && |steps| == 4 && steps[3] == Apply("1") && Gains(ss[3], ss[4], u) && ss[4].phase.Idle?
    ensures ss[4].db.recs == map[TagSlot(u) := Record(TagSlot(u), u, "mdns", Applied, "1")] && ss[4].db.tagTable == [u]
  {
    var db, h := DB(d, map[], {}, [], {}), TagHint("mdns", u);
    OneHintResolves(h);
    ss, steps := OnePass([Sys(db, Idle, [])], [], [], [h], [CandidateOf(h)], "1");
    FirstDecision(d, CandidateOf(h));
    FirstAttached(db, u, "mdns", "1");
  }

  lemma SecondPass(ss: seq<Sys>, steps: seq<Step>, u: string, v: string) returns (more: seq<Sys>, longer: seq<Step>)
    requires u != v && Lower(u) == Lower(v) && u != "" && v != ""
    requires Run(ss, steps) && |steps| == 5 && ss[5].phase.Idle? && ss[5].db.tags == {} && ss[5].db.tagTable == [u]
    requires ss[5].db.recs == map[TagSlot(u) := Record(TagSlot(u), u, "mdns", Applied, "1")]
    ensures Run(more, longer) && |longer| == 9 && ss <= more && steps <= longer
    ensures longer[8] == Apply("2") && Gains(more[8], more[9], u)
  {
    var db, r := ss[5].db, ss[5].db.recs[TagSlot(u)];
    var hints, cands := BothResolve(u, v);
    assert [r][..0] == [] && BySlot([r]) == db.recs;
    more, longer := OnePass(ss, steps, [r], hints, cands, "2");
    PassAttaches(db, db.dev, {}, [r], map[], cands, "2", u);
    OtherSpellingIsWanted(db.recs, cands, u, v);
  }

  lemma BothResolve(u: string, v: string) returns (hints: seq<Hint>, cands: seq<Candidate>)
    requires u != v && u != "" && v != ""
    ensures IsFieldMap(hints, map[]) && IsTagList(hints, cands)
    ensures exists c :: c in cands && c.value == v
  {
    var g, h := TagHint("mdns", u), TagHint("ssdp", v);
    LessTotal(u, v);
    if Less(u, v) {
      hints, cands := [g, h], [CandidateOf(g), CandidateOf(h)];
      TwoHintsResolve(g, h);
    } else {
      hints, cands := [h, g], [CandidateOf(h), CandidateOf(g)];
      TwoHintsResolve(h, g);
    }
    assert CandidateOf(h) in cands;
  }

  lemma OtherSpellingIsWanted(recs: map<Slot, Record>, cands: seq<Candidate>, u: string, v: string)
    requires TagSlot(v) !in recs && Lower(u) == Lower(v) && u != v
    requires exists c :: c in cands && c.value == v
    ensures Wants(recs, {}, cands, [u], u)
  {
    var c :| c in cands && c.value == v;
    assert TagWanted(recs, {}, c.value) && FirstFold([u], v) == Some(u);
    assert TagMeant([u], c.value) == u;
  }
}
