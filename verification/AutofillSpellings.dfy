/** Convergence whatever the spellings: tags may be spelled in several ways by
    the hints and the tag table, and it takes one more pass to settle
    (internal/autofill/service.go:139-242, internal/autofill/resolve.go:154-169,
    internal/store/meta.go:268-298). */
module AutofillSpellings {
  import opened AutofillModel
  import opened AutofillResolve
  import opened AutofillDecide
  import opened AutofillStore
  import opened AutofillSources
  import opened AutofillRuns
  import opened AutofillPass
  import opened AutofillConverge
  import AutofillTags
  import SeqFacts

  /** Lets lemmas that ask for the words in use take any. */
  ghost const EVERY_WORD := iset w: string | true

  // ---- Tags that are wanted for ever

  /** Each name means a tag the device has: attaching them changes nothing. */
  ghost predicate Absorbed(t: DB, ts: seq<TagAdd>) {
    forall a :: a in ts ==> AutofillTags.IsKnown(t.tagTable, a.name) && TagMeant(t.tagTable, a.name) in t.tags
  }

  lemma {:induction false} AbsorbedChangesNothing(t: DB, ts: seq<TagAdd>, now: string)
    requires Absorbed(t, ts)
    ensures AfterTags(t, ts, now) == t
  {
    if ts != [] {
      var init, last := ts[..|ts| - 1], ts[|ts| - 1];
      assert ts == init + [last];
      AbsorbedChangesNothing(t, init, now);
    }
  }

  lemma AttachedIsAbsorbed(db: DB, ts: seq<TagAdd>, now: string)
    ensures Absorbed(AfterTags(db, ts, now), ts)
  {
    var t := AfterTags(db, ts, now);
    AutofillTags.TagsGained(db, ts, now);
    forall a | a in ts ensures TagMeant(t.tagTable, a.name) in t.tags {
      assert AutofillTags.Names(ts, t.tagTable, TagMeant(t.tagTable, a.name));
    }
  }

  lemma PassAbsorbs(db: DB, env: Env, now: string, l: Listing, t: DB)
    requires PassVia(db, env, now, l, t)
    ensures Absorbed(t, ChangesOf(db, l).tags) && db.tags <= t.tags
  {
    var mid, ch := Refilled(db, env, now), ChangesOf(db, l);
    var written := AfterWrites(AfterOwn(mid, ch.own, now), ch.writes, now);
    AutofillTags.BeforeTags(mid, ch, now);
    AttachedIsAbsorbed(written, ch.tags, now);
    AfterTagsFrame(written, ch.tags, now);
  }

  /** Fewer tags are wanted when there are more records and tags. */
  lemma WantedBefore(db: DB, l: Listing, t: DB, m: Listing)
    requires Lists(l.recs, db.recs) && Lists(m.recs, t.recs) && l.tagCands == m.tagCands
    requires db.recs.Keys <= t.recs.Keys && db.tags <= t.tags
    ensures forall a :: a in ChangesOf(t, m).tags ==> a in ChangesOf(db, l).tags
  {
    DecisionMembers(db.dev, db.tags, l.recs, l.fields, l.tagCands);
    DecisionMembers(t.dev, t.tags, m.recs, m.fields, m.tagCands);
  }

  // ---- A pass that only hands tags over

  /** What is left to do: no write, no column to hand over, no tag that is not there. */
  ghost predicate OnlyHandsOver(t: DB, ch: Changes) {
    ch.writes == [] && Absorbed(t, ch.tags) && forall c: Col :: ColumnSlot(c) !in ch.own
  }

  lemma HandingOver(t: DB, ch: Changes, now: string)
    requires OnlyHandsOver(t, ch)
    ensures AfterApply(t, ch, now) == t.(recs := MarkOwned(t.recs, ch.own, now))
  {
    var owned := AfterOwn(t, ch.own, now);
    assert Absorbed(owned, ch.tags);
    AbsorbedChangesNothing(owned, ch.tags, now);
  }

  lemma LeavesColumns(t: DB, m: Listing)
    requires Lists(m.recs, t.recs) && forall c: Col :: ColumnVerdict(t.dev, t.recs, m.fields, c).Leave?
    ensures ChangesOf(t, m).writes == [] && forall c: Col :: ColumnSlot(c) !in ChangesOf(t, m).own
  {
    DecisionMembers(t.dev, t.tags, m.recs, m.fields, m.tagCands);
    if ChangesOf(t, m).writes != [] {
      SeqFacts.HasMember(ChangesOf(t, m).writes);
      assert false;
    }
  }

  /** The pass after one that left the name alone has the same winners. */
  lemma SameInputs(db: DB, env: Env, now: string, l: Listing, t: DB, now2: string, m: Listing, u: DB)
    requires WellFormed(db) && PassVia(db, env, now, l, t) && PassVia(t, env, now2, m, u)
    requires t.dev.Get(Name) == db.dev.Get(Name)
    ensures WellFormed(t) && Refilled(t, env, now2) == t
    ensures l.tagCands == m.tagCands && forall c :: SameWinner(l, m, c)
  {
    PassHints(db, env, now, l, t);
    HintsAfterSettled(t.hints, env, t.dev.Get(Name), now2);
    TieFreeListing(l, t.hints);
    SameHintsSameWinners(l, m);
  }

  lemma HandoverPass(db: DB, env: Env, now: string, l: Listing, t: DB, now2: string, m: Listing, u: DB)
    requires WellFormed(db) && PassVia(db, env, now, l, t) && PassVia(t, env, now2, m, u)
    requires t.dev.Get(Name) == db.dev.Get(Name)
    ensures OnlyHandsOver(t, ChangesOf(t, m)) && u == t.(recs := MarkOwned(t.recs, ChangesOf(t, m).own, now2))
  {
    SameInputs(db, env, now, l, t, now2, m, u);
    forall c: Col ensures ColumnVerdict(t.dev, t.recs, m.fields, c).Leave? {
      PassSteps(db, env, now, l, t, c);
      assert SameWinner(l, m, c);
      ColumnSettles(db, t, l.fields, m.fields, c);
    }
    LeavesColumns(t, m);
    PassKeepsRecords(db, env, now, l, t);
    PassAbsorbs(db, env, now, l, t);
    WantedBefore(db, l, t, m);
    HandingOver(t, ChangesOf(t, m), now2);
  }

  /** After a pass that only handed over, nothing is left to hand over. */
  lemma HandedOver(t: DB, m: Listing, now: string, u: DB, n: Listing)
    requires WellKeyed(t.recs) && Lists(m.recs, t.recs) && OnlyHandsOver(t, ChangesOf(t, m))
    requires u == t.(recs := MarkOwned(t.recs, ChangesOf(t, m).own, now)) && Lists(n.recs, u.recs)
    ensures forall k :: TagSlot(k) !in ChangesOf(u, n).own
    ensures forall c :: SameAt(t.recs, u.recs, ColumnSlot(c))
    ensures t.recs.Keys == u.recs.Keys
  {
    MarkedOwned(t.recs, ChangesOf(t, m).own, now);
    DecisionMembers(t.dev, t.tags, m.recs, m.fields, m.tagCands);
    DecisionMembers(u.dev, u.tags, n.recs, n.fields, n.tagCands);
  }

  /** So the pass after it is the identity. */
  lemma LastPass(t: DB, env: Env, now: string, m: Listing, u: DB, now2: string, n: Listing, v: DB)
    requires WellFormed(t) && PassVia(t, env, now, m, u) && PassVia(u, env, now2, n, v)
    requires OnlyHandsOver(t, ChangesOf(t, m)) && u == t.(recs := MarkOwned(t.recs, ChangesOf(t, m).own, now))
    ensures v == u
  {
    HandoverPass(t, env, now, m, u, now2, n, v);
    SameInputs(t, env, now, m, u, now2, n, v);
    HandedOver(t, m, now, u, n);
    var ch := ChangesOf(u, n);
    if ch.own != [] {
      SeqFacts.HasMember(ch.own);
      var s :| s in ch.own;
      match s case ColumnSlot(c) => assert false; case TagSlot(k) => assert false;
    }
    assert MarkOwned(u.recs, [], now2) == u.recs;
  }

  // ---- The fourth pass

  lemma FourthPassSettles(a: DB, b: DB, c: DB, d: DB, e: DB, env: Env,
                          now1: string, now2: string, now3: string, now4: string)
    requires WellFormed(a) && NamesNothing(env)
    requires Pass(a, env, now1, b) && Pass(b, env, now2, c) && Pass(c, env, now3, d) && Pass(d, env, now4, e)
    ensures e == d
  {
    var k :| PassVia(a, env, now1, k, b);
    var l :| PassVia(b, env, now2, l, c);
    var m :| PassVia(c, env, now3, m, d);
    var n :| PassVia(d, env, now4, n, e);
    PassHints(a, env, now1, k, b);
    PassHints(b, env, now2, l, c);
    NameSettles(a, env, now1, k, b, now2, l, c, EVERY_WORD);
    HandoverPass(b, env, now2, l, c, now3, m, d);
    LastPass(c, env, now3, m, d, now4, n, e);
  }

  lemma {:induction false} PassesStayWellFormed(dbs: seq<DB>, env: Env, nows: seq<string>, i: nat)
    requires Passes(dbs, env, nows) && i < |dbs| && WellFormed(dbs[0])
    ensures WellFormed(dbs[i])
  {
    if i > 0 {
      PassesStayWellFormed(dbs, env, nows, i - 1);
      PassAt(dbs, env, nows, i - 1);
      var l :| PassVia(dbs[i - 1], env, nows[i - 1], l, dbs[i]);
      PassHints(dbs[i - 1], env, nows[i - 1], l, dbs[i]);
    }
  }

  /** However hints and people spell the tags, the state after three passes over
      unchanged inputs is a fixed point. */
  lemma PassesAlwaysConverge(dbs: seq<DB>, env: Env, nows: seq<string>, i: nat)
    requires Passes(dbs, env, nows) && 3 <= i < |nows| && WellFormed(dbs[0]) && NamesNothing(env)
    ensures dbs[i + 1] == dbs[i]
  {
    var j := i - 3;
    PassesStayWellFormed(dbs, env, nows, j);
    FourPasses(dbs, env, nows, j);
    FourthPassSettles(dbs[j], dbs[j + 1], dbs[j + 2], dbs[j + 3], dbs[j + 4],
                      env, nows[j], nows[j + 1], nows[j + 2], nows[j + 3]);
  }

  lemma FourPasses(dbs: seq<DB>, env: Env, nows: seq<string>, j: nat)
    requires Passes(dbs, env, nows) && j + 3 < |nows|
    ensures Pass(dbs[j], env, nows[j], dbs[j + 1]) && Pass(dbs[j + 1], env, nows[j + 1], dbs[j + 2])
    ensures Pass(dbs[j + 2], env, nows[j + 2], dbs[j + 3]) && Pass(dbs[j + 3], env, nows[j + 3], dbs[j + 4])
  {
    PassAt(dbs, env, nows, j);
    PassAt(dbs, env, nows, j + 1);
    PassAt(dbs, env, nows, j + 2);
    PassAt(dbs, env, nows, j + 3);
  }
}
