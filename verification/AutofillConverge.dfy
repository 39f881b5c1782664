/** Passes converge although the hostname rules read the name an earlier pass
    may have written (internal/autofill/service.go:139-242,
    internal/autofill/sources.go:94-112, internal/autofill/resolve.go:127-170). */
module AutofillConverge {
  import opened AutofillModel
  import opened AutofillResolve
  import opened AutofillDecide
  import opened AutofillStore
  import opened AutofillSources
  import opened AutofillRuns
  import opened AutofillPass

  /** Candidates for one slot are the same in both listings. */
  ghost predicate SameWinner(l: Listing, m: Listing, c: Col) {
    (c in l.fields <==> c in m.fields) && (c in l.fields ==> l.fields[c] == m.fields[c])
  }

  function Refilled(db: DB, env: Env, now: string): DB {
    db.(hints := HintsAfter(db.hints, env, db.dev.Get(Name), now))
  }

  function ChangesOf(db: DB, l: Listing): Changes {
    Decision(db.dev, db.tags, l.recs, l.fields, l.tagCands)
  }

  lemma WriteTakesEffect(db: DB, env: Env, now: string, l: Listing, t: DB, c: Col)
    requires WellKeyed(db.recs) && PassVia(db, env, now, l, t)
    requires ColumnVerdict(db.dev, db.recs, l.fields, c).Put?
    ensures WriteLegal(db, t, ColumnVerdict(db.dev, db.recs, l.fields, c).write)
  {
    var w := ColumnVerdict(db.dev, db.recs, l.fields, c).write;
    DecidedWriteLands(db, env, now, l, c, w);
    LandedIsLegal(Refilled(db, env, now), ChangesOf(db, l), now, w);
  }

  lemma DecidedWriteLands(db: DB, env: Env, now: string, l: Listing, c: Col, w: Write)
    requires WellKeyed(db.recs) && Lists(l.recs, db.recs) && IsFieldMap(l.hints, l.fields)
        && IsTagList(l.hints, l.tagCands)
    requires ColumnVerdict(db.dev, db.recs, l.fields, c) == Put(w)
    ensures var mid, ch := Refilled(db, env, now), ChangesOf(db, l);
            ChangesFit(ch, mid.recs) && w in LandedWrites(mid, ch, now)
  {
    var mid, ch := Refilled(db, env, now), ChangesOf(db, l);
    DecidedIsInChanges(db, l, c, w);
    assert Lands(AfterOwn(mid, ch.own, now), w);
    InLanded(AfterOwn(mid, ch.own, now), ch.writes, now);
  }

  lemma DecidedIsInChanges(db: DB, l: Listing, c: Col, w: Write)
    requires WellKeyed(db.recs) && Lists(l.recs, db.recs) && IsFieldMap(l.hints, l.fields)
        && IsTagList(l.hints, l.tagCands)
    requires ColumnVerdict(db.dev, db.recs, l.fields, c) == Put(w)
    ensures ChangesFit(ChangesOf(db, l), db.recs) && DistinctCols(ChangesOf(db, l).writes)
    ensures w in ChangesOf(db, l).writes && w.expected == db.dev.Get(w.col) && (w.unreviewed ==> !db.dev.reviewed)
  {
    DecisionFits(db.dev, db.tags, l.recs, l.hints, l.fields, l.tagCands);
    DecisionMembers(db.dev, db.tags, l.recs, l.fields, l.tagCands);
  }

  lemma OthersAreKept(db: DB, env: Env, now: string, l: Listing, t: DB, c: Col)
    requires WellKeyed(db.recs) && PassVia(db, env, now, l, t)
    requires !ColumnVerdict(db.dev, db.recs, l.fields, c).Put?
    ensures t.dev.Get(c) == db.dev.Get(c)
    ensures var s := ColumnSlot(c);
            if ColumnVerdict(db.dev, db.recs, l.fields, c).Own? then s in t.recs && t.recs[s].state.Owned?
            else SameAt(db.recs, t.recs, s)
  {
    var mid, ch := Refilled(db, env, now), ChangesOf(db, l);
    DecisionFits(db.dev, db.tags, l.recs, l.hints, l.fields, l.tagCands);
    DecisionMembers(db.dev, db.tags, l.recs, l.fields, l.tagCands);
    InLanded(AfterOwn(mid, ch.own, now), ch.writes, now);
    UnlandedIsUntouched(mid, ch, now, c);
  }

  lemma PassKeepsReviewed(db: DB, env: Env, now: string, l: Listing, t: DB)
    requires WellKeyed(db.recs) && PassVia(db, env, now, l, t)
    ensures t.dev.reviewed == db.dev.reviewed && WellKeyed(t.recs)
  {
    DecisionFits(db.dev, db.tags, l.recs, l.hints, l.fields, l.tagCands);
    RecordsKept(Refilled(db, env, now), ChangesOf(db, l), now);
  }

  /** What a pass with these winners does to one column. */
  ghost predicate ColumnStep(db: DB, t: DB, fields: map<Col, Candidate>, c: Col) {
    var s := ColumnSlot(c);
    && t.dev.reviewed == db.dev.reviewed
    && match ColumnVerdict(db.dev, db.recs, fields, c)
       case Put(w) => WriteLegal(db, t, w)
       case Own => t.dev.Get(c) == db.dev.Get(c) && s in t.recs && t.recs[s].state.Owned?
       case Leave => t.dev.Get(c) == db.dev.Get(c) && SameAt(db.recs, t.recs, s)
  }

  lemma PassSteps(db: DB, env: Env, now: string, l: Listing, t: DB, c: Col)
    requires WellKeyed(db.recs) && PassVia(db, env, now, l, t)
    ensures ColumnStep(db, t, l.fields, c)
  {
    PassKeepsReviewed(db, env, now, l, t);
    if ColumnVerdict(db.dev, db.recs, l.fields, c).Put? {
      WriteTakesEffect(db, env, now, l, t, c);
    } else {
      OthersAreKept(db, env, now, l, t, c);
    }
  }

  lemma ChangedIsOwn(db: DB, fields: map<Col, Candidate>, c: Col)
    requires ColumnSlot(c) in db.recs && db.recs[ColumnSlot(c)].state.Applied?
        && db.recs[ColumnSlot(c)].value != db.dev.Get(c)
    ensures ColumnVerdict(db.dev, db.recs, fields, c) == Own
  {
  }

  /** A pass that finds another value than the one on record leaves it and
      hands the column over to whoever set it. */
  lemma PassHandsOver(db: DB, env: Env, now: string, l: Listing, t: DB, c: Col)
    requires WellKeyed(db.recs) && PassVia(db, env, now, l, t)
    requires ColumnSlot(c) in db.recs && db.recs[ColumnSlot(c)].state.Applied?
        && db.recs[ColumnSlot(c)].value != db.dev.Get(c)
    ensures t.dev.Get(c) == db.dev.Get(c) && ColumnSlot(c) in t.recs && t.recs[ColumnSlot(c)].state.Owned?
  {
    ChangedIsOwn(db, l.fields, c);
    OthersAreKept(db, env, now, l, t, c);
  }

  /** After a pass, a column whose winner has not changed is left alone. */
  lemma ColumnSettles(db: DB, t: DB, fields: map<Col, Candidate>, next: map<Col, Candidate>, c: Col)
    requires ColumnStep(db, t, fields, c)
    requires (c in fields <==> c in next) && (c in fields ==> fields[c] == next[c])
    ensures ColumnVerdict(t.dev, t.recs, next, c).Leave?
  {
  }

  // ---- Tags

  ghost predicate Spells(db: DB, words: iset<string>) {
    && (forall x :: x in db.tagTable ==> x in words)
    && (forall h :: h in db.hints && h.field.Tag? ==> h.value in words)
  }

  /** With exact spellings, every tag the changes name ends up on the device,
      and only those get new records. */
  lemma {:induction false} TagsAttached(db: DB, ts: seq<TagAdd>, now: string, words: iset<string>)
    requires FoldInjective(words) && (forall x :: x in db.tagTable ==> x in words)
        && (forall a :: a in ts ==> a.name in words)
    ensures var t := AfterTags(db, ts, now);
            && (forall x :: x in t.tagTable ==> x in words)
            && (forall a :: a in ts ==> a.name in t.tags)
            && db.tags <= t.tags
            && (forall n: string :: SameAt(db.recs, t.recs, TagSlot(n)) || n in t.tags)
  {
    if ts != [] {
      var init, last := ts[..|ts| - 1], ts[|ts| - 1];
      assert ts == init + [last];
      TagsAttached(db, init, now, words);
      ExactTag(AfterTags(db, init, now).tagTable, last.name, words);
    }
  }

  /** What a pass with exact spellings does to the tags. */
  ghost predicate TagStep(db: DB, t: DB, ch: Changes, now: string, words: iset<string>) {
    && (forall x :: x in t.tagTable ==> x in words)
    && (forall a :: a in ch.tags ==> a.name in t.tags) && db.tags <= t.tags
    && (forall n: string :: SameAt(MarkOwned(db.recs, ch.own, now), t.recs, TagSlot(n)) || n in t.tags)
  }

  lemma PassTagStep(db: DB, env: Env, now: string, l: Listing, t: DB, words: iset<string>)
    requires WellKeyed(db.recs) && PassVia(db, env, now, l, t)
    requires FoldInjective(words) && (forall x :: x in db.tagTable ==> x in words)
    requires forall h :: h in l.hints && h.field.Tag? ==> h.value in words
    ensures TagStep(db, t, ChangesOf(db, l), now, words)
  {
    var mid, ch := Refilled(db, env, now), ChangesOf(db, l);
    DecisionMembers(db.dev, db.tags, l.recs, l.fields, l.tagCands);
    var owned := AfterOwn(mid, ch.own, now);
    var written := AfterWrites(owned, ch.writes, now);
    AfterWritesFrame(owned, ch.writes, now);
    forall a | a in ch.tags ensures a.name in words {
      var c :| c in l.tagCands && c.value == a.name && c.source == a.source;
      CandidateSpelled(l.hints, l.tagCands, words, c);
    }
    TagsAttached(written, ch.tags, now, words);
    forall n: string
      ensures SameAt(owned.recs, t.recs, TagSlot(n)) || n in t.tags
    {
      assert SameAt(owned.recs, written.recs, TagSlot(n));
      assert SameAt(written.recs, t.recs, TagSlot(n)) || n in t.tags;
    }
  }

  lemma PassKeepsRecords(db: DB, env: Env, now: string, l: Listing, t: DB)
    requires WellKeyed(db.recs) && PassVia(db, env, now, l, t)
    ensures forall s :: s in db.recs ==> s in t.recs
  {
    DecisionFits(db.dev, db.tags, l.recs, l.hints, l.fields, l.tagCands);
    RecordsKept(Refilled(db, env, now), ChangesOf(db, l), now);
  }

  lemma WantedTagsSettle(db: DB, env: Env, now: string, l: Listing, t: DB, words: iset<string>, c: Candidate)
    requires WellKeyed(db.recs) && PassVia(db, env, now, l, t) && TagStep(db, t, ChangesOf(db, l), now, words)
    requires c in l.tagCands
    ensures !TagWanted(t.recs, t.tags, c.value)
  {
    var ch := ChangesOf(db, l);
    DecisionMembers(db.dev, db.tags, l.recs, l.fields, l.tagCands);
    PassKeepsRecords(db, env, now, l, t);
    if TagWanted(db.recs, db.tags, c.value) {
      assert TagAdd(c.value, c.source) in ch.tags;
    }
  }

  lemma RemovedTagsSettle(db: DB, now: string, l: Listing, t: DB, words: iset<string>, n: string)
    requires WellKeyed(db.recs) && Lists(l.recs, db.recs) && TagStep(db, t, ChangesOf(db, l), now, words)
    requires WellKeyed(t.recs) && TagSlot(n) in t.recs
    ensures !TagRemoved(t.recs[TagSlot(n)], t.tags)
  {
    var ch := ChangesOf(db, l);
    DecisionMembers(db.dev, db.tags, l.recs, l.fields, l.tagCands);
    MarkedOwned(db.recs, ch.own, now);
  }

  /** After a pass, the tags it resolved to are all on the device or have a
      record, and every tag still recorded as applied is on the device. */
  lemma TagsSettle(db: DB, env: Env, now: string, l: Listing, t: DB, words: iset<string>)
    requires WellKeyed(db.recs) && PassVia(db, env, now, l, t)
    requires FoldInjective(words) && (forall x :: x in db.tagTable ==> x in words)
    requires forall h :: h in l.hints && h.field.Tag? ==> h.value in words
    ensures forall c :: c in l.tagCands ==> !TagWanted(t.recs, t.tags, c.value)
    ensures forall n :: TagSlot(n) in t.recs ==> !TagRemoved(t.recs[TagSlot(n)], t.tags)
    ensures forall x :: x in t.tagTable ==> x in words
  {
    PassTagStep(db, env, now, l, t, words);
    PassKeepsReviewed(db, env, now, l, t);
    forall c | c in l.tagCands ensures !TagWanted(t.recs, t.tags, c.value) {
      WantedTagsSettle(db, env, now, l, t, words, c);
    }
    forall n | TagSlot(n) in t.recs ensures !TagRemoved(t.recs[TagSlot(n)], t.tags) {
      RemovedTagsSettle(db, now, l, t, words, n);
    }
  }

  // ---- Hints

  lemma PassHints(db: DB, env: Env, now: string, l: Listing, t: DB)
    requires WellFormed(db) && PassVia(db, env, now, l, t)
    ensures WellFormed(t)
    ensures t.hints == HintsAfter(db.hints, env, db.dev.Get(Name), now)
    ensures forall h: Hint :: h.source !in LOCAL_SOURCES ==> (h in t.hints <==> h in db.hints)
    ensures forall s :: s in LOCAL_SOURCES ==> Settled(t.hints, s, LocalHints(env, s, db.dev.Get(Name)))
  {
    var mid, ch := Refilled(db, env, now), ChangesOf(db, l);
    HintsAfterHolds(db.hints, env, db.dev.Get(Name), now);
    DecisionFits(db.dev, db.tags, l.recs, l.hints, l.fields, l.tagCands);
    RecordsKept(mid, ch, now);
    var owned := AfterOwn(mid, ch.own, now);
    AfterWritesFrame(owned, ch.writes, now);
    AfterTagsFrame(AfterWrites(owned, ch.writes, now), ch.tags, now);
  }

  /** A local hint in a settled table is one the local tables give. */
  lemma SettledHint(table: set<Hint>, env: Env, name: string, words: iset<string>, h: Hint)
    requires NamesNothing(env) && SpeaksOnly(env, words)
    requires h in table && Settled(table, h.source, LocalHints(env, h.source, name))
    ensures h.field != Column(Name) && (h.field.Tag? ==> h.value in words)
  {
    LocalHintsKept(env, h.source, name, words);
    assert ContentOf(h) in ContentsFrom(table, h.source);
    var g :| g in LocalHints(env, h.source, name) && ContentOf(g) == ContentOf(h);
  }

  lemma PassSpells(db: DB, env: Env, now: string, l: Listing, t: DB, words: iset<string>)
    requires WellFormed(db) && PassVia(db, env, now, l, t)
    requires NamesNothing(env) && SpeaksOnly(env, words) && FoldInjective(words) && Spells(db, words)
    ensures Spells(t, words)
    ensures forall h :: h in l.hints && h.field.Tag? ==> h.value in words
  {
    PassHints(db, env, now, l, t);
    forall h | h in t.hints && h.field.Tag? ensures h.value in words {
      if h.source in LOCAL_SOURCES {
        SettledHint(t.hints, env, db.dev.Get(Name), words, h);
      }
    }
    TagsSettle(db, env, now, l, t, words);
  }

  lemma TieFreeListing(l: Listing, table: set<Hint>)
    requires ListsHints(l.hints, table) && Ranked(table)
    ensures TieFree(l.hints)
  {
    RankedKeysAreTieFree(l.hints);
  }

  lemma NameHintIsKept(before: set<Hint>, after: set<Hint>, env: Env, name: string, name2: string,
                       words: iset<string>, h: Hint)
    requires NamesNothing(env) && SpeaksOnly(env, words) && Contends(h, ColumnSlot(Name))
    requires forall s :: s in LOCAL_SOURCES ==> Settled(before, s, LocalHints(env, s, name))
    requires forall s :: s in LOCAL_SOURCES ==> Settled(after, s, LocalHints(env, s, name2))
    requires h.source !in LOCAL_SOURCES ==> (h in after <==> h in before)
    ensures h in before <==> h in after
  {
    if h.source in LOCAL_SOURCES {
      if h in before {
        SettledHint(before, env, name, words, h);
      }
      if h in after {
        SettledHint(after, env, name2, words, h);
      }
    }
  }

  /** The name's winner comes from hints no pass recomputes, so it never changes. */
  lemma NameWinnerFixed(db: DB, env: Env, now: string, l: Listing, t: DB, now2: string, m: Listing, u: DB,
                        words: iset<string>)
    requires WellFormed(db) && PassVia(db, env, now, l, t) && PassVia(t, env, now2, m, u)
    requires NamesNothing(env) && SpeaksOnly(env, words)
    ensures SameWinner(l, m, Name)
  {
    PassHints(db, env, now, l, t);
    PassHints(t, env, now2, m, u);
    TieFreeListing(l, t.hints);
    forall h | Contends(h, ColumnSlot(Name)) ensures h in l.hints <==> h in m.hints {
      NameHintIsKept(t.hints, u.hints, env, db.dev.Get(Name), t.dev.Get(Name), words, h);
    }
    BestIgnoresOrder(l.hints, m.hints, ColumnSlot(Name));
  }

  lemma SameHintsSameWinners(l: Listing, m: Listing)
    requires TieFree(l.hints) && forall h :: h in l.hints <==> h in m.hints
    requires IsFieldMap(l.hints, l.fields) && IsFieldMap(m.hints, m.fields)
    requires IsTagList(l.hints, l.tagCands) && IsTagList(m.hints, m.tagCands)
    ensures forall c :: SameWinner(l, m, c)
    ensures l.tagCands == m.tagCands
  {
    forall s ensures Best(l.hints, s) == Best(m.hints, s) {
      BestIgnoresOrder(l.hints, m.hints, s);
    }
    SameTagList(l.tagCands, m.tagCands);
  }

  // ---- Convergence

  /** Nothing left to write, attach or hand over. */
  lemma NothingToDo(t: DB, m: Listing)
    requires DistinctSlots(m.recs) && BySlot(m.recs) == t.recs
    requires forall c: Col :: ColumnVerdict(t.dev, t.recs, m.fields, c).Leave?
    requires forall c :: c in m.tagCands ==> !TagWanted(t.recs, t.tags, c.value)
    requires forall n :: TagSlot(n) in t.recs ==> !TagRemoved(t.recs[TagSlot(n)], t.tags)
    ensures ChangesOf(t, m) == Changes([], [], [])
  {
    var ch := ChangesOf(t, m);
    DecisionMembers(t.dev, t.tags, m.recs, m.fields, m.tagCands);
    if ch.writes != [] {
      SeqFacts.HasMember(ch.writes);
      assert false;
    }
    if ch.tags != [] {
      SeqFacts.HasMember(ch.tags);
      assert false;
    }
    if ch.own != [] {
      SeqFacts.HasMember(ch.own);
      var s :| s in ch.own;
      match s case ColumnSlot(c) => assert false; case TagSlot(n) => assert false;
    }
  }

  /** A pass over a device whose last pass left the name alone changes nothing. */
  lemma SettledPass(db: DB, env: Env, now: string, l: Listing, t: DB, now2: string, m: Listing, u: DB,
                    words: iset<string>)
    requires WellFormed(db) && PassVia(db, env, now, l, t) && PassVia(t, env, now2, m, u)
    requires NamesNothing(env) && SpeaksOnly(env, words) && FoldInjective(words) && Spells(db, words)
    requires t.dev.Get(Name) == db.dev.Get(Name)
    ensures u == t
  {
    PassHints(db, env, now, l, t);
    HintsAfterSettled(t.hints, env, t.dev.Get(Name), now2);
    SettledChanges(db, env, now, l, t, m, words);
    EmptyChangesNothing(t, ChangesOf(t, m), now2);
  }

  lemma SettledChanges(db: DB, env: Env, now: string, l: Listing, t: DB, m: Listing, words: iset<string>)
    requires WellFormed(db) && PassVia(db, env, now, l, t)
    requires NamesNothing(env) && SpeaksOnly(env, words) && FoldInjective(words) && Spells(db, words)
    requires ListsHints(m.hints, t.hints) && Lists(m.recs, t.recs) && IsFieldMap(m.hints, m.fields)
        && IsTagList(m.hints, m.tagCands)
    ensures ChangesOf(t, m) == Changes([], [], [])
  {
    PassHints(db, env, now, l, t);
    PassSpells(db, env, now, l, t, words);
    TieFreeListing(l, t.hints);
    SameHintsSameWinners(l, m);
    TagsSettle(db, env, now, l, t, words);
    forall c: Col ensures ColumnVerdict(t.dev, t.recs, m.fields, c).Leave? {
      PassSteps(db, env, now, l, t, c);
      assert SameWinner(l, m, c);
      ColumnSettles(db, t, l.fields, m.fields, c);
    }
    NothingToDo(t, m);
  }

  /** Passes over one device with nobody editing in between. */
  ghost predicate Passes(dbs: seq<DB>, env: Env, nows: seq<string>) {
    && |dbs| == |nows| + 1
    && forall i :: 0 <= i < |nows| ==> Pass(dbs[i], env, nows[i], dbs[i + 1])
  }

  lemma PassAt(dbs: seq<DB>, env: Env, nows: seq<string>, i: nat)
    requires Passes(dbs, env, nows) && i < |nows|
    ensures Pass(dbs[i], env, nows[i], dbs[i + 1])
  {
  }

  lemma PassKeepsAt(dbs: seq<DB>, env: Env, nows: seq<string>, words: iset<string>, i: nat)
    requires Passes(dbs, env, nows) && i < |nows| && WellFormed(dbs[i]) && Spells(dbs[i], words)
    requires NamesNothing(env) && SpeaksOnly(env, words) && FoldInjective(words)
    ensures WellFormed(dbs[i + 1]) && Spells(dbs[i + 1], words)
  {
    PassAt(dbs, env, nows, i);
    var l :| PassVia(dbs[i], env, nows[i], l, dbs[i + 1]);
    PassHints(dbs[i], env, nows[i], l, dbs[i + 1]);
    PassSpells(dbs[i], env, nows[i], l, dbs[i + 1], words);
  }

  lemma {:induction false} PassesKeep(dbs: seq<DB>, env: Env, nows: seq<string>, words: iset<string>, i: nat)
    requires Passes(dbs, env, nows) && i < |dbs|
    requires WellFormed(dbs[0]) && Spells(dbs[0], words)
    requires NamesNothing(env) && SpeaksOnly(env, words) && FoldInjective(words)
    ensures WellFormed(dbs[i]) && Spells(dbs[i], words)
  {
    if i > 0 {
      PassesKeep(dbs, env, nows, words, i - 1);
      PassKeepsAt(dbs, env, nows, words, i - 1);
    }
  }

  /** A second pass leaves the name alone. */
  lemma NameSettles(db: DB, env: Env, now: string, l: Listing, t: DB, now2: string, m: Listing, u: DB,
                    words: iset<string>)
    requires WellFormed(db) && PassVia(db, env, now, l, t) && PassVia(t, env, now2, m, u)
    requires NamesNothing(env) && SpeaksOnly(env, words)
    ensures u.dev.Get(Name) == t.dev.Get(Name)
  {
    NameWinnerFixed(db, env, now, l, t, now2, m, u, words);
    PassSteps(db, env, now, l, t, Name);
    ColumnSettles(db, t, l.fields, m.fields, Name);
    PassHints(db, env, now, l, t);
    PassSteps(t, env, now2, m, u, Name);
  }

  lemma ThirdPassSettles(a: DB, b: DB, c: DB, d: DB, env: Env, now1: string, now2: string, now3: string,
                         words: iset<string>)
    requires WellFormed(a) && Spells(a, words)
    requires NamesNothing(env) && SpeaksOnly(env, words) && FoldInjective(words)
    requires Pass(a, env, now1, b) && Pass(b, env, now2, c) && Pass(c, env, now3, d)
    ensures d == c
  {
    var k :| PassVia(a, env, now1, k, b);
    PassHints(a, env, now1, k, b);
    PassSpells(a, env, now1, k, b, words);
    var l :| PassVia(b, env, now2, l, c);
    var m :| PassVia(c, env, now3, m, d);
    NameSettles(a, env, now1, k, b, now2, l, c, words);
    SettledPass(b, env, now2, l, c, now3, m, d, words);
  }

  /** As long as the inputs of the local sources and the stored probe hints are the
      same, no two spellings of a tag occur and people leave the device alone,
      the state after two passes is a fixed point. */
  lemma PassesConverge(dbs: seq<DB>, env: Env, nows: seq<string>, words: iset<string>, i: nat)
    requires Passes(dbs, env, nows) && 2 <= i < |nows|
    requires WellFormed(dbs[0]) && Spells(dbs[0], words)
    requires NamesNothing(env) && SpeaksOnly(env, words) && FoldInjective(words)
    ensures dbs[i + 1] == dbs[i]
  {
    PassesKeep(dbs, env, nows, words, i - 2);
    PassAt(dbs, env, nows, i - 2);
    PassAt(dbs, env, nows, i - 1);
    PassAt(dbs, env, nows, i);
    ThirdPassSettles(dbs[i - 2], dbs[i - 1], dbs[i], dbs[i + 1], env, nows[i - 2], nows[i - 1], nows[i], words);
  }
}
