/** What a pass leaves on the device, and what the page says of each hint, told
    from the tables the pass met and the hints alone
    (internal/autofill/resolve.go:106-230, internal/store/autofill.go:135-193). */
module AutofillOutcome {
  import opened AutofillModel
  import opened AutofillResolve
  import opened AutofillDecide
  import opened AutofillStore
  import opened AutofillRuns
  import opened AutofillPass
  import opened AutofillConverge
  import opened AutofillSources
  import opened AutofillWinners
  import AutofillTags

  // ---- Columns

  /** A column that holds nothing anybody put there. */
  predicate IsBlank(d: Device, c: Col) {
    match c
    case Name => !d.reviewed && IsPlaceholderName(d.cols[Name])
    case Kind => d.cols[Kind] == "" || d.cols[Kind] == "other"
    case _ => d.cols[c] == ""
  }

  /** A person or an earlier pass settled that the column is a person's. */
  predicate IsTaken(db: DB, c: Col) {
    ColumnSlot(c) in db.recs
        && (db.recs[ColumnSlot(c)].state == Owned || db.recs[ColumnSlot(c)].value != db.dev.cols[c])
  }

  /** The column is the winner's to fill. */
  predicate IsFilled(db: DB, fields: map<Col, Candidate>, c: Col) {
    && c in fields && !IsTaken(db, c) && fields[c].value != db.dev.cols[c]
    && (IsBlank(db.dev, c) || (ColumnSlot(c) in db.recs && !db.dev.reviewed))
  }

  predicate IsApplied(t: DB, c: Col, w: Candidate) {
    && t.dev.cols[c] == w.value && ColumnSlot(c) in t.recs && t.recs[ColumnSlot(c)].state == Applied
    && t.recs[ColumnSlot(c)].value == w.value && t.recs[ColumnSlot(c)].source == w.source
  }

  lemma VerdictFills(db: DB, fields: map<Col, Candidate>, c: Col)
    ensures var v := ColumnVerdict(db.dev, db.recs, fields, c);
            && (v.Put? <==> IsFilled(db, fields, c))
            && (v.Put? ==> v.write.col == c && v.write.value == fields[c].value && v.write.source == fields[c].source)
            && (v.Own? <==> IsTaken(db, c) && db.recs[ColumnSlot(c)].state != Owned)
  {
  }

  /** A pass gives a column its winner's value if the column is not a person's and
      either is blank or holds autofill's own value on an unreviewed device, and
      leaves all others as they are. What a person has changed is handed over. */
  lemma PassSetsColumn(db: DB, env: Env, now: string, l: Listing, t: DB, c: Col)
    requires WellKeyed(db.recs) && PassVia(db, env, now, l, t)
    ensures IsFilled(db, l.fields, c) ==> IsApplied(t, c, l.fields[c])
    ensures !IsFilled(db, l.fields, c) ==> t.dev.cols[c] == db.dev.cols[c]
    ensures !IsFilled(db, l.fields, c) && !IsTaken(db, c) ==> SameAt(db.recs, t.recs, ColumnSlot(c))
    ensures IsTaken(db, c) ==> ColumnSlot(c) in t.recs && t.recs[ColumnSlot(c)].state == Owned
  {
    PassSteps(db, env, now, l, t, c);
    StepSetsColumn(db, t, l.fields, c);
  }

  lemma StepSetsColumn(db: DB, t: DB, fields: map<Col, Candidate>, c: Col)
    requires ColumnStep(db, t, fields, c)
    ensures IsFilled(db, fields, c) ==> IsApplied(t, c, fields[c])
    ensures !IsFilled(db, fields, c) ==> t.dev.cols[c] == db.dev.cols[c]
    ensures !IsFilled(db, fields, c) && !IsTaken(db, c) ==> SameAt(db.recs, t.recs, ColumnSlot(c))
    ensures IsTaken(db, c) ==> ColumnSlot(c) in t.recs && t.recs[ColumnSlot(c)].state == Owned
  {
    VerdictFills(db, fields, c);
  }

  /** So a hint that counts and that none is ahead of shows on the device after
      the pass, unless the column is a person's or its value is not autofill's to replace. */
  lemma PassShowsTheWinner(db: DB, env: Env, now: string, l: Listing, t: DB, c: Col)
    requires WellKeyed(db.recs) && PassVia(db, env, now, l, t) && !IsTaken(db, c)
    requires IsBlank(db.dev, c) || (ColumnSlot(c) in db.recs && !db.dev.reviewed)
    requires exists h :: h in l.hints && Counts(h, ColumnSlot(c))
    ensures exists h, w :: Wins(l.hints, ColumnSlot(c), h, w) && t.dev.cols[c] == h.value
  {
    PassSetsColumn(db, env, now, l, t, c);
    ColumnWinner(l.hints, l.fields, c);
    var h :| Wins(l.hints, ColumnSlot(c), h, l.fields[c]);
    assert t.dev.cols[c] == h.value;
  }

  // ---- Hints

  /** The hostname rules give the hint for the device's name or for a hostname. */
  ghost predicate RulesGive(db: DB, env: Env, h: Hint) {
    IsNameHint(AutofillSources.Named("name", db.dev.cols[Name]), env.rules, h)
    || exists n :: n in env.hostNames && IsNameHint(AutofillSources.Named("hostname", n), env.rules, h)
  }

  /** After a pass the table says of each local source what its inputs give: the
      MAC and port tables' hints, and the hostname rules' over the device's name
      and its interfaces' hostnames, merged; all other sources' hints stay. */
  lemma PassRecomputesHints(db: DB, env: Env, now: string, l: Listing, t: DB) returns (named: seq<Hint>)
    requires WellFormed(db) && PassVia(db, env, now, l, t)
    ensures forall h :: h in named <==> RulesGive(db, env, h)
    ensures ContentsFrom(t.hints, "oui") == ContentSet(Deduped(env.oui))
    ensures ContentsFrom(t.hints, "hostname") == ContentSet(Deduped(named))
    ensures ContentsFrom(t.hints, "ports") == ContentSet(Deduped(env.ports))
    ensures forall h: Hint :: h.source !in ["oui", "hostname", "ports"] ==> (h in t.hints <==> h in db.hints)
    ensures forall h :: h in l.hints <==> h in t.hints
  {
    named := AllNameHints(NamesOf(db.dev.cols[Name], env.hostNames), env.rules);
    TableAfter(db, env, now, l, t, named);
    RulesGiveThem(db, env, named);
  }

  lemma TableAfter(db: DB, env: Env, now: string, l: Listing, t: DB, named: seq<Hint>)
    requires WellFormed(db) && PassVia(db, env, now, l, t)
    requires named == AllNameHints(NamesOf(db.dev.cols[Name], env.hostNames), env.rules)
    ensures ContentsFrom(t.hints, "oui") == ContentSet(Deduped(env.oui))
    ensures ContentsFrom(t.hints, "hostname") == ContentSet(Deduped(named))
    ensures ContentsFrom(t.hints, "ports") == ContentSet(Deduped(env.ports))
    ensures forall h: Hint :: h.source !in ["oui", "hostname", "ports"] ==> (h in t.hints <==> h in db.hints)
    ensures forall h :: h in l.hints <==> h in t.hints
  {
    PassHints(db, env, now, l, t);
    ThreeSettled(t.hints, env, db.dev.Get(Name));
    InLocalSources();
  }

  lemma ThreeSettled(after: set<Hint>, env: Env, name: string)
    requires forall s :: s in LOCAL_SOURCES ==> Settled(after, s, LocalHints(env, s, name))
    ensures ContentsFrom(after, "oui") == ContentSet(Deduped(env.oui))
    ensures ContentsFrom(after, "hostname")
         == ContentSet(Deduped(AllNameHints(NamesOf(name, env.hostNames), env.rules)))
    ensures ContentsFrom(after, "ports") == ContentSet(Deduped(env.ports))
  {
    InLocalSources();
    assert Settled(after, "oui", LocalHints(env, "oui", name));
    assert Settled(after, "hostname", LocalHints(env, "hostname", name));
    assert Settled(after, "ports", LocalHints(env, "ports", name));
  }

  lemma RulesGiveThem(db: DB, env: Env, named: seq<Hint>)
    requires named == AllNameHints(NamesOf(db.dev.cols[Name], env.hostNames), env.rules)
    ensures forall h :: h in named <==> RulesGive(db, env, h)
  {
    forall h ensures h in named <==> RulesGive(db, env, h) {
      AllNameHintsAre(NamesOf(db.dev.cols[Name], env.hostNames), env.rules, h);
      NamesAre(db.dev.cols[Name], env.hostNames, env.rules, h);
    }
  }

  lemma NamesAre(name: string, hostNames: seq<string>, rules: string -> seq<Hint>, h: Hint)
    ensures (exists n :: n in NamesOf(name, hostNames) && IsNameHint(n, rules, h)) <==>
              IsNameHint(AutofillSources.Named("name", name), rules, h)
              || exists n :: n in hostNames && IsNameHint(AutofillSources.Named("hostname", n), rules, h)
  {
    var all := NamesOf(name, hostNames);
    assert all[0] == AutofillSources.Named("name", name);
    if n :| n in hostNames && IsNameHint(AutofillSources.Named("hostname", n), rules, h) {
      var i :| 0 <= i < |hostNames| && hostNames[i] == n;
      assert all[i + 1] == AutofillSources.Named("hostname", n);
      assert all[i + 1] in all;
    }
    if n :| n in all && IsNameHint(n, rules, h) && n != all[0] {
      var i :| 0 <= i < |all| && all[i] == n;
      assert n == AutofillSources.Named("hostname", hostNames[i - 1]) && hostNames[i - 1] in hostNames;
    }
  }

  // ---- Tags

  /** A hint that counts names the tag, which has neither record nor place on the device. */
  ghost predicate IsNewTag(db: DB, hints: seq<Hint>, n: string) {
    TagSlot(n) !in db.recs && n !in db.tags && exists h :: h in hints && Counts(h, TagSlot(n))
  }

  lemma DecidedTags(db: DB, l: Listing, n: string)
    requires Lists(l.recs, db.recs) && IsTagList(l.hints, l.tagCands)
    ensures (exists a :: a in ChangesOf(db, l).tags && a.name == n) <==> IsNewTag(db, l.hints, n)
  {
    DecisionMembers(db.dev, db.tags, l.recs, l.fields, l.tagCands);
    TagWinner(l.hints, l.tagCands, n);
    if IsNewTag(db, l.hints, n) {
      var c :| c in l.tagCands && c.value == n;
      assert TagAdd(n, c.source) in ChangesOf(db, l).tags;
    }
  }

  /** After a pass the device has the tags it had and those that new tag names mean. */
  lemma PassSetsTags(db: DB, env: Env, now: string, l: Listing, t: DB, x: string)
    requires WellKeyed(db.recs) && PassVia(db, env, now, l, t)
    ensures x in t.tags <==> x in db.tags || exists n :: IsNewTag(db, l.hints, n) && TagMeant(t.tagTable, n) == x
  {
    var mid, ch := Refilled(db, env, now), ChangesOf(db, l);
    var written := AfterWrites(AfterOwn(mid, ch.own, now), ch.writes, now);
    AutofillTags.BeforeTags(mid, ch, now);
    AutofillTags.TagsGained(written, ch.tags, now);
    GainedNames(db, l, t, x);
  }

  /** One of the tags made the record. */
  ghost predicate MadeFor(ts: seq<TagAdd>, now: string, r: Record, s: Slot) {
    exists a :: a in ts && s == TagSlot(a.name) && r == Record(s, a.name, a.source, Applied, now)
  }

  lemma AttachRecords(db: DB, a: TagAdd, now: string, s: Slot)
    requires s in AttachOne(db, a, now).recs
    ensures (s in db.recs && AttachOne(db, a, now).recs[s] == db.recs[s])
            || (s == TagSlot(a.name) && AttachOne(db, a, now).recs[s] == Record(s, a.name, a.source, Applied, now))
  {
  }

  /** A record made by attaching tags says which tag, for whom. */
  lemma {:induction false} TagRecordsFrom(db: DB, ts: seq<TagAdd>, now: string, s: Slot)
    requires s in AfterTags(db, ts, now).recs
    ensures (s in db.recs && AfterTags(db, ts, now).recs[s] == db.recs[s])
            || MadeFor(ts, now, AfterTags(db, ts, now).recs[s], s)
  {
    if ts != [] {
      var init, last := ts[..|ts| - 1], ts[|ts| - 1];
      assert ts == init + [last] && last in ts;
      AttachRecords(AfterTags(db, init, now), last, now, s);
      if s in AfterTags(db, init, now).recs {
        TagRecordsFrom(db, init, now, s);
      }
    }
  }

  /** A tag record a pass adds is applied, and names the source of the winning hint. */
  lemma PassRecordsTags(db: DB, env: Env, now: string, l: Listing, t: DB, n: string)
    requires WellKeyed(db.recs) && PassVia(db, env, now, l, t) && TagSlot(n) in t.recs && TagSlot(n) !in db.recs
    ensures IsNewTag(db, l.hints, n) && t.recs[TagSlot(n)].value == n && t.recs[TagSlot(n)].state == Applied
    ensures exists h, c :: Wins(l.hints, TagSlot(n), h, c) && t.recs[TagSlot(n)].source == h.source
  {
    var mid, ch := Refilled(db, env, now), ChangesOf(db, l);
    var owned := AfterOwn(mid, ch.own, now);
    var written := AfterWrites(owned, ch.writes, now);
    MarkedOwned(db.recs, ch.own, now);
    AfterWritesFrame(owned, ch.writes, now);
    assert SameAt(owned.recs, written.recs, TagSlot(n));
    TagRecordsFrom(written, ch.tags, now, TagSlot(n));
    var a :| a in ch.tags && a.name == n && t.recs[TagSlot(n)] == Record(TagSlot(n), n, a.source, Applied, now);
    DecidedTags(db, l, n);
    DecidedSource(db, l, a);
  }

  lemma DecidedSource(db: DB, l: Listing, a: TagAdd)
    requires Lists(l.recs, db.recs) && IsTagList(l.hints, l.tagCands) && a in ChangesOf(db, l).tags
    ensures exists h, c :: Wins(l.hints, TagSlot(a.name), h, c) && a.source == h.source
  {
    DecisionMembers(db.dev, db.tags, l.recs, l.fields, l.tagCands);
    TagWinner(l.hints, l.tagCands, a.name);
    var c :| c in l.tagCands && c.value == a.name && c.source == a.source;
    var h :| Wins(l.hints, TagSlot(a.name), h, c);
  }

  lemma GainedNames(db: DB, l: Listing, t: DB, x: string)
    requires Lists(l.recs, db.recs) && IsTagList(l.hints, l.tagCands)
    ensures AutofillTags.Names(ChangesOf(db, l).tags, t.tagTable, x) <==>
              exists n :: IsNewTag(db, l.hints, n) && TagMeant(t.tagTable, n) == x
  {
    var ts := ChangesOf(db, l).tags;
    if AutofillTags.Names(ts, t.tagTable, x) {
      var a :| a in ts && TagMeant(t.tagTable, a.name) == x;
      DecidedTags(db, l, a.name);
    }
    if n :| IsNewTag(db, l.hints, n) && TagMeant(t.tagTable, n) == x {
      DecidedTags(db, l, n);
      var a :| a in ts && a.name == n;
    }
  }

  /** A tag that has a record but is gone is handed over. */
  lemma PassHandsTagOver(db: DB, env: Env, now: string, l: Listing, t: DB, x: string)
    requires WellKeyed(db.recs) && PassVia(db, env, now, l, t) && TagSlot(x) in db.recs && x !in db.tags
    ensures TagSlot(x) in t.recs && t.recs[TagSlot(x)].state == Owned
  {
    var mid, ch := Refilled(db, env, now), ChangesOf(db, l);
    DecisionFits(db.dev, db.tags, l.recs, l.hints, l.fields, l.tagCands);
    DecisionMembers(db.dev, db.tags, l.recs, l.fields, l.tagCands);
    TagRecordsKept(mid, ch, now, x);
  }

  // ---- What the page says

  /** The record says the hint's column or tag is autofill's, but a person has changed or removed it. */
  ghost predicate IsPersons(d: Device, have: set<string>, recs: seq<Record>, h: Hint) {
    exists r :: r in recs && r.slot == SlotOf(h)
      && (r.state == Owned || (h.field.Column? && r.value != d.cols[h.field.col]) || (h.field.Tag? && h.value !in have))
  }

  /** Autofill put the hint's value on the device, and it is still there. */
  ghost predicate IsShown(d: Device, have: set<string>, recs: seq<Record>, h: Hint) {
    exists r :: r in recs && r.slot == SlotOf(h)
      && if h.field.Tag? then h.value in have else r.value == d.cols[h.field.col] == h.value
  }

  lemma RecordOf(recs: seq<Record>, s: Slot)
    requires DistinctSlots(recs)
    ensures s in BySlot(recs) <==> exists r :: r in recs && r.slot == s
    ensures forall r :: r in recs && r.slot == s ==> s in BySlot(recs) && BySlot(recs)[s] == r
    ensures s in BySlot(recs) ==> BySlot(recs)[s] in recs && BySlot(recs)[s].slot == s
  {
    BySlotLooksUp(recs);
    BySlotKeys(recs);
  }

  /** A hint for a column is the winner exactly when it counts and none is ahead of it. */
  lemma WinnerByKey(hints: seq<Hint>, fields: map<Col, Candidate>, c: Col, h: Hint)
    requires DistinctKeys(hints) && RankedSources(hints) && IsFieldMap(hints, fields)
    requires h in hints && h.field == Column(c) && h.confidence >= 50
    ensures FieldOrZero(fields, c).source == h.source && FieldOrZero(fields, c).value == h.value <==>
              h.value != "" && forall g :: g in hints && Counts(g, ColumnSlot(c)) ==> !IsAheadOf(g, h)
  {
    ColumnWinner(hints, fields, c);
    if c in fields {
      var w :| Wins(hints, ColumnSlot(c), w, fields[c]);
      if w.source == h.source && w.value == h.value {
        var i :| 0 <= i < |hints| && hints[i] == w;
        var j :| 0 <= j < |hints| && hints[j] == h;
        assert i == j;
      } else if h.value != "" && forall g :: g in hints && Counts(g, ColumnSlot(c)) ==> !IsAheadOf(g, h) {
        AheadIsBetter(w, h);
        AheadIsBetter(h, w);
        BetterTotal(CandidateOf(w), CandidateOf(h));
        assert false;
      }
    }
  }

  /** Each status, told from the records, the device and the hints. */
  lemma StatusesMean(d: Device, have: set<string>, recs: seq<Record>, hints: seq<Hint>,
                     fields: map<Col, Candidate>, h: Hint)
    requires DistinctKeys(hints) && RankedSources(hints) && DistinctSlots(recs) && IsFieldMap(hints, fields)
        && h in hints
    ensures var st, persons := StatusOf(d, have, BySlot(recs), fields, h), IsPersons(d, have, recs, h);
            var shown := IsShown(d, have, recs, h);
            var beaten := h.value == "" || exists g :: g in hints && Counts(g, SlotOf(h)) && IsAheadOf(g, h);
            && (st == StatusOwned <==> persons)
            && (st == StatusLow <==> !persons && h.confidence < 50)
            && (st == StatusApplied <==> !persons && h.confidence >= 50 && shown)
            && (st == StatusOutranked <==> !persons && h.confidence >= 50 && !shown && h.field.Column? && beaten)
  {
    RecordOf(recs, SlotOf(h));
    if h.field.Column? && h.confidence >= 50 {
      WinnerByKey(hints, fields, h.field.col, h);
    }
  }
}
