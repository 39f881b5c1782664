/** Passes interleaved with people: a pass reads the device, then its tags, then
    its records and decides, then applies, and anybody may edit in between.
    Passes are serialised by Service.mu (internal/autofill/service.go). */
module AutofillRuns {
  import opened AutofillModel
  import opened AutofillResolve
  import opened AutofillDecide
  import opened AutofillStore

  /** How far the running pass has got. */
  datatype Phase =
    | Idle
    | GotDevice(dev: Device)
    | GotTags(dev: Device, have: set<string>)
    | Decided(ch: Changes)

  /** What autofill did to the device, in order. */
  datatype Event = Wrote(write: Write) | TagAttached(name: string)

  datatype Sys = Sys(db: DB, phase: Phase, log: seq<Event>)

  /** An import row (internal/store/importexport.go, DeviceFill). */
  datatype Fill = Fill(name: string, kind: string, vendor: string, model: string, func: string)

  datatype Step =
    | ReadDevice
    | WriteHints(hints: set<Hint>)
    | ReadTags
    | ReadRecords(recs: seq<Record>, resolved: seq<Hint>, fields: map<Col, Candidate>, tagCands: seq<Candidate>)
    | Apply(now: string)
    | Abandon
    | PersonEdits(dev: Device)
    | PersonApproves
    | ImportFills(fill: Fill)
    | TagsEdited(tags: set<string>, tagTable: seq<string>)

  /** FillDevice: only empty columns, and the name and kind of an unreviewed scan. */
  function Filled(d: Device, f: Fill): Device {
    var mayRename := d.source == "scan" && !d.reviewed;
    d.(cols := d.cols[
      Name := if f.name != "" && mayRename then f.name else d.Get(Name)][
      Kind := if f.kind != "" && mayRename then f.kind else d.Get(Kind)][
      Vendor := if d.Get(Vendor) == "" then f.vendor else d.Get(Vendor)][
      Model := if d.Get(Model) == "" then f.model else d.Get(Model)][
      Function := if d.Get(Function) == "" then f.func else d.Get(Function)])
  }

  ghost predicate Lists(recs: seq<Record>, table: map<Slot, Record>) {
    DistinctSlots(recs) && BySlot(recs) == table
  }

  function EventsOf(ws: seq<Write>, ts: seq<TagAdd>): seq<Event> {
    seq(|ws|, i requires 0 <= i < |ws| => Wrote(ws[i])) + seq(|ts|, i requires 0 <= i < |ts| => TagAttached(ts[i].name))
  }

  ghost predicate Next(s: Sys, step: Step, t: Sys) {
    match step
    case ReadDevice => s.phase.Idle? && t == s.(phase := GotDevice(s.db.dev))
    case WriteHints(hints) => t == s.(db := s.db.(hints := hints))
    case ReadTags => s.phase.GotDevice? && t == s.(phase := GotTags(s.phase.dev, s.db.tags))
    case ReadRecords(recs, resolved, fields, tagCands) =>
      && s.phase.GotTags? && Lists(recs, s.db.recs)
      && IsFieldMap(resolved, fields) && IsTagList(resolved, tagCands)
      && t == s.(phase := Decided(Decision(s.phase.dev, s.phase.have, recs, fields, tagCands)))
    case Apply(now) =>
      && s.phase.Decided?
      && t == Sys(AfterApply(s.db, s.phase.ch, now), Idle,
                  s.log + EventsOf(LandedWrites(s.db, s.phase.ch, now), AttachedTags(s.db, s.phase.ch, now)))
    case Abandon => t == s.(phase := Idle)
    case PersonEdits(d) => t == s.(db := s.db.(dev := d.(reviewed := true)))
    case PersonApproves => t == s.(db := s.db.(dev := s.db.dev.(reviewed := true)))
    case ImportFills(f) => t == s.(db := s.db.(dev := Filled(s.db.dev, f)))
    case TagsEdited(tags, table) => t == s.(db := s.db.(tags := tags, tagTable := table))
  }

  predicate ByAutofill(step: Step) {
    step.ReadDevice? || step.WriteHints? || step.ReadTags? || step.ReadRecords? || step.Apply? || step.Abandon?
  }

  ghost predicate Init(s: Sys) {
    s.phase.Idle? && s.log == [] && forall k :: k in s.db.recs ==> s.db.recs[k].slot == k
  }

  /** A run: any steps of passes and people, in any order they allow. */
  ghost predicate Run(ss: seq<Sys>, steps: seq<Step>) {
    && |ss| == |steps| + 1 && Init(ss[0])
    && forall i :: 0 <= i < |steps| ==> Follows(ss, steps, i)
  }

  ghost predicate Follows(ss: seq<Sys>, steps: seq<Step>, i: int)
    requires |ss| == |steps| + 1 && 0 <= i < |steps|
  {
    Next(ss[i], steps[i], ss[i + 1])
  }

  // ---- What one transaction does, column by column and tag by tag

  ghost predicate SameAt(a: map<Slot, Record>, b: map<Slot, Record>, s: Slot) {
    (s in a <==> s in b) && (s in a ==> a[s] == b[s])
  }

  ghost predicate DistinctCols(ws: seq<Write>) {
    forall i, j :: 0 <= i < j < |ws| ==> ws[i].col != ws[j].col
  }

  ghost predicate DistinctNames(ts: seq<TagAdd>) {
    forall i, j :: 0 <= i < j < |ts| ==> ts[i].name != ts[j].name
  }

  lemma {:induction false} MarkedOwned(recs: map<Slot, Record>, own: seq<Slot>, now: string)
    ensures MarkOwned(recs, own, now).Keys == recs.Keys
    ensures forall s :: s in recs && s !in own ==> MarkOwned(recs, own, now)[s] == recs[s]
    ensures forall s :: s in recs && s in own ==>
        MarkOwned(recs, own, now)[s] == recs[s].(state := Owned, updatedAt := now)
  {
    if own != [] {
      var init, last := own[..|own| - 1], own[|own| - 1];
      MarkedOwned(recs, init, now);
      assert own == init + [last];
    }
  }

  lemma {:induction false} AfterWritesFrame(db: DB, ws: seq<Write>, now: string)
    ensures var t := AfterWrites(db, ws, now);
            && t == db.(dev := t.dev, recs := t.recs)
            && t.dev.reviewed == db.dev.reviewed
            && db.recs.Keys <= t.recs.Keys
            && (forall n: string :: SameAt(db.recs, t.recs, TagSlot(n)))
            && ((forall s :: s in db.recs ==> db.recs[s].slot == s) ==> forall s :: s in t.recs ==> t.recs[s].slot == s)
  {
    if ws != [] {
      AfterWritesFrame(db, ws[..|ws| - 1], now);
    }
  }

  /** A column no landing write names stays as it is. */
  lemma {:induction false} ColumnUntouched(db: DB, ws: seq<Write>, now: string, c: Col)
    requires DistinctCols(ws) && forall w :: w in ws && w.col == c ==> !Lands(db, w)
    ensures AfterWrites(db, ws, now).dev.Get(c) == db.dev.Get(c)
    ensures SameAt(db.recs, AfterWrites(db, ws, now).recs, ColumnSlot(c))
  {
    if ws != [] {
      var init, last := ws[..|ws| - 1], ws[|ws| - 1];
      assert ws == init + [last];
      ColumnUntouched(db, init, now, c);
      AfterWritesFrame(db, init, now);
    }
  }

  ghost predicate HoldsWrite(t: DB, w: Write, now: string) {
    && t.dev.Get(w.col) == w.value && ColumnSlot(w.col) in t.recs
    && t.recs[ColumnSlot(w.col)] == Record(ColumnSlot(w.col), w.value, w.source, Applied, now)
  }

  /** A column ends at the value of the one write that names it, if that lands. */
  lemma {:induction false} ColumnWritten(db: DB, ws: seq<Write>, now: string, w: Write)
    requires DistinctCols(ws) && w in ws && Lands(db, w)
    ensures HoldsWrite(AfterWrites(db, ws, now), w, now)
  {
    var init, last := ws[..|ws| - 1], ws[|ws| - 1];
    assert ws == init + [last];
    AfterWritesFrame(db, init, now);
    if w == last {
      OnlyLastNames(ws);
      ColumnUntouched(db, init, now, w.col);
    } else {
      var i :| 0 <= i < |ws| && ws[i] == w;
      ColumnWritten(db, init, now, w);
    }
  }

  lemma OnlyLastNames(ws: seq<Write>)
    requires DistinctCols(ws) && ws != []
    ensures forall w :: w in ws[..|ws| - 1] ==> w.col != ws[|ws| - 1].col
  {
    forall w | w in ws[..|ws| - 1] ensures w.col != ws[|ws| - 1].col {
      var i :| 0 <= i < |ws| - 1 && ws[i] == w;
    }
  }

  lemma {:induction false} InLanded(db: DB, ws: seq<Write>, now: string)
    requires DistinctCols(ws)
    ensures forall w :: w in Landed(db, ws, now) <==> w in ws && Lands(db, w)
  {
    if ws != [] {
      var init, last := ws[..|ws| - 1], ws[|ws| - 1];
      assert ws == init + [last];
      InLanded(db, init, now);
      OnlyLastNames(ws);
      ColumnUntouched(db, init, now, last.col);
      AfterWritesFrame(db, init, now);
    }
  }

  /** Attaching tags touches no column and no record of a tag it does not name. */
  lemma {:induction false} AfterTagsFrame(db: DB, ts: seq<TagAdd>, now: string)
    ensures var t := AfterTags(db, ts, now);
            && t.dev == db.dev && t.hints == db.hints && db.tags <= t.tags
            && db.recs.Keys <= t.recs.Keys
            && (forall s :: s in db.recs && (forall a :: a in ts ==> s != TagSlot(a.name)) ==> t.recs[s] == db.recs[s])
            && (forall s :: s in t.recs && (forall a :: a in ts ==> s != TagSlot(a.name)) ==> s in db.recs)
            && ((forall s :: s in db.recs ==> db.recs[s].slot == s) ==> forall s :: s in t.recs ==> t.recs[s].slot == s)
  {
    if ts != [] {
      var init, last := ts[..|ts| - 1], ts[|ts| - 1];
      assert ts == init + [last];
      AfterTagsFrame(db, init, now);
    }
  }

  lemma {:induction false} InAttached(db: DB, ts: seq<TagAdd>, now: string)
    requires DistinctNames(ts)
    ensures DistinctNames(Attached(db, ts, now))
    ensures forall a :: a in Attached(db, ts, now) ==> a in ts && TagSlot(a.name) in AfterTags(db, ts, now).recs
  {
    if ts != [] {
      var init, last := ts[..|ts| - 1], ts[|ts| - 1];
      assert ts == init + [last];
      InAttached(db, init, now);
      forall a | a in init ensures a.name != last.name {
        var i :| 0 <= i < |init| && init[i] == a;
        assert ts[i] == a;
      }
    }
  }

  // ---- The pass in hand fits the records it will meet

  /** The value autofill may replace on a reviewed device. */
  predicate NothingToMiss(c: Col, v: string) {
    c != Name && (v == "" || (c == Kind && v == "other"))
  }

  ghost predicate ChangesFit(ch: Changes, recs: map<Slot, Record>) {
    && DistinctCols(ch.writes) && DistinctNames(ch.tags)
    && (forall w :: w in ch.writes ==>
          && ColumnSlot(w.col) !in ch.own
          && (ColumnSlot(w.col) in recs ==>
              recs[ColumnSlot(w.col)].state.Applied? && recs[ColumnSlot(w.col)].value == w.expected)
          && (w.unreviewed || NothingToMiss(w.col, w.expected)))
    && (forall a :: a in ch.tags ==> TagSlot(a.name) !in recs && TagSlot(a.name) !in ch.own)
  }

  lemma {:induction false} WritesDistinct(d: Device, table: map<Slot, Record>, fields: map<Col, Candidate>,
                                          fs: seq<Col>)
    requires forall i, j :: 0 <= i < j < |fs| ==> fs[i] != fs[j]
    ensures DistinctCols(ColumnWrites(d, table, fields, fs))
  {
    if fs != [] {
      var init, last := fs[..|fs| - 1], fs[|fs| - 1];
      WritesDistinct(d, table, fields, init);
      InColumnWrites(d, table, fields, init);
      var ws := ColumnWrites(d, table, fields, init);
      forall i | 0 <= i < |ws| ensures ws[i].col != last {
        assert ws[i] in ws;
      }
    }
  }

  lemma {:induction false} AddsDistinct(table: map<Slot, Record>, have: set<string>, cands: seq<Candidate>)
    requires forall i, j :: 0 <= i < j < |cands| ==> cands[i].value != cands[j].value
    ensures DistinctNames(TagAdds(table, have, cands))
  {
    if cands != [] {
      var init, last := cands[..|cands| - 1], cands[|cands| - 1];
      AddsDistinct(table, have, init);
      InTagAdds(table, have, init);
      var ts := TagAdds(table, have, init);
      forall i | 0 <= i < |ts| ensures ts[i].name != last.value {
        assert ts[i] in ts;
      }
    }
  }

  lemma DecisionFits(d: Device, have: set<string>, recs: seq<Record>, hints: seq<Hint>,
                     fields: map<Col, Candidate>, tagCands: seq<Candidate>)
    requires DistinctSlots(recs) && IsTagList(hints, tagCands)
    ensures ChangesFit(Decision(d, have, recs, fields, tagCands), BySlot(recs))
  {
    DecisionMembers(d, have, recs, fields, tagCands);
    DecisionDistinct(d, have, recs, hints, fields, tagCands);
  }

  lemma DecisionDistinct(d: Device, have: set<string>, recs: seq<Record>, hints: seq<Hint>,
                         fields: map<Col, Candidate>, tagCands: seq<Candidate>)
    requires IsTagList(hints, tagCands)
    ensures DistinctCols(Decision(d, have, recs, fields, tagCands).writes)
    ensures DistinctNames(Decision(d, have, recs, fields, tagCands).tags)
  {
    WritesDistinct(d, BySlot(recs), fields, SINGLE_FIELDS);
    forall i, j | 0 <= i < j < |tagCands| ensures tagCands[i].value != tagCands[j].value {
      TextOrder.LessIrreflexive(tagCands[i].value);
    }
    AddsDistinct(BySlot(recs), have, tagCands);
  }

  // ---- What a transaction keeps

  /** A write is legal when its column has no record, or an applied record whose
      value is the value replaced; and on a reviewed device only when that value
      is nothing a person would miss. */
  ghost predicate WriteLegal(before: DB, after: DB, w: Write) {
    var s := ColumnSlot(w.col);
    && before.dev.Get(w.col) == w.expected && after.dev.Get(w.col) == w.value
    && (s in before.recs ==> before.recs[s].state.Applied? && before.recs[s].value == before.dev.Get(w.col))
    && (before.dev.reviewed ==> NothingToMiss(w.col, before.dev.Get(w.col)))
    && s in after.recs && after.recs[s].state.Applied? && after.recs[s].value == w.value
    && after.recs[s].source == w.source
  }

  ghost predicate WellKeyed(recs: map<Slot, Record>) {
    forall k :: k in recs ==> recs[k].slot == k
  }

  ghost predicate SameButStamp(a: Record, b: Record) {
    a.(updatedAt := b.updatedAt) == b
  }

  /** Every write that lands is legal. */
  lemma LandedIsLegal(db: DB, ch: Changes, now: string, w: Write)
    requires ChangesFit(ch, db.recs) && w in LandedWrites(db, ch, now)
    ensures WriteLegal(db, AfterApply(db, ch, now), w)
  {
    var owned := AfterOwn(db, ch.own, now);
    MarkedOwned(db.recs, ch.own, now);
    InLanded(owned, ch.writes, now);
    ColumnWritten(owned, ch.writes, now, w);
    AfterTagsFrame(AfterWrites(owned, ch.writes, now), ch.tags, now);
  }

  /** A column no write landed on keeps its value, and its record the value and
      source it had; the record may only become owned. */
  lemma UnlandedIsUntouched(db: DB, ch: Changes, now: string, c: Col)
    requires ChangesFit(ch, db.recs) && forall w :: w in LandedWrites(db, ch, now) ==> w.col != c
    ensures var t, s := AfterApply(db, ch, now), ColumnSlot(c);
            && t.dev.Get(c) == db.dev.Get(c)
            && (s in t.recs <==> s in db.recs)
            && (s in db.recs ==>
                t.recs[s] == if s in ch.own then db.recs[s].(state := Owned, updatedAt := now) else db.recs[s])
  {
    var owned := AfterOwn(db, ch.own, now);
    MarkedOwned(db.recs, ch.own, now);
    InLanded(owned, ch.writes, now);
    ColumnUntouched(owned, ch.writes, now, c);
    AfterTagsFrame(AfterWrites(owned, ch.writes, now), ch.tags, now);
  }

  /** A tag's record only changes by becoming owned, and only tags without one are attached. */
  lemma TagRecordsKept(db: DB, ch: Changes, now: string, n: string)
    requires ChangesFit(ch, db.recs)
    ensures var t, s := AfterApply(db, ch, now), TagSlot(n);
            && (s in db.recs ==>
                s in t.recs
                && t.recs[s] == if s in ch.own then db.recs[s].(state := Owned, updatedAt := now) else db.recs[s])
    ensures forall a :: a in AttachedTags(db, ch, now) ==>
        TagSlot(a.name) !in db.recs && TagSlot(a.name) in AfterApply(db, ch, now).recs
    ensures DistinctNames(AttachedTags(db, ch, now))
  {
    var owned := AfterOwn(db, ch.own, now);
    var written := AfterWrites(owned, ch.writes, now);
    MarkedOwned(db.recs, ch.own, now);
    AfterWritesFrame(owned, ch.writes, now);
    assert SameAt(owned.recs, written.recs, TagSlot(n));
    AfterTagsFrame(written, ch.tags, now);
    InAttached(written, ch.tags, now);
  }

  /** Records are never deleted, and an owned one never changes again. */
  lemma RecordsKept(db: DB, ch: Changes, now: string)
    requires ChangesFit(ch, db.recs) && WellKeyed(db.recs)
    ensures var t := AfterApply(db, ch, now);
            && t.dev.reviewed == db.dev.reviewed && WellKeyed(t.recs) && db.recs.Keys <= t.recs.Keys
            && (forall k :: k in db.recs && db.recs[k].state.Owned? ==> SameButStamp(t.recs[k], db.recs[k]))
  {
    var owned := AfterOwn(db, ch.own, now);
    var written := AfterWrites(owned, ch.writes, now);
    MarkedOwned(db.recs, ch.own, now);
    AfterWritesFrame(owned, ch.writes, now);
    AfterTagsFrame(written, ch.tags, now);
    var t := AfterApply(db, ch, now);
    forall k | k in db.recs && db.recs[k].state.Owned? ensures SameButStamp(t.recs[k], db.recs[k]) {
      match k
      case TagSlot(n) => TagRecordsKept(db, ch, now, n);
      case ColumnSlot(c) =>
        InLanded(owned, ch.writes, now);
        UnlandedIsUntouched(db, ch, now, c);
    }
  }
}
