/** What every interleaving of passes and people keeps: a person's value and a
    person's removal stay theirs (internal/autofill/resolve.go:125-170,
    internal/store/autofill.go:135-202). */
module AutofillSafety {
  import opened AutofillModel
  import opened AutofillStore
  import opened AutofillRuns

  ghost predicate Inv(s: Sys) {
    && WellKeyed(s.db.recs)
    && (s.phase.Decided? ==> ChangesFit(s.phase.ch, s.db.recs))
    && AttachedHaveRecords(s)
    && AttachedOnce(s.log)
  }

  ghost predicate AttachedHaveRecords(s: Sys) {
    forall i :: 0 <= i < |s.log| && s.log[i].TagAttached? ==> TagSlot(s.log[i].name) in s.db.recs
  }

  /** No tag name is attached twice in the log. */
  ghost predicate AttachedOnce(log: seq<Event>) {
    forall i, j :: 0 <= i < j < |log| && log[i].TagAttached? && log[j].TagAttached? ==> log[i].name != log[j].name
  }

  lemma NextKeepsInv(s: Sys, step: Step, t: Sys)
    requires Inv(s) && Next(s, step, t)
    ensures Inv(t)
  {
    match step
    case ReadRecords(recs, resolved, fields, tagCands) =>
      DecisionFits(s.phase.dev, s.phase.have, recs, resolved, fields, tagCands);
    case Apply(now) =>
      RecordsKept(s.db, s.phase.ch, now);
      ApplyKeepsLog(s, now, t);
    case _ =>
  }

  lemma ApplyKeepsLog(s: Sys, now: string, t: Sys)
    requires Inv(s) && Next(s, Apply(now), t)
    ensures AttachedHaveRecords(t) && AttachedOnce(t.log)
  {
    var ws, ts := LandedWrites(s.db, s.phase.ch, now), AttachedTags(s.db, s.phase.ch, now);
    RecordsKept(s.db, s.phase.ch, now);
    TagRecordsKept(s.db, s.phase.ch, now, "");
    var n := |s.log| + |ws|;
    forall i | 0 <= i < |t.log| && t.log[i].TagAttached?
      ensures TagSlot(t.log[i].name) in t.db.recs
      ensures i >= n ==> t.log[i].name == ts[i - n].name && TagSlot(t.log[i].name) !in s.db.recs
      ensures i < n ==> i < |s.log| && t.log[i] == s.log[i]
    {
      if i >= n {
        assert ts[i - n] in ts;
      }
    }
  }

  lemma {:induction false} RunKeepsInv(ss: seq<Sys>, steps: seq<Step>, i: nat)
    requires Run(ss, steps) && i < |ss|
    ensures Inv(ss[i])
  {
    if i > 0 {
      RunKeepsInv(ss, steps, i - 1);
      assert Follows(ss, steps, i - 1);
      NextKeepsInv(ss[i - 1], steps[i - 1], ss[i]);
    }
  }

  /** Autofill changes a column only where it has no record or an applied record
      of the very value it replaces, and on a reviewed device only a column that
      holds nothing a person would miss; never the name. */
  lemma OnlyLegalChanges(ss: seq<Sys>, steps: seq<Step>, i: nat, c: Col)
    requires Run(ss, steps) && i < |steps| && ByAutofill(steps[i])
    requires ss[i + 1].db.dev.Get(c) != ss[i].db.dev.Get(c)
    ensures var db := ss[i].db;
            && (ColumnSlot(c) in db.recs ==>
                db.recs[ColumnSlot(c)].state.Applied? && db.recs[ColumnSlot(c)].value == db.dev.Get(c))
            && (db.dev.reviewed ==> NothingToMiss(c, db.dev.Get(c)))
    ensures var db := ss[i + 1].db;
            && ColumnSlot(c) in db.recs && db.recs[ColumnSlot(c)].state.Applied?
            && db.recs[ColumnSlot(c)].value == db.dev.Get(c)
  {
    RunKeepsInv(ss, steps, i);
    assert Follows(ss, steps, i);
    var s, now := ss[i], steps[i].now;
    if forall w :: w in LandedWrites(s.db, s.phase.ch, now) ==> w.col != c {
      UnlandedIsUntouched(s.db, s.phase.ch, now, c);
      assert false;
    } else {
      var w :| w in LandedWrites(s.db, s.phase.ch, now) && w.col == c;
      LandedIsLegal(s.db, s.phase.ch, now, w);
    }
  }

  lemma NextKeepsReviewed(s: Sys, step: Step, t: Sys)
    requires Inv(s) && Next(s, step, t) && s.db.dev.reviewed
    ensures t.db.dev.reviewed
  {
    if step.Apply? {
      RecordsKept(s.db, s.phase.ch, step.now);
    }
  }

  /** Once a device is reviewed, no later step of autofill changes its name or
      any column that holds something. */
  lemma {:induction false} ReviewedIsFinal(ss: seq<Sys>, steps: seq<Step>, i: nat, j: nat, c: Col)
    requires Run(ss, steps) && i <= j < |steps| && ss[i].db.dev.reviewed
    requires ByAutofill(steps[j]) && !NothingToMiss(c, ss[j].db.dev.Get(c))
    ensures ss[j + 1].db.dev.Get(c) == ss[j].db.dev.Get(c)
  {
    ReviewedStays(ss, steps, i, j);
    if ss[j + 1].db.dev.Get(c) != ss[j].db.dev.Get(c) {
      OnlyLegalChanges(ss, steps, j, c);
    }
  }

  lemma {:induction false} ReviewedStays(ss: seq<Sys>, steps: seq<Step>, i: nat, j: nat)
    requires Run(ss, steps) && i <= j < |ss| && ss[i].db.dev.reviewed
    ensures ss[j].db.dev.reviewed
  {
    if i < j {
      ReviewedStays(ss, steps, i, j - 1);
      RunKeepsInv(ss, steps, j - 1);
      assert Follows(ss, steps, j - 1);
      NextKeepsReviewed(ss[j - 1], steps[j - 1], ss[j]);
    }
  }

  predicate Concerns(e: Event, s: Slot) {
    match e
    case Wrote(w) => ColumnSlot(w.col) == s
    case TagAttached(n) => TagSlot(n) == s
  }

  ghost predicate OwnedSince(s: Sys, log: seq<Event>, slot: Slot, r: Record) {
    && slot in s.db.recs && SameButStamp(s.db.recs[slot], r)
    && log <= s.log && forall k :: |log| <= k < |s.log| ==> !Concerns(s.log[k], slot)
  }

  lemma NextKeepsOwned(s: Sys, step: Step, t: Sys, log: seq<Event>, slot: Slot, r: Record)
    requires Inv(s) && Next(s, step, t) && r.state.Owned? && OwnedSince(s, log, slot, r)
    ensures OwnedSince(t, log, slot, r)
  {
    if step.Apply? {
      var now := step.now;
      RecordsKept(s.db, s.phase.ch, now);
      TagRecordsKept(s.db, s.phase.ch, now, "");
      var ws, ts := LandedWrites(s.db, s.phase.ch, now), AttachedTags(s.db, s.phase.ch, now);
      var n := |s.log|;
      forall k | n <= k < |t.log| ensures !Concerns(t.log[k], slot) {
        if k < n + |ws| {
          assert ws[k - n] in ws && t.log[k] == Wrote(ws[k - n]);
          LandedIsLegal(s.db, s.phase.ch, now, ws[k - n]);
        } else {
          assert ts[k - n - |ws|] in ts;
        }
      }
    }
  }

  /** Owned is for ever: the record keeps its value and source, and autofill
      never writes that column or attaches that tag again. */
  lemma {:induction false} OwnedForever(ss: seq<Sys>, steps: seq<Step>, i: nat, j: nat, slot: Slot)
    requires Run(ss, steps) && i <= j < |ss|
    requires slot in ss[i].db.recs && ss[i].db.recs[slot].state.Owned?
    ensures OwnedSince(ss[j], ss[i].log, slot, ss[i].db.recs[slot])
  {
    if i < j {
      OwnedForever(ss, steps, i, j - 1, slot);
      RunKeepsInv(ss, steps, j - 1);
      assert Follows(ss, steps, j - 1);
      NextKeepsOwned(ss[j - 1], steps[j - 1], ss[j], ss[i].log, slot, ss[i].db.recs[slot]);
    }
  }

  /** A column whose value is not the one autofill recorded. */
  ghost predicate Differs(s: Sys, c: Col, v: string) {
    && ColumnSlot(c) in s.db.recs && s.db.recs[ColumnSlot(c)].value == v
    && s.db.dev.Get(c) != v
  }

  lemma AutofillKeepsDiffering(s: Sys, step: Step, t: Sys, c: Col, v: string)
    requires Inv(s) && Next(s, step, t) && ByAutofill(step) && Differs(s, c, v)
    ensures Differs(t, c, v) && t.db.dev.Get(c) == s.db.dev.Get(c)
  {
    if step.Apply? {
      forall w | w in LandedWrites(s.db, s.phase.ch, step.now) ensures w.col != c {
        LandedIsLegal(s.db, s.phase.ch, step.now, w);
      }
      UnlandedIsUntouched(s.db, s.phase.ch, step.now, c);
    }
  }

  /** A value a person put in place of autofill's stays: as long as nobody
      puts autofill's own value back, no pass, whenever it read the device,
      changes the column or forgets what it had written there. */
  lemma {:induction false} PersonValueStays(ss: seq<Sys>, steps: seq<Step>, i: nat, j: nat, c: Col, v: string)
    requires Run(ss, steps) && i <= j < |ss| && Differs(ss[i], c, v)
    requires forall k :: i <= k < j && !ByAutofill(steps[k]) ==> ss[k + 1].db.dev.Get(c) != v
    ensures Differs(ss[j], c, v)
    ensures forall k :: i <= k < j && ByAutofill(steps[k]) ==> ss[k + 1].db.dev.Get(c) == ss[k].db.dev.Get(c)
  {
    if i < j {
      PersonValueStays(ss, steps, i, j - 1, c, v);
      RunKeepsInv(ss, steps, j - 1);
      assert Follows(ss, steps, j - 1);
      if ByAutofill(steps[j - 1]) {
        AutofillKeepsDiffering(ss[j - 1], steps[j - 1], ss[j], c, v);
      } else {
        assert ss[j - 1 + 1].db.dev.Get(c) != v;
      }
    }
  }

  /** A tag that people remove does not come back under the same spelling: no run
      logs two attachments of one name. */
  lemma TagAttachedAtMostOnce(ss: seq<Sys>, steps: seq<Step>, i: nat)
    requires Run(ss, steps) && i < |ss|
    ensures AttachedOnce(ss[i].log)
  {
    RunKeepsInv(ss, steps, i);
  }
}
