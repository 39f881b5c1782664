/** The ownership rules: what a pass writes, attaches and hands over to a
    person, and how the device page explains it (internal/autofill/resolve.go,
    decide and Explain). */
module AutofillDecide {
  import opened Options
  import opened AutofillModel
  import opened AutofillResolve

  /** The records by slot; the last one wins. */
  function BySlot(recs: seq<Record>): map<Slot, Record> {
    if recs == [] then map[]
    else var r := recs[|recs| - 1]; BySlot(recs[..|recs| - 1])[r.slot := r]
  }

  ghost predicate DistinctSlots(recs: seq<Record>) {
    forall i, j :: 0 <= i < j < |recs| ==> recs[i].slot != recs[j].slot
  }

  lemma {:induction false} BySlotLooksUp(recs: seq<Record>)
    requires DistinctSlots(recs)
    ensures forall r: Record :: r in recs <==> r.slot in BySlot(recs) && BySlot(recs)[r.slot] == r
  {
    if recs != [] {
      var n := |recs| - 1;
      BySlotLooksUp(recs[..n]);
      assert recs == recs[..n] + [recs[n]];
      forall r: Record | r in recs[..n] ensures r.slot != recs[n].slot {
        var i :| 0 <= i < n && recs[i] == r;
      }
    }
  }

  method RecordsByField(recs: seq<Record>) returns (table: map<Slot, Record>)
    ensures table == BySlot(recs)
  {
    table := map[];
    for i := 0 to |recs|
      invariant table == BySlot(recs[..i])
    {
      assert recs[..i + 1][..i] == recs[..i];
      table := table[recs[i].slot := recs[i]];
    }
    assert recs[..|recs|] == recs;
  }

  /** What the rules say about one column. */
  datatype Verdict = Leave | Own | Put(write: Write)

  function ColumnVerdict(d: Device, table: map<Slot, Record>, fields: map<Col, Candidate>, f: Col): Verdict {
    var cur, s := d.Get(f), ColumnSlot(f);
    if s in table && table[s].state.Owned? then Leave
    else if s in table && cur != table[s].value then Own
    else if f !in fields then Leave
    else
      var c := fields[f];
      if IsEmpty(d, f, cur) && c.value != cur then Put(Write(f, c.value, c.source, cur, f == Name))
      else if s in table && !d.reviewed && c.value != cur then Put(Write(f, c.value, c.source, cur, true))
      else Leave
  }

  function ColumnWrites(d: Device, table: map<Slot, Record>, fields: map<Col, Candidate>, fs: seq<Col>): seq<Write> {
    if fs == [] then []
    else
      var v := ColumnVerdict(d, table, fields, fs[|fs| - 1]);
      ColumnWrites(d, table, fields, fs[..|fs| - 1]) + if v.Put? then [v.write] else []
  }

  function ColumnOwns(d: Device, table: map<Slot, Record>, fields: map<Col, Candidate>, fs: seq<Col>): seq<Slot> {
    if fs == [] then []
    else
      var f := fs[|fs| - 1];
      ColumnOwns(d, table, fields, fs[..|fs| - 1])
      + if ColumnVerdict(d, table, fields, f).Own? then [ColumnSlot(f)] else []
  }

  predicate TagRemoved(r: Record, have: set<string>) {
    r.slot.TagSlot? && r.state.Applied? && r.slot.name !in have
  }

  function TagOwns(recs: seq<Record>, have: set<string>): seq<Slot> {
    if recs == [] then []
    else
      var r := recs[|recs| - 1];
      TagOwns(recs[..|recs| - 1], have) + if TagRemoved(r, have) then [r.slot] else []
  }

  predicate TagWanted(table: map<Slot, Record>, have: set<string>, name: string) {
    TagSlot(name) !in table && name !in have
  }

  function TagAdds(table: map<Slot, Record>, have: set<string>, cands: seq<Candidate>): seq<TagAdd> {
    if cands == [] then []
    else
      var c := cands[|cands| - 1];
      TagAdds(table, have, cands[..|cands| - 1])
      + if TagWanted(table, have, c.value) then [TagAdd(c.value, c.source)] else []
  }

  function SetOf(tags: seq<string>): set<string> {
    set t | t in tags
  }

  /** The whole decision about one device. */
  function Decision(d: Device, have: set<string>, recs: seq<Record>,
                    fields: map<Col, Candidate>, tagCands: seq<Candidate>): Changes
  {
    var table := BySlot(recs);
    Changes(ColumnWrites(d, table, fields, SINGLE_FIELDS),
            TagAdds(table, have, tagCands),
            ColumnOwns(d, table, fields, SINGLE_FIELDS) + TagOwns(recs, have))
  }

  method Decide(d: Device, tags: seq<string>, recs: seq<Record>,
                fields: map<Col, Candidate>, tagCands: seq<Candidate>) returns (ch: Changes)
    ensures ch == Decision(d, SetOf(tags), recs, fields, tagCands)
  {
    var table := RecordsByField(recs);
    var writes: seq<Write>, own: seq<Slot>, adds: seq<TagAdd> := [], [], [];
    for i := 0 to |SINGLE_FIELDS|
      invariant writes == ColumnWrites(d, table, fields, SINGLE_FIELDS[..i])
      invariant own == ColumnOwns(d, table, fields, SINGLE_FIELDS[..i])
    {
      var f := SINGLE_FIELDS[i];
      assert SINGLE_FIELDS[..i + 1][..i] == SINGLE_FIELDS[..i];
      var cur, s := d.Get(f), ColumnSlot(f);
      if s in table && table[s].state.Owned? {
        continue;
      }
      if s in table && cur != table[s].value {
        own := own + [s];
        continue;
      }
      if f !in fields {
        continue;
      }
      var c := fields[f];
      if IsEmpty(d, f, cur) && c.value != cur {
        writes := writes + [Write(f, c.value, c.source, cur, f == Name)];
      } else if s in table && !d.reviewed && c.value != cur {
        writes := writes + [Write(f, c.value, c.source, cur, true)];
      }
    }
    assert SINGLE_FIELDS[..|SINGLE_FIELDS|] == SINGLE_FIELDS;
    var have := SetOf(tags);
    var colOwn := own;
    for i := 0 to |recs|
      invariant own == colOwn + TagOwns(recs[..i], have)
    {
      assert recs[..i + 1][..i] == recs[..i];
      if TagRemoved(recs[i], have) {
        own := own + [recs[i].slot];
      }
    }
    assert recs[..|recs|] == recs;
    for i := 0 to |tagCands|
      invariant adds == TagAdds(table, have, tagCands[..i])
    {
      assert tagCands[..i + 1][..i] == tagCands[..i];
      if TagSlot(tagCands[i].value) in table || tagCands[i].value in have {
        continue;
      }
      adds := adds + [TagAdd(tagCands[i].value, tagCands[i].source)];
    }
    assert tagCands[..|tagCands|] == tagCands;
    ch := Changes(writes, adds, own);
  }

  // ---- What a decision holds

  lemma {:induction false} InColumnWrites(d: Device, table: map<Slot, Record>, fields: map<Col, Candidate>,
                                          fs: seq<Col>)
    ensures forall w: Write :: w in ColumnWrites(d, table, fields, fs) <==>
        w.col in fs && ColumnVerdict(d, table, fields, w.col) == Put(w)
  {
    if fs != [] {
      InColumnWrites(d, table, fields, fs[..|fs| - 1]);
      assert fs == fs[..|fs| - 1] + [fs[|fs| - 1]];
    }
  }

  lemma {:induction false} InColumnOwns(d: Device, table: map<Slot, Record>, fields: map<Col, Candidate>, fs: seq<Col>)
    ensures forall s: Slot :: s in ColumnOwns(d, table, fields, fs) <==>
              s.ColumnSlot? && s.col in fs && ColumnVerdict(d, table, fields, s.col).Own?
  {
    if fs != [] {
      InColumnOwns(d, table, fields, fs[..|fs| - 1]);
      assert fs == fs[..|fs| - 1] + [fs[|fs| - 1]];
    }
  }

  lemma {:induction false} InTagOwns(recs: seq<Record>, have: set<string>)
    ensures forall s: Slot :: s in TagOwns(recs, have) <==> exists r :: r in recs && r.slot == s && TagRemoved(r, have)
  {
    if recs != [] {
      var init, last := recs[..|recs| - 1], recs[|recs| - 1];
      InTagOwns(init, have);
      assert recs == init + [last];
      forall s: Slot ensures s in TagOwns(recs, have) <==> exists r :: r in recs && r.slot == s && TagRemoved(r, have) {
        if s in TagOwns(recs, have) {
          if s in TagOwns(init, have) {
            var r :| r in init && r.slot == s && TagRemoved(r, have);
            assert r in recs;
          } else {
            assert last in recs;
          }
        }
      }
    }
  }

  lemma {:induction false} InTagAdds(table: map<Slot, Record>, have: set<string>, cands: seq<Candidate>)
    ensures forall t: TagAdd :: t in TagAdds(table, have, cands) <==>
              TagWanted(table, have, t.name) && exists c :: c in cands && c.value == t.name && c.source == t.source
  {
    if cands != [] {
      var init, last := cands[..|cands| - 1], cands[|cands| - 1];
      InTagAdds(table, have, init);
      assert cands == init + [last];
      forall t: TagAdd ensures t in TagAdds(table, have, cands) <==>
          TagWanted(table, have, t.name) && exists c :: c in cands && c.value == t.name && c.source == t.source {
        if t in TagAdds(table, have, cands) {
          if t in TagAdds(table, have, init) {
            var c :| c in init && c.value == t.name && c.source == t.source;
            assert c in cands;
          } else {
            assert last in cands;
          }
        }
      }
    }
  }

  /** Membership of a decision, column by column and tag by tag. */
  lemma DecisionMembers(d: Device, have: set<string>, recs: seq<Record>, fields: map<Col, Candidate>,
                        tagCands: seq<Candidate>)
    requires DistinctSlots(recs)
    ensures var ch, table := Decision(d, have, recs, fields, tagCands), BySlot(recs);
            && (forall w: Write :: w in ch.writes <==> ColumnVerdict(d, table, fields, w.col) == Put(w))
            && (forall f: Col :: ColumnSlot(f) in ch.own <==> ColumnVerdict(d, table, fields, f).Own?)
            && (forall n: string :: TagSlot(n) in ch.own <==>
                TagSlot(n) in table && TagRemoved(table[TagSlot(n)], have))
            && (forall t: TagAdd :: t in ch.tags <==>
                  TagWanted(table, have, t.name)
                  && exists c :: c in tagCands && c.value == t.name && c.source == t.source)
  {
    var table := BySlot(recs);
    BySlotLooksUp(recs);
    InColumnWrites(d, table, fields, SINGLE_FIELDS);
    InColumnOwns(d, table, fields, SINGLE_FIELDS);
    InTagOwns(recs, have);
    InTagAdds(table, have, tagCands);
    forall f: Col ensures f in SINGLE_FIELDS {
      SingleFieldsComplete(f);
    }
    BySlotKeys(recs);
    forall n: string ensures TagSlot(n) in TagOwns(recs, have) <==>
        TagSlot(n) in table && TagRemoved(table[TagSlot(n)], have) {
      if TagSlot(n) in table && TagRemoved(table[TagSlot(n)], have) {
        assert table[TagSlot(n)] in recs;
      }
    }
  }

  lemma {:induction false} BySlotKeys(recs: seq<Record>)
    ensures forall s :: s in BySlot(recs) ==> BySlot(recs)[s].slot == s
  {
    if recs != [] {
      BySlotKeys(recs[..|recs| - 1]);
    }
  }

  // ---- The explanation on the device page

  datatype Status = StatusApplied | StatusLow | StatusOwned | StatusOutranked | StatusKept

  datatype Explained = Explained(hint: Hint, status: Status)

  /** The candidate a column resolves to, Go's zero value when there is none. */
  function FieldOrZero(fields: map<Col, Candidate>, f: Col): Candidate {
    if f in fields then fields[f] else Candidate("", "", "", 0)
  }

  function StatusOf(d: Device, have: set<string>, table: map<Slot, Record>, fields: map<Col, Candidate>,
                    h: Hint): Status {
    var s := SlotOf(h);
    var cur := if h.field.Column? then d.Get(h.field.col) else "";
    if s in table && table[s].state.Owned? then StatusOwned
    else if !h.field.Tag? && s in table && table[s].state.Applied? && cur != table[s].value then StatusOwned
    else if h.field.Tag? && s in table && table[s].state.Applied? && h.value !in have then StatusOwned
    else if h.confidence < THRESHOLD then StatusLow
    else if h.field.Tag? && s in table && h.value in have then StatusApplied
    else if h.field.Tag? then StatusKept
    else if s in table && cur == table[s].value && cur == h.value then StatusApplied
    else
      var c := FieldOrZero(fields, h.field.col);
      if c.source != h.source || c.value != h.value then StatusOutranked else StatusKept
  }

  method Explain(d: Device, tags: seq<string>, recs: seq<Record>, hints: seq<Hint>) returns (out: seq<Explained>)
    ensures |out| == |hints|
    ensures forall fields :: IsFieldMap(hints, fields) ==> forall i :: 0 <= i < |hints| ==>
              out[i] == Explained(hints[i], StatusOf(d, SetOf(tags), BySlot(recs), fields, hints[i]))
  {
    var table := RecordsByField(recs);
    var fields, _ := Resolve(hints);
    var have := SetOf(tags);
    out := [];
    for i := 0 to |hints|
      invariant |out| == i
      invariant forall j :: 0 <= j < i ==> out[j] == Explained(hints[j], StatusOf(d, have, table, fields, hints[j]))
    {
      out := out + [Explained(hints[i], StatusOf(d, have, table, fields, hints[i]))];
    }
    forall other | IsFieldMap(hints, other) ensures other == fields {
      FieldMapUnique(hints, fields, other);
    }
  }

  lemma FieldMapUnique(hints: seq<Hint>, a: map<Col, Candidate>, b: map<Col, Candidate>)
    requires IsFieldMap(hints, a) && IsFieldMap(hints, b)
    ensures a == b
  {
    assert forall c :: c in a <==> c in b;
  }

  /** A winner stems from one of the hints. */
  lemma WinnerIsAHint(hints: seq<Hint>, fields: map<Col, Candidate>, f: Col)
    requires IsFieldMap(hints, fields) && f in fields
    ensures exists h :: h in hints && h.field == Column(f) && h.confidence >= THRESHOLD && CandidateOf(h) == fields[f]
  {
    BestIsFirstMaximal(hints, ColumnSlot(f));
    var i: nat :| FirstMaximal(hints, ColumnSlot(f), i) && Best(hints, ColumnSlot(f)) == Some(CandidateOf(hints[i]));
    assert hints[i] in hints;
  }

  /** When the decision writes a column, the page shows exactly the winning
      hint as kept among that column's hints, and as applied once the write
      has landed. */
  lemma ExplainAgreesOnWrites(d: Device, have: set<string>, recs: seq<Record>, hints: seq<Hint>,
                              fields: map<Col, Candidate>, f: Col, h: Hint, now: string)
    requires DistinctKeys(hints) && IsFieldMap(hints, fields)
    requires ColumnVerdict(d, BySlot(recs), fields, f).Put?
    requires h in hints && h.field == Column(f)
    ensures f in fields
    ensures StatusOf(d, have, BySlot(recs), fields, h) == StatusKept <==> CandidateOf(h) == fields[f]
    ensures var w := ColumnVerdict(d, BySlot(recs), fields, f).write;
            var landed := BySlot(recs)[ColumnSlot(f) := Record(ColumnSlot(f), w.value, w.source, Applied, now)];
            CandidateOf(h) == fields[f] ==> StatusOf(d.Set(f, w.value), have, landed, fields, h) == StatusApplied
  {
    WinnerIsAHint(hints, fields, f);
    var top :| top in hints && top.field == Column(f) && top.confidence >= THRESHOLD && CandidateOf(top) == fields[f];
    var i :| 0 <= i < |hints| && hints[i] == top;
    var j :| 0 <= j < |hints| && hints[j] == h;
    if top.source == h.source && top.value == h.value {
      assert i == j;
    }
  }

  /** A hint shows as owned exactly when the decision keeps out of its column or
      tag because a person owns it, or hands it over now. */
  lemma ExplainAgreesOnOwnership(d: Device, have: set<string>, recs: seq<Record>, hints: seq<Hint>,
                                 fields: map<Col, Candidate>, tagCands: seq<Candidate>, h: Hint)
    requires DistinctSlots(recs) && h in hints
    ensures var table, ch := BySlot(recs), Decision(d, have, recs, fields, tagCands);
            StatusOf(d, have, table, fields, h) == StatusOwned <==>
              (SlotOf(h) in table && table[SlotOf(h)].state.Owned?) || SlotOf(h) in ch.own
  {
    BySlotKeys(recs);
    DecisionMembers(d, have, recs, fields, tagCands);
  }
}
