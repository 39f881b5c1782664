/** The tables autofill reads and writes for one device, and the store's
    compare-and-set transactions over them (internal/store/autofill.go). */
module AutofillStore {
  import opened Options
  import opened AutofillModel
  import opened TextOrder

  /** The rows of one device, and the names in the shared tag table in id order. */
  datatype DB = DB(dev: Device, recs: map<Slot, Record>, tags: set<string>, tagTable: seq<string>, hints: set<Hint>)

  /** The first name of the table that equals `name` when case is ignored. */
  function FirstFold(table: seq<string>, name: string): Option<string> {
    if table == [] then None
    else if Lower(table[0]) == Lower(name) then Some(table[0])
    else FirstFold(table[1..], name)
  }

  /** The tag a name means: the exact spelling, else the oldest that differs
      only in case. */
  function FindTag(table: seq<string>, name: string): Option<string> {
    if name in table then Some(name) else FirstFold(table, name)
  }

  // ---- ApplyAutofill, statement by statement

  function MarkOwned(recs: map<Slot, Record>, own: seq<Slot>, now: string): map<Slot, Record> {
    if own == [] then recs
    else
      var m, s := MarkOwned(recs, own[..|own| - 1], now), own[|own| - 1];
      if s in m then m[s := m[s].(state := Owned, updatedAt := now)] else m
  }

  predicate Lands(db: DB, w: Write) {
    db.dev.Get(w.col) == w.expected && (w.unreviewed ==> !db.dev.reviewed)
  }

  function WriteOne(db: DB, w: Write, now: string): DB {
    if Lands(db, w) then
      db.(dev := db.dev.Set(w.col, w.value),
          recs := db.recs[ColumnSlot(w.col) := Record(ColumnSlot(w.col), w.value, w.source, Applied, now)])
    else db
  }

  function AfterWrites(db: DB, ws: seq<Write>, now: string): DB {
    if ws == [] then db else WriteOne(AfterWrites(db, ws[..|ws| - 1], now), ws[|ws| - 1], now)
  }

  function Landed(db: DB, ws: seq<Write>, now: string): seq<Write> {
    if ws == [] then []
    else
      var init, w := ws[..|ws| - 1], ws[|ws| - 1];
      Landed(db, init, now) + if Lands(AfterWrites(db, init, now), w) then [w] else []
  }

  /** The tag that attaching `name` attaches, found or created. */
  function TagMeant(table: seq<string>, name: string): string {
    if FindTag(table, name).Some? then FindTag(table, name).value else name
  }

  function TableWith(table: seq<string>, name: string): seq<string> {
    if FindTag(table, name).Some? then table else table + [name]
  }

  /** What a name refers to: itself if the table has it, else the earliest entry
      that differs in case only, else a new entry. */
  lemma TagMeantIs(table: seq<string>, name: string)
    ensures TagMeant(table, name) in TableWith(table, name) && Lower(TagMeant(table, name)) == Lower(name)
    ensures name in table ==> TagMeant(table, name) == name
    ensures TableWith(table, name) ==
              if exists t :: t in table && Lower(t) == Lower(name) then table else table + [name]
    ensures name !in table && TagMeant(table, name) in table ==>
              exists i :: 0 <= i < |table| && table[i] == TagMeant(table, name)
                          && forall j :: 0 <= j < i ==> Lower(table[j]) != Lower(name)
  {
    NoFold(table, name);
    FirstFoldIsOldest(table, name);
  }

  lemma {:induction false} NoFold(table: seq<string>, name: string)
    ensures FirstFold(table, name).None? <==> forall t :: t in table ==> Lower(t) != Lower(name)
  {
    if table != [] {
      NoFold(table[1..], name);
      assert table[0] in table && forall t :: t in table <==> t == table[0] || t in table[1..];
    }
  }

  lemma {:induction false} FirstFoldIsOldest(table: seq<string>, name: string)
    ensures FirstFold(table, name).Some? ==>
              exists i :: 0 <= i < |table| && table[i] == FirstFold(table, name).value && Lower(table[i]) == Lower(name)
                          && forall j :: 0 <= j < i ==> Lower(table[j]) != Lower(name)
  {
    if table != [] {
      FirstFoldIsOldest(table[1..], name);
      if Lower(table[0]) != Lower(name) && FirstFold(table, name).Some? {
        var i :| 0 <= i < |table| - 1 && table[1..][i] == FirstFold(table[1..], name).value
            && Lower(table[1..][i]) == Lower(name)
                 && forall j :: 0 <= j < i ==> Lower(table[1..][j]) != Lower(name);
        assert forall j :: 0 < j < i + 1 ==> Lower(table[j]) == Lower(table[1..][j - 1]);
        assert table[i + 1] == table[1..][i];
      }
    }
  }

  /** No two of these words differ only in case. */
  ghost predicate FoldInjective(words: iset<string>) {
    forall x, y :: x in words && y in words && Lower(x) == Lower(y) ==> x == y
  }

  lemma {:induction false} FirstFoldFolds(table: seq<string>, name: string)
    ensures var f := FirstFold(table, name);
            f.Some? ==> f.value in table && Lower(f.value) == Lower(name)
  {
    if table != [] {
      FirstFoldFolds(table[1..], name);
    }
  }

  lemma ExactTag(table: seq<string>, name: string, words: iset<string>)
    requires FoldInjective(words) && name in words && forall x :: x in table ==> x in words
    ensures TagMeant(table, name) == name
    ensures forall x :: x in TableWith(table, name) ==> x in words
  {
    FirstFoldFolds(table, name);
  }

  function AttachOne(db: DB, t: TagAdd, now: string): DB {
    var name, table := TagMeant(db.tagTable, t.name), TableWith(db.tagTable, t.name);
    if name in db.tags then db.(tagTable := table)
    else db.(tagTable := table, tags := db.tags + {name},
             recs := db.recs[TagSlot(t.name) := Record(TagSlot(t.name), t.name, t.source, Applied, now)])
  }

  function AfterTags(db: DB, ts: seq<TagAdd>, now: string): DB {
    if ts == [] then db else AttachOne(AfterTags(db, ts[..|ts| - 1], now), ts[|ts| - 1], now)
  }

  function Attached(db: DB, ts: seq<TagAdd>, now: string): seq<TagAdd> {
    if ts == [] then []
    else
      var init, t := ts[..|ts| - 1], ts[|ts| - 1];
      var before := AfterTags(db, init, now);
      Attached(db, init, now) + if TagMeant(before.tagTable, t.name) !in before.tags then [t] else []
  }

  function AfterOwn(db: DB, own: seq<Slot>, now: string): DB {
    db.(recs := MarkOwned(db.recs, own, now))
  }

  /** The device's rows after the whole transaction. */
  function AfterApply(db: DB, ch: Changes, now: string): DB {
    AfterTags(AfterWrites(AfterOwn(db, ch.own, now), ch.writes, now), ch.tags, now)
  }

  function LandedWrites(db: DB, ch: Changes, now: string): seq<Write> {
    Landed(AfterOwn(db, ch.own, now), ch.writes, now)
  }

  function AttachedTags(db: DB, ch: Changes, now: string): seq<TagAdd> {
    Attached(AfterWrites(AfterOwn(db, ch.own, now), ch.writes, now), ch.tags, now)
  }

  ghost predicate DistinctValues(hints: seq<Hint>) {
    forall i, j :: 0 <= i < j < |hints| ==> hints[i].field != hints[j].field || hints[i].value != hints[j].value
  }

  /** The hint table once `source` has exactly `hints`. */
  function Replaced(table: set<Hint>, source: string, hints: seq<Hint>): set<Hint> {
    (set h | h in table && h.source != source) + (set h | h in hints :: h.(source := source))
  }

  /** The tables of one device. */
  class Tables {
    var dev: Device
    var recs: map<Slot, Record>
    var tags: set<string>
    var tagTable: seq<string>
    var hints: set<Hint>

    function View(): DB
      reads this
    {
      DB(dev, recs, tags, tagTable, hints)
    }

    constructor (db: DB)
      ensures View() == db
    {
      dev, recs, tags, tagTable, hints := db.dev, db.recs, db.tags, db.tagTable, db.hints;
    }

    method FindOrCreateTag(name: string) returns (found: string)
      modifies this`tagTable
      ensures tagTable == TableWith(old(tagTable), name)
      ensures found == TagMeant(old(tagTable), name)
    {
      match FindTag(tagTable, name)
      case Some(t) =>
        found := t;
      case None =>
        tagTable, found := tagTable + [name], name;
    }

    method ApplyOwn(own: seq<Slot>, now: string)
      modifies this`recs
      ensures View() == AfterOwn(old(View()), own, now)
    {
      ghost var start := View();
      for i := 0 to |own|
        invariant View() == AfterOwn(start, own[..i], now)
      {
        assert own[..i + 1][..i] == own[..i];
        var s := own[i];
        if s in recs {
          recs := recs[s := recs[s].(state := Owned, updatedAt := now)];
        }
      }
      assert own[..|own|] == own;
    }

    method ApplyWrites(ws: seq<Write>, now: string) returns (writes: seq<Write>)
      modifies this`dev, this`recs
      ensures View() == AfterWrites(old(View()), ws, now)
      ensures writes == Landed(old(View()), ws, now)
    {
      ghost var start := View();
      writes := [];
      for i := 0 to |ws|
        invariant View() == AfterWrites(start, ws[..i], now)
        invariant writes == Landed(start, ws[..i], now)
      {
        assert ws[..i + 1][..i] == ws[..i];
        var w := ws[i];
        if !(dev.Get(w.col) == w.expected && (w.unreviewed ==> !dev.reviewed)) {
          continue;
        }
        dev := dev.Set(w.col, w.value);
        recs := recs[ColumnSlot(w.col) := Record(ColumnSlot(w.col), w.value, w.source, Applied, now)];
        writes := writes + [w];
      }
      assert ws[..|ws|] == ws;
    }

    method ApplyTags(ts: seq<TagAdd>, now: string) returns (added: seq<TagAdd>)
      modifies this`recs, this`tags, this`tagTable
      ensures View() == AfterTags(old(View()), ts, now)
      ensures added == Attached(old(View()), ts, now)
    {
      ghost var start := View();
      added := [];
      for i := 0 to |ts|
        invariant View() == AfterTags(start, ts[..i], now)
        invariant added == Attached(start, ts[..i], now)
      {
        assert ts[..i + 1][..i] == ts[..i];
        var t := ts[i];
        var name := FindOrCreateTag(t.name);
        if name in tags {
          continue;
        }
        tags := tags + {name};
        recs := recs[TagSlot(t.name) := Record(TagSlot(t.name), t.name, t.source, Applied, now)];
        added := added + [t];
      }
      assert ts[..|ts|] == ts;
    }

    /** Applies the changes in one transaction and returns what took effect. */
    method ApplyAutofill(ch: Changes, now: string) returns (writes: seq<Write>, added: seq<TagAdd>)
      modifies this
      ensures View() == AfterApply(old(View()), ch, now)
      ensures writes == LandedWrites(old(View()), ch, now)
      ensures added == AttachedTags(old(View()), ch, now)
    {
      ApplyOwn(ch.own, now);
      writes := ApplyWrites(ch.writes, now);
      added := ApplyTags(ch.tags, now);
    }

    /** Makes `rows` the complete set `source` has; a repeated field and value
        breaks the primary key and rolls the transaction back. */
    method ReplaceHints(source: string, rows: seq<Hint>) returns (ok: bool)
      modifies this`hints
      ensures ok <==> DistinctValues(rows)
      ensures hints == if ok then Replaced(old(hints), source, rows) else old(hints)
    {
      var saved := hints;
      hints := set h | h in hints && h.source != source;
      ghost var others := hints;
      for i := 0 to |rows|
        invariant hints == others + set h | h in rows[..i] :: h.(source := source)
        invariant DistinctValues(rows[..i])
      {
        if exists h :: h in hints && h.source == source && h.field == rows[i].field && h.value == rows[i].value {
          var dup :| dup in hints && dup.source == source && dup.field == rows[i].field && dup.value == rows[i].value;
          assert exists j :: 0 <= j < i && rows[j].field == dup.field && rows[j].value == dup.value;
          hints := saved;
          return false;
        }
        forall j | 0 <= j < i
          ensures rows[j].field != rows[i].field || rows[j].value != rows[i].value
        {
          assert rows[..i][j] == rows[j];
          assert rows[j].(source := source) in hints;
        }
        hints := hints + {rows[i].(source := source)};
        assert rows[..i + 1] == rows[..i] + [rows[i]];
      }
      assert rows[..|rows|] == rows;
      ok := true;
    }
  }
}
