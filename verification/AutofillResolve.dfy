/** How the hints about one device resolve to at most one candidate per column
    and the tags to add (internal/autofill/resolve.go, Resolve). */
module AutofillResolve {
  import opened Options
  import opened AutofillModel
  import opened TextOrder
  import SeqFacts

  /** The lowest confidence that is applied. */
  const THRESHOLD := 50

  function Rank(source: string): nat {
    if source == "mdns" then 5
    else if source == "ssdp" then 4
    else if source == "ports" then 3
    else if source == "hostname" then 2
    else if source == "oui" then 1
    else 0
  }

  predicate Better(a: Candidate, b: Candidate) {
    if a.confidence != b.confidence then a.confidence > b.confidence
    else if Rank(a.source) != Rank(b.source) then Rank(a.source) > Rank(b.source)
    else Less(a.value, b.value)
  }

  predicate Contends(h: Hint, slot: Slot) {
    h.confidence >= THRESHOLD && h.value != "" && SlotOf(h) == slot
  }

  /** What one pass over the hints keeps for a slot. */
  function Best(hints: seq<Hint>, slot: Slot): Option<Candidate> {
    if hints == [] then None
    else
      var cur := Best(hints[..|hints| - 1], slot);
      var h := hints[|hints| - 1];
      if Contends(h, slot) && (cur.None? || Better(CandidateOf(h), cur.value)) then Some(CandidateOf(h)) else cur
  }

  /** The column winners, as Resolve returns them. */
  ghost predicate IsFieldMap(hints: seq<Hint>, fields: map<Col, Candidate>) {
    forall c: Col ::
      && (c in fields <==> Best(hints, ColumnSlot(c)).Some?)
      && (c in fields ==> Best(hints, ColumnSlot(c)) == Some(fields[c]))
  }

  ghost predicate AscendingByValue(tags: seq<Candidate>) {
    forall i, j :: 0 <= i < j < |tags| ==> Less(tags[i].value, tags[j].value)
  }

  /** The tag winners sorted by name, as Resolve returns them. */
  ghost predicate IsTagList(hints: seq<Hint>, tags: seq<Candidate>) {
    && AscendingByValue(tags)
    && forall c: Candidate :: c in tags <==> Best(hints, TagSlot(c.value)) == Some(c)
  }

  method Resolve(hints: seq<Hint>) returns (fields: map<Col, Candidate>, tags: seq<Candidate>)
    ensures IsFieldMap(hints, fields)
    ensures IsTagList(hints, tags)
  {
    fields := map[];
    var tagBy: map<string, Candidate> := map[];
    for i := 0 to |hints|
      invariant IsFieldMap(hints[..i], fields)
      invariant forall n: string :: n in tagBy <==> Best(hints[..i], TagSlot(n)).Some?
      invariant forall n: string :: n in tagBy ==> Best(hints[..i], TagSlot(n)) == Some(tagBy[n])
      invariant forall n: string :: n in tagBy ==> tagBy[n].value == n
    {
      assert hints[..i + 1][..i] == hints[..i];
      var h := hints[i];
      if h.confidence < THRESHOLD || h.value == "" {
        continue;
      }
      var c := CandidateOf(h);
      match h.field
      case Tag =>
        if h.value !in tagBy || Better(c, tagBy[h.value]) {
          tagBy := tagBy[h.value := c];
        }
      case Column(col) =>
        if col !in fields || Better(c, fields[col]) {
          fields := fields[col := c];
        }
    }
    assert hints[..|hints|] == hints;
    tags := [];
    var rest := tagBy.Keys;
    while rest != {}
      invariant rest <= tagBy.Keys
      invariant AscendingByValue(tags)
      invariant forall c: Candidate :: c in tags <==> c.value in tagBy && c.value !in rest && c == tagBy[c.value]
    {
      var n :| n in rest;
      rest := rest - {n};
      InsertKeepsOrder(tags, tagBy[n]);
      tags := InsertByValue(tags, tagBy[n]);
    }
  }

  /** A sorted list with one more candidate, in its place. */
  function InsertByValue(tags: seq<Candidate>, c: Candidate): (r: seq<Candidate>)
    ensures forall x: Candidate :: x in r <==> x in tags || x == c
  {
    if tags == [] || Less(c.value, tags[0].value) then [c] + tags
    else
      assert tags == [tags[0]] + tags[1..];
      [tags[0]] + InsertByValue(tags[1..], c)
  }

  lemma {:induction false} InsertKeepsOrder(tags: seq<Candidate>, c: Candidate)
    requires AscendingByValue(tags) && forall t :: t in tags ==> t.value != c.value
    ensures AscendingByValue(InsertByValue(tags, c))
  {
    if tags == [] {
    } else if Less(c.value, tags[0].value) {
      forall j | 0 < j < |tags| ensures Less(c.value, tags[j].value) {
        LessTransitive(c.value, tags[0].value, tags[j].value);
      }
    } else {
      LessTotal(c.value, tags[0].value);
      InsertKeepsOrder(tags[1..], c);
      var rest := InsertByValue(tags[1..], c);
      forall j | 0 <= j < |rest| ensures Less(tags[0].value, rest[j].value) {
        if rest[j] != c {
          assert rest[j] in tags[1..];
        }
      }
    }
  }

  // ---- The order the winner is the maximum of

  lemma BetterTransitive(a: Candidate, b: Candidate, c: Candidate)
    requires Better(a, b) && Better(b, c)
    ensures Better(a, c)
  {
    if a.confidence == c.confidence && Rank(a.source) == Rank(c.source) {
      LessTransitive(a.value, b.value, c.value);
    }
  }

  lemma BetterAsymmetric(a: Candidate, b: Candidate)
    requires Better(a, b)
    ensures !Better(b, a)
  {
    if Better(b, a) {
      LessAsymmetric(a.value, b.value);
    }
  }

  /** Candidates neither of which is better agree on confidence, rank and value. */
  lemma BetterTotal(a: Candidate, b: Candidate)
    ensures Better(a, b) || Better(b, a)
        || (a.confidence == b.confidence && Rank(a.source) == Rank(b.source) && a.value == b.value)
  {
    LessTotal(a.value, b.value);
  }

  lemma BetterNegativelyTransitive(a: Candidate, b: Candidate, c: Candidate)
    requires Better(a, c)
    ensures Better(a, b) || Better(b, c)
  {
    BetterTotal(a, b);
    BetterTotal(b, c);
    if Better(b, a) {
      BetterTransitive(b, a, c);
    }
  }

  /** The first hint for a slot that no hint for it beats. */
  ghost predicate FirstMaximal(hints: seq<Hint>, slot: Slot, i: nat) {
    && i < |hints| && Contends(hints[i], slot)
    && (forall j :: 0 <= j < |hints| && Contends(hints[j], slot) ==>
        !Better(CandidateOf(hints[j]), CandidateOf(hints[i])))
    && (forall j :: 0 <= j < i && Contends(hints[j], slot) ==> Better(CandidateOf(hints[i]), CandidateOf(hints[j])))
  }

  /** For any hints at all, the loop keeps exactly the first maximal contender. */
  lemma {:induction false} BestIsFirstMaximal(hints: seq<Hint>, slot: Slot)
    ensures Best(hints, slot).None? <==> forall j :: 0 <= j < |hints| ==> !Contends(hints[j], slot)
    ensures Best(hints, slot).Some? ==>
              exists i: nat :: FirstMaximal(hints, slot, i) && Best(hints, slot) == Some(CandidateOf(hints[i]))
  {
    if hints != [] {
      var n := |hints| - 1;
      var init := hints[..n];
      BestIsFirstMaximal(init, slot);
      assert forall j :: 0 <= j < n ==> init[j] == hints[j];
      if Best(init, slot).None? {
        FirstContender(hints, slot);
      } else {
        var i: nat :| FirstMaximal(init, slot, i) && Best(init, slot) == Some(CandidateOf(init[i]));
        assert Contends(hints[i], slot);
        if Contends(hints[n], slot) && Better(CandidateOf(hints[n]), CandidateOf(hints[i])) {
          LastBeatsAll(hints, slot, i);
        } else {
          LastChangesNothing(hints, slot, i);
        }
      }
    }
  }

  lemma FirstContender(hints: seq<Hint>, slot: Slot)
    requires |hints| > 0 && forall j :: 0 <= j < |hints| - 1 ==> !Contends(hints[j], slot)
    ensures Contends(hints[|hints| - 1], slot) ==> FirstMaximal(hints, slot, |hints| - 1)
  {
    LessIrreflexive(hints[|hints| - 1].value);
  }

  lemma LastChangesNothing(hints: seq<Hint>, slot: Slot, i: nat)
    requires |hints| > 0 && FirstMaximal(hints[..|hints| - 1], slot, i)
    requires !(Contends(hints[|hints| - 1], slot) && Better(CandidateOf(hints[|hints| - 1]), CandidateOf(hints[i])))
    ensures FirstMaximal(hints, slot, i)
  {
    var init := hints[..|hints| - 1];
    assert forall j :: 0 <= j < |init| ==> init[j] == hints[j];
  }

  lemma LastBeatsAll(hints: seq<Hint>, slot: Slot, i: nat)
    requires |hints| > 0 && FirstMaximal(hints[..|hints| - 1], slot, i)
    requires Contends(hints[|hints| - 1], slot) && Better(CandidateOf(hints[|hints| - 1]), CandidateOf(hints[i]))
    ensures FirstMaximal(hints, slot, |hints| - 1)
  {
    var n := |hints| - 1;
    var top := CandidateOf(hints[n]);
    forall j | 0 <= j < n && Contends(hints[j], slot)
      ensures Better(top, CandidateOf(hints[j])) && !Better(CandidateOf(hints[j]), top)
    {
      assert hints[..n][j] == hints[j];
      BetterNegativelyTransitive(top, CandidateOf(hints[j]), CandidateOf(hints[i]));
      BetterAsymmetric(top, CandidateOf(hints[j]));
    }
    LessIrreflexive(hints[n].value);
  }

  /** A tag candidate is spelled as one of the hints spells it. */
  lemma CandidateSpelled(hints: seq<Hint>, tagCands: seq<Candidate>, words: iset<string>, c: Candidate)
    requires IsTagList(hints, tagCands) && c in tagCands
    requires forall h :: h in hints && h.field.Tag? ==> h.value in words
    ensures c.value in words
  {
    BestIsFirstMaximal(hints, TagSlot(c.value));
    var i: nat :| FirstMaximal(hints, TagSlot(c.value), i)
        && Best(hints, TagSlot(c.value)) == Some(CandidateOf(hints[i]));
    assert hints[i] in hints;
  }

  // ---- Order independence

  /** A hint for the slot that no other hint for it beats. */
  ghost predicate Unbeaten(hints: seq<Hint>, slot: Slot, h: Hint) {
    && h in hints && Contends(h, slot)
    && forall g :: g in hints && Contends(g, slot) ==> !Better(CandidateOf(g), CandidateOf(h))
  }

  /** The unbeaten hints for the slot, if there are several, give one candidate. */
  ghost predicate OneWinner(hints: seq<Hint>, slot: Slot) {
    forall g, h :: Unbeaten(hints, slot, g) && Unbeaten(hints, slot, h) ==> CandidateOf(g) == CandidateOf(h)
  }

  ghost predicate TieFree(hints: seq<Hint>) {
    forall slot :: OneWinner(hints, slot)
  }

  ghost predicate DistinctKeys(hints: seq<Hint>) {
    forall i, j :: 0 <= i < j < |hints| ==>
      !(hints[i].source == hints[j].source && hints[i].field == hints[j].field && hints[i].value == hints[j].value)
  }

  ghost predicate RankedSources(hints: seq<Hint>) {
    forall h :: h in hints ==> Rank(h.source) > 0
  }

  /** Distinct (source, field, value) keys from ranked sources never tie. */
  lemma RankedKeysAreTieFree(hints: seq<Hint>)
    requires DistinctKeys(hints) && RankedSources(hints)
    ensures TieFree(hints)
  {
    forall slot, g, h | Unbeaten(hints, slot, g) && Unbeaten(hints, slot, h)
      ensures CandidateOf(g) == CandidateOf(h)
    {
      BetterTotal(CandidateOf(g), CandidateOf(h));
      var i :| 0 <= i < |hints| && hints[i] == g;
      var j :| 0 <= j < |hints| && hints[j] == h;
    }
  }

  /** What is kept is unbeaten. */
  lemma BestIsUnbeaten(hints: seq<Hint>, slot: Slot) returns (h: Hint)
    requires Best(hints, slot).Some?
    ensures Unbeaten(hints, slot, h) && Best(hints, slot) == Some(CandidateOf(h))
    ensures Unbeaten(hints, slot, hints[0]) ==> h == hints[0]
  {
    BestIsFirstMaximal(hints, slot);
    var i: nat :| FirstMaximal(hints, slot, i) && Best(hints, slot) == Some(CandidateOf(hints[i]));
    h := hints[i];
    assert i > 0 && Contends(hints[0], slot) ==> Better(CandidateOf(h), CandidateOf(hints[0]));
  }

  /** With one winner, only which contenders there are matters, not their order or number. */
  lemma BestIgnoresOrder(a: seq<Hint>, b: seq<Hint>, slot: Slot)
    requires OneWinner(a, slot) && forall h :: Contends(h, slot) ==> (h in a <==> h in b)
    ensures Best(a, slot) == Best(b, slot)
  {
    BestIsFirstMaximal(a, slot);
    BestIsFirstMaximal(b, slot);
    if Best(a, slot).None? {
      assert forall h :: h in a ==> !Contends(h, slot);
    } else {
      var x := BestIsUnbeaten(a, slot);
      assert x in b;
      var y := BestIsUnbeaten(b, slot);
      assert Unbeaten(a, slot, y);
    }
  }

  /** The hints with one of them moved to the front. */
  function Fronted(hints: seq<Hint>, k: nat): (r: seq<Hint>)
    requires k < |hints|
    ensures multiset(r) == multiset(hints)
  {
    assert hints == hints[..k] + [hints[k]] + hints[k + 1..];
    [hints[k]] + hints[..k] + hints[k + 1..]
  }

  lemma SameHints(a: seq<Hint>, b: seq<Hint>)
    requires multiset(a) == multiset(b)
    ensures forall h :: h in a <==> h in b
  {
    forall h ensures h in a <==> h in b {
      assert h in a <==> h in multiset(a);
      assert h in b <==> h in multiset(b);
    }
  }

  /** A list that starts with an unbeaten hint keeps that hint. */
  lemma FrontedWins(hints: seq<Hint>, slot: Slot, k: nat)
    requires k < |hints| && Unbeaten(hints, slot, hints[k])
    ensures Best(Fronted(hints, k), slot) == Some(CandidateOf(hints[k]))
  {
    var b := Fronted(hints, k);
    SameHints(hints, b);
    assert Unbeaten(b, slot, b[0]);
    BestIsFirstMaximal(b, slot);
    var h := BestIsUnbeaten(b, slot);
  }

  /** Exactly when a slot's winner does not depend on the order the hints come in. */
  lemma OrderNeverShows(hints: seq<Hint>, slot: Slot)
    ensures (forall b :: multiset(b) == multiset(hints) ==> Best(b, slot) == Best(hints, slot)) <==>
        OneWinner(hints, slot)
  {
    if OneWinner(hints, slot) {
      forall b | multiset(b) == multiset(hints) ensures Best(b, slot) == Best(hints, slot) {
        SameHints(hints, b);
        BestIgnoresOrder(hints, b, slot);
      }
    } else {
      var g, h :| Unbeaten(hints, slot, g) && Unbeaten(hints, slot, h) && CandidateOf(g) != CandidateOf(h);
      var i :| 0 <= i < |hints| && hints[i] == g;
      var j :| 0 <= j < |hints| && hints[j] == h;
      FrontedWins(hints, slot, i);
      FrontedWins(hints, slot, j);
      assert multiset(Fronted(hints, i)) == multiset(hints) == multiset(Fronted(hints, j));
    }
  }

  lemma {:induction false} SameTagList(s: seq<Candidate>, t: seq<Candidate>)
    requires AscendingByValue(s) && AscendingByValue(t) && forall c: Candidate :: c in s <==> c in t
    ensures s == t
  {
    if s == [] {
      if t != [] {
        SeqFacts.HasMember(t);
        assert false;
      }
    } else {
      assert s[0] in t;
      assert t[0] in s;
      if s[0] != t[0] {
        LessAsymmetric(s[0].value, t[0].value);
      }
      RestMembers(s, t);
      RestMembers(t, s);
      SameTagList(s[1..], t[1..]);
      assert s == [s[0]] + s[1..] && t == [t[0]] + t[1..];
    }
  }

  lemma RestMembers(s: seq<Candidate>, t: seq<Candidate>)
    requires s != [] && t != [] && s[0] == t[0] && AscendingByValue(s) && forall c: Candidate :: c in s <==> c in t
    ensures forall c: Candidate :: c in s[1..] ==> c in t[1..]
  {
    forall c: Candidate | c in s[1..] ensures c in t[1..] {
      assert c in s;
      LessIrreflexive(c.value);
      assert t == [t[0]] + t[1..];
    }
  }

  /** Resolve answers the same for every order of the same hints, as long as
      none tie; keys distinct per (source, field, value) from ranked sources
      are enough. */
  lemma ResolveIgnoresOrder(a: seq<Hint>, b: seq<Hint>, fa: map<Col, Candidate>, ta: seq<Candidate>,
                            fb: map<Col, Candidate>, tb: seq<Candidate>)
    requires multiset(a) == multiset(b)
    requires TieFree(a) || (DistinctKeys(a) && RankedSources(a))
    requires IsFieldMap(a, fa) && IsTagList(a, ta) && IsFieldMap(b, fb) && IsTagList(b, tb)
    ensures fa == fb && ta == tb
  {
    if !TieFree(a) {
      RankedKeysAreTieFree(a);
    }
    SameHints(a, b);
    forall slot ensures Best(a, slot) == Best(b, slot) {
      BestIgnoresOrder(a, b, slot);
    }
    assert forall c :: c in fa <==> c in fb;
    SameTagList(ta, tb);
  }

  /** Two sources without a rank that agree on confidence and value tie, though
      their keys differ; then the one that comes first is named as the origin. */
  lemma TiesFollowOrder(x: Hint, y: Hint)
    requires x.field == y.field && x.value == y.value && x.confidence == y.confidence && Contends(x, SlotOf(x))
    requires x.source != y.source && Rank(x.source) == 0 && Rank(y.source) == 0
    ensures DistinctKeys([x, y]) && !OneWinner([x, y], SlotOf(x))
    ensures Best([x, y], SlotOf(x)) == Some(CandidateOf(x)) && Best([y, x], SlotOf(x)) == Some(CandidateOf(y))
  {
    LessIrreflexive(x.value);
    var s := SlotOf(x);
    assert Unbeaten([x, y], s, [x, y][0]) && Unbeaten([x, y], s, [x, y][1]);
    FrontedWins([x, y], s, 0);
    FrontedWins([x, y], s, 1);
    assert Fronted([x, y], 0) == [x, y] && Fronted([x, y], 1) == [y, x];
  }
}
