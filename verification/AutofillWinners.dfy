/** Which hint wins, said of the hints alone: the surest, then the one from the
    source that looked closest, then the one whose value comes first
    (internal/autofill/resolve.go:16-81). */
module AutofillWinners {
  import opened AutofillModel
  import opened TextOrder
  import opened AutofillResolve

  /** The sources, the closest first; all others come after them. */
  const CLOSEST_FIRST: seq<string> := ["mdns", "ssdp", "ports", "hostname", "oui"]

  predicate IsCloser(a: string, b: string) {
    exists i :: 0 <= i < |CLOSEST_FIRST| && CLOSEST_FIRST[i] == a && b !in CLOSEST_FIRST[..i + 1]
  }

  /** A hint that counts for the slot: at least 50 sure, with a value. */
  predicate Counts(h: Hint, slot: Slot) {
    && h.confidence >= 50 && h.value != ""
    && match slot
       case ColumnSlot(c) => h.field == Column(c)
       case TagSlot(n) => h.field == Tag && h.value == n
  }

  predicate IsSurer(g: Hint, h: Hint) {
    g.confidence > h.confidence || (g.confidence == h.confidence && IsCloser(g.source, h.source))
  }

  predicate IsAheadOf(g: Hint, h: Hint) {
    IsSurer(g, h) || (!IsSurer(h, g) && Less(g.value, h.value))
  }

  /** The candidate is the hint's, and no hint that counts is ahead of it. */
  ghost predicate Wins(hints: seq<Hint>, slot: Slot, h: Hint, c: Candidate) {
    && h in hints && Counts(h, slot) && c == Candidate(h.value, h.source, h.detail, h.confidence)
    && forall g :: g in hints && Counts(g, slot) ==> !IsAheadOf(g, h)
  }

  lemma CountsAre(h: Hint, slot: Slot)
    ensures Counts(h, slot) <==> Contends(h, slot)
  {
  }

  lemma CloserRanks(a: string, b: string)
    ensures IsCloser(a, b) <==> Rank(a) > Rank(b)
  {
    assert CLOSEST_FIRST[0] == "mdns" && CLOSEST_FIRST[1] == "ssdp" && CLOSEST_FIRST[2] == "ports";
    assert CLOSEST_FIRST[3] == "hostname" && CLOSEST_FIRST[4] == "oui";
    if Rank(a) > Rank(b) {
      assert CLOSEST_FIRST[5 - Rank(a)] == a;
      assert b !in CLOSEST_FIRST[..5 - Rank(a) + 1];
    }
  }

  lemma AheadIsBetter(g: Hint, h: Hint)
    ensures IsAheadOf(g, h) <==> Better(CandidateOf(g), CandidateOf(h))
  {
    CloserRanks(g.source, h.source);
    CloserRanks(h.source, g.source);
  }

  lemma BestWins(hints: seq<Hint>, slot: Slot)
    ensures Best(hints, slot).Some? <==> exists h :: h in hints && Counts(h, slot)
    ensures Best(hints, slot).Some? ==> exists h :: Wins(hints, slot, h, Best(hints, slot).value)
  {
    BestIsFirstMaximal(hints, slot);
    if Best(hints, slot).Some? {
      var h := BestIsUnbeaten(hints, slot);
      forall g | g in hints && Counts(g, slot) ensures !IsAheadOf(g, h) {
        AheadIsBetter(g, h);
      }
      assert Wins(hints, slot, h, Best(hints, slot).value);
    } else if h :| h in hints && Counts(h, slot) {
      assert Contends(h, slot);
    }
  }

  /** A column has a winner exactly when a hint for it counts, and the winner is
      one that no other is ahead of. */
  lemma ColumnWinner(hints: seq<Hint>, fields: map<Col, Candidate>, c: Col)
    requires IsFieldMap(hints, fields)
    ensures c in fields <==> exists h :: h in hints && Counts(h, ColumnSlot(c))
    ensures c in fields ==> exists h :: Wins(hints, ColumnSlot(c), h, fields[c])
  {
    BestWins(hints, ColumnSlot(c));
  }

  /** The same for each tag name; the list has one candidate for each. */
  lemma TagWinner(hints: seq<Hint>, tags: seq<Candidate>, n: string)
    requires IsTagList(hints, tags)
    ensures (exists c :: c in tags && c.value == n) <==> exists h :: h in hints && Counts(h, TagSlot(n))
    ensures forall c :: c in tags && c.value == n ==> exists h :: Wins(hints, TagSlot(n), h, c)
    ensures forall i, j :: 0 <= i < j < |tags| ==> Less(tags[i].value, tags[j].value)
  {
    BestWins(hints, TagSlot(n));
    if h :| h in hints && Counts(h, TagSlot(n)) {
      var c := Best(hints, TagSlot(n)).value;
      var g :| Wins(hints, TagSlot(n), g, c);
      assert c in tags && c.value == n;
    }
  }
}
