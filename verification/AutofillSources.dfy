/** The local hint sources (internal/autofill/sources.go). The rule tables are
    data: what they say about a hostname label is a parameter. */
module AutofillSources {
  import opened AutofillModel
  import opened TextOrder
  import opened AutofillStore

  /** An input of the hostname rules; `what` tells a device's name from a hostname. */
  datatype Named = Named(what: string, value: string)

  /** What does not change between passes: the hints of the MAC and port tables,
      the interfaces' hostnames, and the hostname rules by label. */
  datatype Env = Env(oui: seq<Hint>, ports: seq<Hint>, hostNames: seq<string>, rules: string -> seq<Hint>)

  predicate SameKey(a: Hint, b: Hint) {
    a.field == b.field && a.value == b.value
  }

  /** Where a field and value stand in a list, or its length. */
  function IndexOf(hints: seq<Hint>, h: Hint): (i: nat)
    ensures i <= |hints|
    ensures i < |hints| ==> SameKey(hints[i], h)
    ensures forall j :: 0 <= j < i ==> !SameKey(hints[j], h)
  {
    if hints == [] then 0
    else if SameKey(hints[0], h) then 0
    else 1 + IndexOf(hints[1..], h)
  }

  function KeepBest(out: seq<Hint>, h: Hint): seq<Hint> {
    var i := IndexOf(out, h);
    if i == |out| then out + [h]
    else if h.confidence > out[i].confidence then out[i := h]
    else out
  }

  /** The hints with repetitions of a field and value merged into the surest one. */
  function Deduped(hints: seq<Hint>): seq<Hint> {
    if hints == [] then []
    else KeepBest(Deduped(hints[..|hints| - 1]), hints[|hints| - 1])
  }

  /** For every hint in a there is one in b for the same field and value, at least as confident. */
  ghost predicate Covers(b: seq<Hint>, a: seq<Hint>) {
    forall f :: f in a ==> exists g :: g in b && SameKey(g, f) && g.confidence >= f.confidence
  }

  lemma CoversChains(c: seq<Hint>, b: seq<Hint>, a: seq<Hint>)
    requires Covers(c, b) && Covers(b, a)
    ensures Covers(c, a)
  {
    forall f | f in a
      ensures exists g :: g in c && SameKey(g, f) && g.confidence >= f.confidence
    {
      var e :| e in b && SameKey(e, f) && e.confidence >= f.confidence;
      var g :| g in c && SameKey(g, e) && g.confidence >= e.confidence;
    }
  }

  lemma CoversBoth(b: seq<Hint>, a: seq<Hint>, h: Hint)
    requires Covers(b, a) && Covers(b, [h])
    ensures Covers(b, a + [h])
  {
    assert forall f :: f in a + [h] ==> f in a || f in [h];
  }

  lemma KeepBestHolds(out: seq<Hint>, h: Hint)
    requires DistinctValues(out)
    ensures DistinctValues(KeepBest(out, h))
    ensures forall g :: g in KeepBest(out, h) ==> g in out || g == h
    ensures Covers(KeepBest(out, h), [h]) && Covers(KeepBest(out, h), out)
  {
    var r, i := KeepBest(out, h), IndexOf(out, h);
    assert i < |r| && r[i] in r && SameKey(r[i], h);
    forall f | f in out ensures exists g :: g in r && SameKey(g, f) && g.confidence >= f.confidence {
      var j :| 0 <= j < |out| && out[j] == f;
      assert r[j] in r;
    }
  }

  /** The result fits the hint table's key, holds only given hints, and for each
      given hint one for the same field and value at least as confident. */
  lemma {:induction false} DedupedFits(hints: seq<Hint>)
    ensures DistinctValues(Deduped(hints))
    ensures forall g :: g in Deduped(hints) ==> g in hints
    ensures Covers(Deduped(hints), hints)
  {
    if hints != [] {
      var init, h := hints[..|hints| - 1], hints[|hints| - 1];
      assert hints == init + [h];
      DedupedFits(init);
      KeepBestHolds(Deduped(init), h);
      CoversChains(Deduped(hints), Deduped(init), init);
      CoversBoth(Deduped(hints), init, h);
    }
  }

  /** Hint i is at least as sure as any for its field and value, and surer than those before it. */
  ghost predicate IsFirstSurest(hints: seq<Hint>, i: int) {
    && 0 <= i < |hints|
    && forall j :: 0 <= j < |hints| && SameKey(hints[j], hints[i]) ==>
         hints[j].confidence <= hints[i].confidence && (j < i ==> hints[j].confidence < hints[i].confidence)
  }

  lemma SurestAppended(hints: seq<Hint>, h: Hint, i: int)
    requires 0 <= i < |hints|
    ensures IsFirstSurest(hints + [h], i) <==>
              IsFirstSurest(hints, i) && (SameKey(h, hints[i]) ==> h.confidence <= hints[i].confidence)
  {
    var all := hints + [h];
    assert all[|hints|] == h && forall j :: 0 <= j < |hints| ==> all[j] == hints[j];
  }

  lemma SurestLast(hints: seq<Hint>, h: Hint)
    ensures IsFirstSurest(hints + [h], |hints|) <==>
              forall j :: 0 <= j < |hints| && SameKey(hints[j], h) ==> hints[j].confidence < h.confidence
  {
    var all := hints + [h];
    assert all[|hints|] == h && forall j :: 0 <= j < |hints| ==> all[j] == hints[j];
  }

  /** What is kept of each field and value is the first of the surest hints. */
  lemma {:induction false} DedupedKeepsFirstSurest(hints: seq<Hint>)
    ensures forall g :: g in Deduped(hints) ==> exists i :: IsFirstSurest(hints, i) && hints[i] == g
  {
    if hints != [] {
      var init, h := hints[..|hints| - 1], hints[|hints| - 1];
      assert hints == init + [h];
      DedupedKeepsFirstSurest(init);
      DedupedFits(init);
      forall g | g in Deduped(hints)
        ensures exists i :: IsFirstSurest(hints, i) && hints[i] == g
      {
        KeptIsFirstSurest(init, h, g);
      }
    }
  }

  lemma KeptIsFirstSurest(init: seq<Hint>, h: Hint, g: Hint)
    requires g in KeepBest(Deduped(init), h) && DistinctValues(Deduped(init)) && Covers(Deduped(init), init)
    requires forall f :: f in Deduped(init) ==> exists i :: IsFirstSurest(init, i) && init[i] == f
    ensures exists i :: IsFirstSurest(init + [h], i) && (init + [h])[i] == g
  {
    var out, all := Deduped(init), init + [h];
    var k := IndexOf(out, h);
    if (k < |out| && h.confidence <= out[k].confidence) || g != h {
      KeptFromBefore(out, h, g);
      var i :| IsFirstSurest(init, i) && init[i] == g;
      SurestAppended(init, h, i);
      assert all[i] == g;
    } else {
      BeatsTheOlder(init, h);
      SurestLast(init, h);
      assert all[|init|] == h;
    }
  }

  lemma BeatsTheOlder(init: seq<Hint>, h: Hint)
    requires DistinctValues(Deduped(init)) && Covers(Deduped(init), init)
    requires var k := IndexOf(Deduped(init), h); k < |Deduped(init)| ==> Deduped(init)[k].confidence < h.confidence
    ensures forall j :: 0 <= j < |init| && SameKey(init[j], h) ==> init[j].confidence < h.confidence
  {
    var out := Deduped(init);
    forall j | 0 <= j < |init| && SameKey(init[j], h)
      ensures init[j].confidence < h.confidence
    {
      assert init[j] in init;
      var f :| f in out && SameKey(f, init[j]) && f.confidence >= init[j].confidence;
      var n :| 0 <= n < |out| && out[n] == f;
    }
  }

  lemma KeptFromBefore(out: seq<Hint>, h: Hint, g: Hint)
    requires DistinctValues(out) && g in KeepBest(out, h)
    requires (IndexOf(out, h) < |out| && h.confidence <= out[IndexOf(out, h)].confidence) || g != h
    ensures g in out && (SameKey(h, g) ==> h.confidence <= g.confidence)
  {
    var k, r := IndexOf(out, h), KeepBest(out, h);
    var n :| 0 <= n < |r| && r[n] == g;
  }

  function Key(h: Hint): (Field, string) {
    (h.field, h.value)
  }

  ghost predicate IndexFits(index: map<(Field, string), nat>, out: seq<Hint>) {
    && (forall i :: 0 <= i < |out| ==> Key(out[i]) in index && index[Key(out[i])] == i)
    && (forall k :: k in index ==> index[k] < |out| && Key(out[index[k]]) == k)
  }

  lemma IndexFinds(index: map<(Field, string), nat>, out: seq<Hint>, h: Hint)
    requires IndexFits(index, out)
    ensures IndexOf(out, h) == if Key(h) in index then index[Key(h)] else |out|
  {
    if Key(h) in index {
      assert SameKey(out[index[Key(h)]], h);
    }
    if IndexOf(out, h) < |out| {
      assert Key(out[IndexOf(out, h)]) == Key(h);
    }
  }

  method Dedupe(hints: seq<Hint>) returns (out: seq<Hint>)
    ensures out == Deduped(hints)
  {
    var index: map<(Field, string), nat> := map[];
    out := [];
    for n := 0 to |hints|
      invariant out == Deduped(hints[..n])
      invariant IndexFits(index, out)
    {
      assert hints[..n + 1][..n] == hints[..n];
      var h := hints[n];
      IndexFinds(index, out, h);
      if Key(h) in index {
        var i := index[Key(h)];
        if h.confidence > out[i].confidence {
          out := out[i := h];
        }
        continue;
      }
      index := index[Key(h) := |out|];
      out := out + [h];
    }
    assert hints[..|hints|] == hints;
  }

  /** The part of a name before its first dot. */
  function FirstLabel(s: string): string {
    if s == [] || s[0] == '.' then [] else [s[0]] + FirstLabel(s[1..])
  }

  function WithDetail(hints: seq<Hint>, detail: string): (r: seq<Hint>)
    ensures |r| == |hints| && forall i :: 0 <= i < |r| ==> r[i] == hints[i].(detail := detail)
  {
    seq(|hints|, i requires 0 <= i < |hints| => hints[i].(detail := detail))
  }

  function NameHints(n: Named, rules: string -> seq<Hint>): seq<Hint> {
    if n.value == "" || IsPlaceholderName(n.value) then []
    else WithDetail(rules(FirstLabel(Lower(n.value))), n.what + " " + n.value)
  }

  function AllNameHints(names: seq<Named>, rules: string -> seq<Hint>): seq<Hint> {
    if names == [] then []
    else AllNameHints(names[..|names| - 1], rules) + NameHints(names[|names| - 1], rules)
  }

  /** Both loops of the hostname source; placeholder names give nothing. */
  method HostnameHints(names: seq<Named>, rules: string -> seq<Hint>) returns (out: seq<Hint>)
    ensures out == Deduped(AllNameHints(names, rules))
  {
    var all: seq<Hint> := [];
    for i := 0 to |names|
      invariant all == AllNameHints(names[..i], rules)
    {
      assert names[..i + 1][..i] == names[..i];
      var n := names[i];
      if n.value == "" || IsPlaceholderName(n.value) {
        continue;
      }
      all := all + WithDetail(rules(FirstLabel(Lower(n.value))), n.what + " " + n.value);
    }
    assert names[..|names|] == names;
    out := Dedupe(all);
  }

  /** The label is the text up to its first dot, or all of it. */
  predicate IsFirstLabel(s: string, head: string) {
    && '.' !in head && |head| <= |s| && s[..|head|] == head
    && (|head| < |s| ==> s[|head|] == '.')
  }

  lemma {:induction false} FirstLabelIs(s: string, head: string)
    ensures head == FirstLabel(s) <==> IsFirstLabel(s, head)
  {
    if s != [] && s[0] != '.' {
      if head != [] {
        FirstLabelIs(s[1..], head[1..]);
        LabelTail(s, head);
        assert head == [head[0]] + head[1..];
      }
    } else if s != [] && head != [] {
      NoDotFirst(s, head);
    }
  }

  lemma NoDotFirst(s: string, head: string)
    requires s != [] && s[0] == '.' && head != []
    ensures !IsFirstLabel(s, head)
  {
    if |head| <= |s| && s[..|head|] == head {
      assert s[..|head|][0] == '.' && head[0] in head;
    }
  }

  lemma LabelTail(s: string, head: string)
    requires s != [] && s[0] != '.' && head != []
    ensures IsFirstLabel(s, head) <==> head[0] == s[0] && IsFirstLabel(s[1..], head[1..])
  {
    assert head == [head[0]] + head[1..] && s == [s[0]] + s[1..];
    if |head| <= |s| {
      assert s[..|head|] == [s[0]] + s[1..][..|head| - 1];
    }
  }

  /** A hint the rules give for one of the names: not for a blank or made-up one,
      by the lower-case first label, with the name as evidence. */
  ghost predicate IsNameHint(n: Named, rules: string -> seq<Hint>, h: Hint) {
    && n.value != "" && !IsPlaceholderName(n.value)
    && exists head, g :: IsFirstLabel(Lower(n.value), head) && g in rules(head)
                          && h == g.(detail := n.what + " " + n.value)
  }

  lemma NameHintsAre(n: Named, rules: string -> seq<Hint>, h: Hint)
    ensures h in NameHints(n, rules) <==> IsNameHint(n, rules, h)
  {
    var first := FirstLabel(Lower(n.value));
    FirstLabelIs(Lower(n.value), first);
    var given := WithDetail(rules(first), n.what + " " + n.value);
    if h in NameHints(n, rules) {
      var i :| 0 <= i < |given| && given[i] == h;
      assert rules(first)[i] in rules(first);
    }
    if IsNameHint(n, rules, h) {
      var head, g :| IsFirstLabel(Lower(n.value), head) && g in rules(head)
          && h == g.(detail := n.what + " " + n.value);
      FirstLabelIs(Lower(n.value), head);
      var i :| 0 <= i < |rules(first)| && rules(first)[i] == g;
      assert given[i] == h;
    }
  }

  /** The hostname source's hints before deduplication are exactly those. */
  lemma {:induction false} AllNameHintsAre(names: seq<Named>, rules: string -> seq<Hint>, h: Hint)
    ensures h in AllNameHints(names, rules) <==> exists n :: n in names && IsNameHint(n, rules, h)
  {
    if names != [] {
      var init, last := names[..|names| - 1], names[|names| - 1];
      assert names == init + [last];
      assert forall n :: n in names <==> n in init || n == last;
      AllNameHintsAre(init, rules, h);
      NameHintsAre(last, rules, h);
    }
  }

  function NamesOf(deviceName: string, hostNames: seq<string>): seq<Named> {
    [Named("name", deviceName)] + seq(|hostNames|, i requires 0 <= i < |hostNames| => Named("hostname", hostNames[i]))
  }

  /** The sources a pass recomputes, in its order. */
  const LOCAL_SOURCES: seq<string> := ["oui", "hostname", "ports"]

  /** What a source says about a device of this name. */
  function LocalHints(env: Env, source: string, deviceName: string): seq<Hint> {
    if source == "oui" then Deduped(env.oui)
    else if source == "hostname" then Deduped(AllNameHints(NamesOf(deviceName, env.hostNames), env.rules))
    else Deduped(env.ports)
  }

  /** No local table names a device, as none in the source does. */
  ghost predicate NamesNothing(env: Env) {
    && (forall h :: h in env.oui ==> h.field != Column(Name))
    && (forall h :: h in env.ports ==> h.field != Column(Name))
    && (forall first, h :: h in env.rules(first) ==> h.field != Column(Name))
  }

  /** The tag names the local tables use. */
  ghost predicate SpeaksOnly(env: Env, words: iset<string>) {
    && (forall h :: h in env.oui && h.field.Tag? ==> h.value in words)
    && (forall h :: h in env.ports && h.field.Tag? ==> h.value in words)
    && (forall first, h :: h in env.rules(first) && h.field.Tag? ==> h.value in words)
  }

  lemma {:induction false} NameHintsFromRules(names: seq<Named>, rules: string -> seq<Hint>)
    ensures forall h :: h in AllNameHints(names, rules) ==>
              exists first, g :: g in rules(first) && h.field == g.field && h.value == g.value
  {
    if names != [] {
      var init, n := names[..|names| - 1], names[|names| - 1];
      NameHintsFromRules(init, rules);
      forall h | h in NameHints(n, rules)
        ensures exists first, g :: g in rules(first) && h.field == g.field && h.value == g.value
      {
        var first := FirstLabel(Lower(n.value));
        var i :| 0 <= i < |rules(first)| && h == rules(first)[i].(detail := n.what + " " + n.value);
        assert rules(first)[i] in rules(first);
      }
    }
  }

  lemma LocalHintsKept(env: Env, source: string, name: string, words: iset<string>)
    requires NamesNothing(env) && SpeaksOnly(env, words)
    ensures forall h :: h in LocalHints(env, source, name) ==>
        h.field != Column(Name) && (h.field.Tag? ==> h.value in words)
  {
    if source == "oui" {
      DedupedFits(env.oui);
    } else if source == "hostname" {
      NameHintsFromRules(NamesOf(name, env.hostNames), env.rules);
      DedupedFits(AllNameHints(NamesOf(name, env.hostNames), env.rules));
    } else {
      DedupedFits(env.ports);
    }
  }

  lemma LocalHintsDistinct(env: Env, source: string, name: string)
    ensures DistinctValues(LocalHints(env, source, name))
  {
    if source == "oui" {
      DedupedFits(env.oui);
    } else if source == "hostname" {
      DedupedFits(AllNameHints(NamesOf(name, env.hostNames), env.rules));
    } else {
      DedupedFits(env.ports);
    }
  }
}
