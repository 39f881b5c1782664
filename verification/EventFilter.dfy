/** Building and running the filtered event query (internal/store/event.go,
    ListEventsFiltered): conditions and arguments are appended side by side, and
    the database binds arguments to placeholders by position. */
module EventFilter {
  import opened Options
  import opened TextOrder
  import opened LikeEscape

  /** An event with its device's current name, NULL being None. */
  datatype Row = Row(id: int, ts: string, typ: string, name: Option<string>, details: string)

  datatype Filter = Filter(typ: string, prefixes: seq<string>, notPrefixes: seq<string>, device: string,
                           since: string, until: string, beforeId: int, limit: int)

  datatype Arg = Text(text: string) | Num(num: int)

  /** One AND-ed condition of the query. */
  datatype Cond = TypeIs | DetailsLikeAny(n: nat) | DetailsNotLike | NameLike | NotBefore | Before | IdBelow

  datatype Query = Query(conds: seq<Cond>, args: seq<Arg>)

  function Arity(c: Cond): nat {
    if c.DetailsLikeAny? then c.n else 1
  }

  function TotalArity(conds: seq<Cond>): nat {
    if conds == [] then 0 else Arity(conds[0]) + TotalArity(conds[1..])
  }

  predicate LikeArg(text: string, a: Arg, fold: bool) {
    a.Text? && Like(a.text, text, fold)
  }

  /** A condition on a row, given its own arguments. Comparing with NULL is not true. */
  predicate Holds(c: Cond, args: seq<Arg>, row: Row, fold: bool)
    requires |args| == Arity(c)
  {
    match c
    case TypeIs => args[0] == Text(row.typ)
    case DetailsLikeAny(n) => exists k :: 0 <= k < n && LikeArg(row.details, args[k], fold)
    case DetailsNotLike => args[0].Text? && !LikeArg(row.details, args[0], fold)
    case NameLike => row.name.Some? && LikeArg(Lower(row.name.value), args[0], fold)
    case NotBefore => args[0].Text? && !Less(row.ts, args[0].text)
    case Before => args[0].Text? && Less(row.ts, args[0].text)
    case IdBelow => args[0].Num? && row.id < args[0].num
  }

  /** The WHERE clause: placeholders take the arguments in order. */
  predicate Where(conds: seq<Cond>, args: seq<Arg>, row: Row, fold: bool) {
    conds == [] || (|args| >= Arity(conds[0]) && Holds(conds[0], args[..Arity(conds[0])], row, fold)
                    && Where(conds[1..], args[Arity(conds[0])..], row, fold))
  }

  ghost predicate Fits(q: Query) {
    TotalArity(q.conds) == |q.args|
  }

  function Extended(q: Query, c: Cond, args: seq<Arg>): Query {
    Query(q.conds + [c], q.args + args)
  }

  /** Appending a condition with its arguments at the end leaves every earlier binding alone. */
  lemma {:induction false} AppendedBinds(q: Query, c: Cond, args: seq<Arg>, row: Row, fold: bool)
    requires Fits(q) && |args| == Arity(c)
    ensures Fits(Extended(q, c, args))
    ensures Where(Extended(q, c, args).conds, Extended(q, c, args).args, row, fold)
        <==> Where(q.conds, q.args, row, fold) && Holds(c, args, row, fold)
    decreases |q.conds|
  {
    var e := Extended(q, c, args);
    if q.conds == [] {
      assert e.conds == [c] && e.args == args && [c][1..] == [];
      assert args[..Arity(c)] == args;
    } else {
      var k := Arity(q.conds[0]);
      AppendedBinds(Query(q.conds[1..], q.args[k..]), c, args, row, fold);
      assert e.conds[1..] == q.conds[1..] + [c];
      assert e.args[k..] == q.args[k..] + args && e.args[..k] == q.args[..k];
    }
  }

  // ---- What a filter means

  /** Zero fields do not filter. */
  ghost predicate Matches(f: Filter, row: Row, fold: bool) {
    && (f.typ != "" ==> row.typ == f.typ)
    && (f.prefixes != [] ==> exists p :: p in f.prefixes && StartsWith(row.details, p, fold))
    && (forall p :: p in f.notPrefixes ==> !StartsWith(row.details, p, fold))
    && (f.device != "" ==> row.name.Some? && Contains(Lower(row.name.value), Lower(f.device), false))
    && (f.since != "" ==> !Less(row.ts, f.since))
    && (f.until != "" ==> Less(row.ts, f.until))
    && (f.beforeId > 0 ==> row.id < f.beforeId)
  }

  function PrefixArgs(prefixes: seq<string>): (args: seq<Arg>)
    ensures |args| == |prefixes|
    ensures forall k :: 0 <= k < |args| ==> args[k] == Text(Escape(prefixes[k]) + "%")
  {
    seq(|prefixes|, k requires 0 <= k < |prefixes| => Text(Escape(prefixes[k]) + "%"))
  }

  lemma AnyPrefix(prefixes: seq<string>, row: Row, fold: bool)
    ensures Holds(DetailsLikeAny(|prefixes|), PrefixArgs(prefixes), row, fold)
        <==> exists p :: p in prefixes && StartsWith(row.details, p, fold)
  {
    var args := PrefixArgs(prefixes);
    forall k | 0 <= k < |prefixes|
      ensures LikeArg(row.details, args[k], fold) <==> StartsWith(row.details, prefixes[k], fold)
    {
      PrefixPattern(prefixes[k], row.details, fold);
    }
    if p :| p in prefixes && StartsWith(row.details, p, fold) {
      var k :| 0 <= k < |prefixes| && prefixes[k] == p;
      assert LikeArg(row.details, args[k], fold);
    }
  }

  /** The query selects the rows the filter means. */
  ghost predicate Selects(q: Query, f: Filter, fold: bool) {
    Fits(q) && forall row :: Where(q.conds, q.args, row, fold) <==> Matches(f, row, fold)
  }

  lemma ExtendedSelects(q: Query, f: Filter, c: Cond, args: seq<Arg>, g: Filter, fold: bool)
    requires Selects(q, f, fold) && |args| == Arity(c)
    requires forall row :: Matches(g, row, fold) <==> Matches(f, row, fold) && Holds(c, args, row, fold)
    ensures Selects(Extended(q, c, args), g, fold)
  {
    AppendedBinds(q, c, args, Row(0, "", "", None, ""), fold);
    forall row
      ensures Where(Extended(q, c, args).conds, Extended(q, c, args).args, row, fold) <==> Matches(g, row, fold)
    {
      AppendedBinds(q, c, args, row, fold);
    }
  }

  function NoFilter(limit: int): Filter {
    Filter("", [], [], "", "", "", 0, limit)
  }

  method AddType(f: Filter, ghost fold: bool) returns (r: Query)
    ensures Selects(r, NoFilter(f.limit).(typ := f.typ), fold)
  {
    r := Query([], []);
    assert Selects(r, NoFilter(f.limit), fold);
    if f.typ != "" {
      ExtendedSelects(r, NoFilter(f.limit), TypeIs, [Text(f.typ)], NoFilter(f.limit).(typ := f.typ), fold);
      r := Extended(r, TypeIs, [Text(f.typ)]);
    }
  }

  method AddPrefixes(q: Query, ghost f: Filter, prefixes: seq<string>, ghost fold: bool) returns (r: Query)
    requires Selects(q, f, fold) && f.prefixes == []
    ensures Selects(r, f.(prefixes := prefixes), fold)
  {
    r := q;
    if |prefixes| > 0 {
      var args: seq<Arg> := [];
      for n := 0 to |prefixes|
        invariant args == PrefixArgs(prefixes)[..n]
      {
        args := args + [Text(Escape(prefixes[n]) + "%")];
      }
      assert args == PrefixArgs(prefixes);
      forall row {
        AnyPrefix(prefixes, row, fold);
      }
      ExtendedSelects(q, f, DetailsLikeAny(|prefixes|), args, f.(prefixes := prefixes), fold);
      r := Extended(q, DetailsLikeAny(|prefixes|), args);
    }
  }

  lemma OneMoreExclusion(f: Filter, p: string, row: Row, fold: bool)
    ensures Matches(f.(notPrefixes := f.notPrefixes + [p]), row, fold)
        <==> Matches(f, row, fold) && Holds(DetailsNotLike, [Text(Escape(p) + "%")], row, fold)
  {
    PrefixPattern(p, row.details, fold);
    assert forall q :: q in f.notPrefixes + [p] <==> q in f.notPrefixes || q == p;
  }

  method AddNotPrefixes(q: Query, ghost f: Filter, notPrefixes: seq<string>, ghost fold: bool) returns (r: Query)
    requires Selects(q, f, fold) && f.notPrefixes == []
    ensures Selects(r, f.(notPrefixes := notPrefixes), fold)
  {
    r := q;
    for n := 0 to |notPrefixes|
      invariant Selects(r, f.(notPrefixes := notPrefixes[..n]), fold)
    {
      var p := notPrefixes[n];
      ghost var g := f.(notPrefixes := notPrefixes[..n]);
      assert notPrefixes[..n + 1] == notPrefixes[..n] + [p];
      forall row {
        OneMoreExclusion(g, p, row, fold);
      }
      ExtendedSelects(r, g, DetailsNotLike, [Text(Escape(p) + "%")], g.(notPrefixes := notPrefixes[..n + 1]), fold);
      r := Extended(r, DetailsNotLike, [Text(Escape(p) + "%")]);
    }
    assert notPrefixes[..|notPrefixes|] == notPrefixes;
  }

  lemma DevicePattern(f: Filter, device: string, row: Row, fold: bool)
    requires f.device == "" && device != ""
    ensures Matches(f.(device := device), row, fold)
        <==> Matches(f, row, fold) && Holds(NameLike, [Text("%" + Escape(Lower(device)) + "%")], row, fold)
  {
    if row.name.Some? {
      SubstringPattern(Lower(device), Lower(row.name.value), fold);
      LowerTextsFoldAlike(row.name.value, device, fold);
    }
  }

  method AddDevice(q: Query, ghost f: Filter, device: string, ghost fold: bool) returns (r: Query)
    requires Selects(q, f, fold) && f.device == ""
    ensures Selects(r, f.(device := device), fold)
  {
    r := q;
    if device != "" {
      var arg := Text("%" + Escape(Lower(device)) + "%");
      forall row {
        DevicePattern(f, device, row, fold);
      }
      ExtendedSelects(q, f, NameLike, [arg], f.(device := device), fold);
      r := Extended(q, NameLike, [arg]);
    }
  }

  method AddBounds(q: Query, ghost f: Filter, since: string, until: string, beforeId: int, ghost fold: bool)
      returns (r: Query)
    requires Selects(q, f, fold) && f.since == "" && f.until == "" && f.beforeId == 0
    ensures Selects(r, f.(since := since, until := until, beforeId := beforeId), fold)
  {
    r := q;
    ghost var g := f.(since := since);
    if since != "" {
      ExtendedSelects(r, f, NotBefore, [Text(since)], g, fold);
      r := Extended(r, NotBefore, [Text(since)]);
    }
    ghost var h := g.(until := until);
    if until != "" {
      ExtendedSelects(r, g, Before, [Text(until)], h, fold);
      r := Extended(r, Before, [Text(until)]);
    }
    if beforeId > 0 {
      ExtendedSelects(r, h, IdBelow, [Num(beforeId)], h.(beforeId := beforeId), fold);
      r := Extended(r, IdBelow, [Num(beforeId)]);
    }
  }

  // ---- Running it

  ghost predicate NewestFirst(rows: seq<Row>) {
    (forall i, j :: 0 <= i < j < |rows| ==> rows[i].id > rows[j].id) && forall r :: r in rows ==> r.id > 0
  }

  function Kept(rows: seq<Row>, p: Row -> bool): seq<Row> {
    if rows == [] then []
    else if p(rows[0]) then [rows[0]] + Kept(rows[1..], p)
    else Kept(rows[1..], p)
  }

  /** SELECT ... ORDER BY id DESC, on a table listed newest first. */
  function Selected(q: Query, rows: seq<Row>, fold: bool): seq<Row> {
    Kept(rows, row => Where(q.conds, q.args, row, fold))
  }

  /** The rows the filter means, newest first. */
  ghost function Matching(f: Filter, rows: seq<Row>, fold: bool): seq<Row> {
    Kept(rows, row => Matches(f, row, fold))
  }

  lemma {:induction false} KeptAlike(rows: seq<Row>, p: Row -> bool, q: Row -> bool)
    requires forall row :: p(row) <==> q(row)
    ensures Kept(rows, p) == Kept(rows, q)
  {
    if rows != [] {
      KeptAlike(rows[1..], p, q);
    }
  }

  lemma SelectedIsMatching(q: Query, f: Filter, rows: seq<Row>, fold: bool)
    requires Selects(q, f, fold)
    ensures Selected(q, rows, fold) == Matching(f, rows, fold)
  {
    KeptAlike(rows, row => Where(q.conds, q.args, row, fold), row => Matches(f, row, fold));
  }

  function EffectiveLimit(limit: int): nat {
    if limit <= 0 then 50 else limit
  }

  /** LIMIT n. */
  function Limited(rows: seq<Row>, n: nat): seq<Row> {
    if |rows| <= n then rows else rows[..n]
  }

  method BuildQuery(f: Filter, ghost fold: bool) returns (q: Query)
    ensures Selects(q, f, fold)
  {
    q := AddType(f, fold);
    ghost var g := NoFilter(f.limit).(typ := f.typ);
    q := AddPrefixes(q, g, f.prefixes, fold);
    g := g.(prefixes := f.prefixes);
    q := AddNotPrefixes(q, g, f.notPrefixes, fold);
    g := g.(notPrefixes := f.notPrefixes);
    q := AddDevice(q, g, f.device, fold);
    g := g.(device := f.device);
    q := AddBounds(q, g, f.since, f.until, f.beforeId, fold);
  }

  /** One row more than a page is fetched, to tell whether there are more. */
  method ListEventsFiltered(f: Filter, table: seq<Row>, fold: bool) returns (page: seq<Row>, more: bool)
    ensures page == Limited(Matching(f, table, fold), EffectiveLimit(f.limit))
    ensures more <==> |Matching(f, table, fold)| > EffectiveLimit(f.limit)
  {
    var q := BuildQuery(f, fold);
    SelectedIsMatching(q, f, table, fold);
    var limit := EffectiveLimit(f.limit);
    page := Limited(Selected(q, table, fold), limit + 1);
    more := |page| > limit;
    if more {
      page := page[..limit];
    }
  }

  /** A page has as many events as were asked for, 50 if nothing was, as long as
      that many match; it starts with the newest match, and more says if any is left out. */
  lemma PagesAreFull(f: Filter, table: seq<Row>, fold: bool, page: seq<Row>, more: bool)
    requires page == Limited(Matching(f, table, fold), EffectiveLimit(f.limit))
    requires more <==> |Matching(f, table, fold)| > EffectiveLimit(f.limit)
    ensures forall r :: r in Matching(f, table, fold) <==> r in table && Matches(f, r, fold)
    ensures var all, asked := Matching(f, table, fold), if f.limit > 0 then f.limit else 50;
            && |page| == (if |all| < asked then |all| else asked)
            && page == all[..|page|]
            && (more <==> |all| > asked)
  {
    forall r ensures r in Matching(f, table, fold) <==> r in table && Matches(f, r, fold) {
      KeptAreRows(table, row => Matches(f, row, fold), r);
    }
  }

  // ---- Paging backwards

  lemma {:induction false} KeptAreRows(rows: seq<Row>, p: Row -> bool, r: Row)
    ensures r in Kept(rows, p) <==> r in rows && p(r)
  {
    if rows != [] {
      KeptAreRows(rows[1..], p, r);
      assert rows == [rows[0]] + rows[1..];
    }
  }

  /** Keeping only rows older than some id leaves out exactly the newer ones kept before. */
  lemma {:induction false} OlderKept(rows: seq<Row>, p: Row -> bool, q: Row -> bool, id: int, n: nat)
    requires (forall row :: q(row) <==> p(row) && row.id < id) && n <= |Kept(rows, p)|
    requires forall i :: 0 <= i < |Kept(rows, p)| ==> (i < n <==> Kept(rows, p)[i].id >= id)
    ensures Kept(rows, q) == Kept(rows, p)[n..]
  {
    if rows != [] {
      var all, rest := Kept(rows, p), Kept(rows[1..], p);
      if p(rows[0]) {
        assert all[0] == rows[0] && forall i :: 0 <= i < |rest| ==> rest[i] == all[i + 1];
        OlderKept(rows[1..], p, q, id, if n > 0 then n - 1 else 0);
      } else {
        OlderKept(rows[1..], p, q, id, n);
      }
    }
  }

  lemma {:induction false} KeptStaysSorted(rows: seq<Row>, p: Row -> bool)
    requires NewestFirst(rows)
    ensures NewestFirst(Kept(rows, p))
  {
    if rows != [] {
      KeptStaysSorted(rows[1..], p);
      forall r | r in Kept(rows[1..], p)
        ensures r in rows && r.id < rows[0].id
      {
        KeptAreRows(rows[1..], p, r);
        var k :| 1 <= k < |rows| && rows[k] == r;
      }
    }
  }

  /** Reading on from the last event of a full page, no match is lost or shown twice. */
  lemma NextPageContinues(f: Filter, table: seq<Row>, fold: bool)
    requires NewestFirst(table) && |Matching(f, table, fold)| > EffectiveLimit(f.limit)
    ensures var all, limit := Matching(f, table, fold), EffectiveLimit(f.limit);
            all == Limited(all, limit) + Matching(f.(beforeId := all[limit - 1].id), table, fold)
  {
    var all, limit := Matching(f, table, fold), EffectiveLimit(f.limit);
    var last := all[limit - 1];
    var g := f.(beforeId := last.id);
    var p, q := (row => Matches(f, row, fold)), (row => Matches(g, row, fold));
    KeptAreRows(table, p, last);
    KeptStaysSorted(table, p);
    assert last in all;
    forall row ensures q(row) <==> p(row) && row.id < last.id {
      OlderMatch(f, last.id, row, fold);
    }
    OlderKept(table, p, q, last.id, limit);
    assert all == all[..limit] + all[limit..];
  }

  lemma OlderMatch(f: Filter, id: int, row: Row, fold: bool)
    requires id > 0 && (f.beforeId > 0 ==> id < f.beforeId)
    ensures Matches(f.(beforeId := id), row, fold) <==> Matches(f, row, fold) && row.id < id
  {
  }
}
