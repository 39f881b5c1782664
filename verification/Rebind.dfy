/** Rewriting `?` placeholders into `$n` (internal/store/dialect.go, rebind). */
module Rebind {
  import opened TextOrder

  datatype Dialect = SQLite | Postgres

  /** A query as the database reads it: text, and the numbered argument a placeholder stands for. */
  datatype Token = Text(c: char) | Argument(n: nat)

  function DigitValue(c: char): nat
    requires IsDigit(c)
  {
    c as int - '0' as int
  }

  // ---- Numbers in decimal

  function Decimal(n: nat): (s: string)
    ensures s != "" && forall c :: c in s ==> IsDigit(c)
  {
    (if n < 10 then "" else Decimal(n / 10)) + [(n % 10) as char + '0']
  }

  function ValueOf(digits: string): nat
    requires forall c :: c in digits ==> IsDigit(c)
  {
    if digits == "" then 0
    else
      var last := digits[|digits| - 1];
      assert IsDigit(last);
      10 * ValueOf(digits[..|digits| - 1]) + DigitValue(last)
  }

  lemma {:induction false} DecimalValue(n: nat)
    ensures ValueOf(Decimal(n)) == n
  {
    var s := Decimal(n);
    if n >= 10 {
      DecimalValue(n / 10);
      assert s[..|s| - 1] == Decimal(n / 10);
    } else {
      assert s[..|s| - 1] == "";
    }
  }

  lemma {:induction false} MoreDigitsIsMore(s: string, t: string)
    requires (forall c :: c in s + t ==> IsDigit(c)) && t != ""
    ensures (forall c :: c in s ==> IsDigit(c)) && (ValueOf(s) > 0 ==> ValueOf(s + t) > ValueOf(s))
  {
    forall c | c in s
      ensures IsDigit(c)
    {
      assert c in s + t;
    }
    var u := s + t;
    var most := t[..|t| - 1];
    assert u[..|u| - 1] == s + most && u != "";
    assert forall c :: c in s + most ==> c in u;
    assert ValueOf(u) >= 10 * ValueOf(s + most) by {
      assert u[|u| - 1] in u;
    }
    if most == "" {
      assert s + most == s;
    } else {
      forall c | c in s + most
        ensures IsDigit(c)
      {
        assert c in u[..|u| - 1] && c in u;
      }
      MoreDigitsIsMore(s, most);
    }
  }

  /** The digits a text starts with. */
  function DigitRun(s: string): (run: string)
    ensures run <= s && forall c :: c in run ==> IsDigit(c)
    ensures |run| < |s| ==> !IsDigit(s[|run|])
  {
    if s == "" || !IsDigit(s[0]) then "" else [s[0]] + DigitRun(s[1..])
  }

  lemma {:induction false} RunOfDigitsAnd(s: string, t: string)
    requires forall c :: c in s ==> IsDigit(c)
    ensures DigitRun(s + t) == s + DigitRun(t)
  {
    if s == "" {
      assert s + t == t;
    } else {
      assert (s + t)[1..] == s[1..] + t;
      RunOfDigitsAnd(s[1..], t);
    }
  }

  // ---- What a query means

  /** With `?` placeholders: outside literals, the n-th stands for the n-th argument. */
  function Marked(q: string, inLiteral: bool, n: nat): seq<Token> {
    if q == "" then []
    else if q[0] == '\'' then [Text(q[0])] + Marked(q[1..], !inLiteral, n)
    else if q[0] == '?' && !inLiteral then [Argument(n + 1)] + Marked(q[1..], inLiteral, n + 1)
    else [Text(q[0])] + Marked(q[1..], inLiteral, n)
  }

  /** With `$n` placeholders: outside literals, `$` takes all the digits after it. */
  function Numbered(q: string, inLiteral: bool): seq<Token>
    decreases |q|
  {
    if q == "" then []
    else if q[0] == '\'' then [Text(q[0])] + Numbered(q[1..], !inLiteral)
    else if q[0] == '$' && !inLiteral && DigitRun(q[1..]) != "" then
      [Argument(ValueOf(DigitRun(q[1..])))] + Numbered(q[1 + |DigitRun(q[1..])|..], inLiteral)
    else [Text(q[0])] + Numbered(q[1..], inLiteral)
  }

  function Rebound(q: string, inLiteral: bool, n: nat): string {
    if q == "" then ""
    else if q[0] == '\'' then [q[0]] + Rebound(q[1..], !inLiteral, n)
    else if q[0] == '?' && !inLiteral then ['$'] + (Decimal(n + 1) + Rebound(q[1..], inLiteral, n + 1))
    else [q[0]] + Rebound(q[1..], inLiteral, n)
  }

  /** Outside literals no digit directly follows a `?` or a `$`. */
  predicate IsClean(q: string, inLiteral: bool) {
    q == "" || (IsClean(q[1..], if q[0] == '\'' then !inLiteral else inLiteral)
                && (!inLiteral && q[0] in "?$" && |q| > 1 ==> !IsDigit(q[1])))
  }

  lemma ReboundStart(q: string, inLiteral: bool, n: nat)
    ensures DigitRun(Rebound(q, inLiteral, n)) == "" <==> (q != "" ==> !IsDigit(q[0]))
  {
  }

  lemma DollarReads(after: string, run: string, left: string)
    requires run == DigitRun(after) && run != "" && left == after[|run|..]
    ensures Numbered(['$'] + after, false) == [Argument(ValueOf(run))] + Numbered(left, false)
  {
    var q := ['$'] + after;
    assert q[1..] == after && q[1 + |run|..] == left;
  }

  lemma SkipsBoth(a: string, b: string, k: nat)
    requires k <= |b|
    ensures (a + b)[|a| + k..] == b[k..]
  {
  }

  /** A placeholder takes its own digits and whatever digits follow them. */
  lemma PlaceholderReads(n: nat, rest: string) returns (run: string)
    ensures run == DigitRun(Decimal(n) + rest) == Decimal(n) + DigitRun(rest)
    ensures Numbered(['$'] + (Decimal(n) + rest), false)
        == [Argument(ValueOf(run))] + Numbered(rest[|DigitRun(rest)|..], false)
  {
    var digits := Decimal(n);
    RunOfDigitsAnd(digits, rest);
    run := DigitRun(digits + rest);
    SkipsBoth(digits, rest, |DigitRun(rest)|);
    DollarReads(digits + rest, run, rest[|DigitRun(rest)|..]);
  }

  /** The rewritten query means the same, argument by argument, exactly when
      no digit directly follows a `?` or a `$` outside literals. */
  lemma {:induction false} ReboundMeansTheSame(q: string, inLiteral: bool, n: nat)
    ensures Numbered(Rebound(q, inLiteral, n), inLiteral) == Marked(q, inLiteral, n) <==> IsClean(q, inLiteral)
    decreases |q|, 1
  {
    if q == "" {
    } else if q[0] == '?' && !inLiteral {
      PlaceholderMeansTheSame(q, n);
    } else {
      TextMeansTheSame(q, inLiteral, n);
    }
  }

  lemma {:induction false} PlaceholderMeansTheSame(q: string, n: nat)
    requires q != "" && q[0] == '?'
    ensures Numbered(Rebound(q, false, n), false) == Marked(q, false, n) <==> IsClean(q, false)
    decreases |q|, 0
  {
    var rest := Rebound(q[1..], false, n + 1);
    var marked := Marked(q[1..], false, n + 1);
    ReboundMeansTheSame(q[1..], false, n + 1);
    ReboundStart(q[1..], false, n + 1);
    var run := PlaceholderReads(n + 1, rest);
    DecimalValue(n + 1);
    assert Rebound(q, false, n) == ['$'] + (Decimal(n + 1) + rest);
    assert Marked(q, false, n) == [Argument(n + 1)] + marked;
    if |q| > 1 && IsDigit(q[1]) {
      MoreDigitsIsMore(Decimal(n + 1), DigitRun(rest));
      assert Numbered(Rebound(q, false, n), false)[0] == Argument(ValueOf(run));
      assert Marked(q, false, n)[0] == Argument(n + 1);
    } else {
      assert run == Decimal(n + 1) && rest[0..] == rest;
      HeadsEqual(Argument(n + 1), Numbered(rest, false), marked);
    }
  }

  lemma HeadsEqual<T>(x: T, s: seq<T>, t: seq<T>)
    ensures [x] + s == [x] + t <==> s == t
  {
    assert ([x] + s)[1..] == s && ([x] + t)[1..] == t;
  }

  lemma {:induction false} TextMeansTheSame(q: string, inLiteral: bool, n: nat)
    requires q != "" && !(q[0] == '?' && !inLiteral)
    ensures Numbered(Rebound(q, inLiteral, n), inLiteral) == Marked(q, inLiteral, n) <==> IsClean(q, inLiteral)
    decreases |q|, 0
  {
    var after := if q[0] == '\'' then !inLiteral else inLiteral;
    var rest := Rebound(q[1..], after, n);
    var r := Rebound(q, inLiteral, n);
    assert r == [q[0]] + rest && r[1..] == rest;
    ReboundMeansTheSame(q[1..], after, n);
    ReboundStart(q[1..], after, n);
    if q[0] == '$' && !inLiteral && |q| > 1 && IsDigit(q[1]) {
      assert Numbered(r, inLiteral)[0].Argument?;
    } else {
      HeadsEqual(Text(q[0]), Numbered(rest, after), Marked(q[1..], after, n));
    }
  }

  /** A digit after a placeholder is taken into its number: the first argument becomes the fifteenth. */
  lemma DigitAfterPlaceholder()
    ensures Marked("?5", false, 0) == [Argument(1), Text('5')]
    ensures Rebound("?5", false, 0) == "$15" && Numbered("$15", false) == [Argument(15)]
  {
    assert "?5"[1..] == "5" && "5"[1..] == "" && "$15"[1..] == "15" && "15"[1..] == "5";
    assert Decimal(1) == "1";
    assert ['$'] + (Decimal(1) + "5") == "$15";
    assert DigitRun("5") == "5" && DigitRun("15") == "15";
    assert "15"[..1] == "1" && "1"[..0] == "" && "$15"[3..] == "";
    assert ValueOf("1") == 1 && ValueOf("15") == 15;
  }

  /** A query with `?` placeholders back from its tokens. */
  function Rendered(tokens: seq<Token>): string {
    if tokens == [] then ""
    else [if tokens[0].Text? then tokens[0].c else '?'] + Rendered(tokens[1..])
  }

  lemma {:induction false} MarkedRenders(q: string, inLiteral: bool, n: nat)
    ensures Rendered(Marked(q, inLiteral, n)) == q
  {
    if q != "" {
      var after := if q[0] == '\'' then !inLiteral else inLiteral;
      var m := if q[0] == '?' && !inLiteral then n + 1 else n;
      MarkedRenders(q[1..], after, m);
      assert Marked(q, inLiteral, n)[1..] == Marked(q[1..], after, m);
    }
  }

  /** The rewriting of a clean query can be undone. */
  lemma ReboundCanBeUndone(q: string)
    requires IsClean(q, false)
    ensures Rendered(Numbered(Rebound(q, false, 0), false)) == q
  {
    ReboundMeansTheSame(q, false, 0);
    MarkedRenders(q, false, 0);
  }

  /** The text inside literals, quotes included, is left as it is: reading both
      queries for their literals alone gives the same. */
  function Literals(q: string, inLiteral: bool): string {
    if q == "" then ""
    else if q[0] == '\'' then [q[0]] + Literals(q[1..], !inLiteral)
    else (if inLiteral then [q[0]] else "") + Literals(q[1..], inLiteral)
  }

  lemma {:induction false} NoQuotesNoLiterals(s: string, t: string)
    requires '\'' !in s
    ensures Literals(s + t, false) == Literals(t, false)
  {
    if s == "" {
      assert s + t == t;
    } else {
      assert (s + t)[1..] == s[1..] + t;
      NoQuotesNoLiterals(s[1..], t);
    }
  }

  lemma {:induction false} LiteralsAreKept(q: string, inLiteral: bool, n: nat)
    ensures Literals(Rebound(q, inLiteral, n), inLiteral) == Literals(q, inLiteral)
  {
    if q != "" {
      if q[0] == '?' && !inLiteral {
        LiteralsAreKept(q[1..], inLiteral, n + 1);
        var number := ['$'] + Decimal(n + 1);
        assert number + Rebound(q[1..], inLiteral, n + 1) == Rebound(q, inLiteral, n);
        NoQuotesNoLiterals(number, Rebound(q[1..], inLiteral, n + 1));
      } else {
        var after := if q[0] == '\'' then !inLiteral else inLiteral;
        LiteralsAreKept(q[1..], after, n);
        assert Rebound(q, inLiteral, n)[1..] == Rebound(q[1..], after, n);
      }
    }
  }

  // ---- The scan

  lemma {:induction false} NothingToRebind(q: string, inLiteral: bool, n: nat)
    requires '?' !in q
    ensures Rebound(q, inLiteral, n) == q
  {
    if q != "" {
      NothingToRebind(q[1..], if q[0] == '\'' then !inLiteral else inLiteral, n);
    }
  }

  lemma Regroup(r: string, a: string, b: string)
    ensures r + (a + b) == r + a + b
  {
  }

  method Scan(q: string) returns (r: string)
    ensures r == Rebound(q, false, 0)
  {
    r := "";
    var inLiteral, n := false, 0;
    for i := 0 to |q|
      invariant Rebound(q, false, 0) == r + Rebound(q[i..], inLiteral, n)
    {
      var c := q[i];
      assert q[i..][1..] == q[i + 1..];
      if c == '\'' {
        Regroup(r, [c], Rebound(q[i + 1..], !inLiteral, n));
        inLiteral := !inLiteral;
        r := r + [c];
      } else if c == '?' && !inLiteral {
        Regroup(r, ['$'] + Decimal(n + 1), Rebound(q[i + 1..], inLiteral, n + 1));
        Regroup(['$'], Decimal(n + 1), Rebound(q[i + 1..], inLiteral, n + 1));
        n := n + 1;
        r := r + (['$'] + Decimal(n));
      } else {
        Regroup(r, [c], Rebound(q[i + 1..], inLiteral, n));
        r := r + [c];
      }
    }
  }

  method RebindQuery(d: Dialect, q: string) returns (r: string)
    ensures d == SQLite ==> r == q
    ensures d == Postgres ==> r == Rebound(q, false, 0)
    ensures d == Postgres ==> (Numbered(r, false) == Marked(q, false, 0) <==> IsClean(q, false))
  {
    ReboundMeansTheSame(q, false, 0);
    if d != Postgres {
      return q;
    }
    if '?' !in q {
      NothingToRebind(q, false, 0);
      return q;
    }
    r := Scan(q);
  }
}
