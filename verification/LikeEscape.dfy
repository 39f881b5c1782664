/** LIKE with ESCAPE '\' (section 8.5 of ISO/IEC 9075-2), and the escaping of
    text that goes into such a pattern (internal/store/event.go, likeEscape).
    PostgreSQL compares characters as they are; SQLite ignores the case of
    ASCII letters, which `fold` stands for. */
module LikeEscape {
  import opened TextOrder

  predicate SameChar(a: char, b: char, fold: bool) {
    a == b || (fold && Lower([a]) == Lower([b]))
  }

  predicate SameText(a: string, b: string, fold: bool) {
    |a| == |b| && forall i :: 0 <= i < |a| ==> SameChar(a[i], b[i], fold)
  }

  predicate Like(pattern: string, text: string, fold: bool) {
    if pattern == [] then text == []
    else if pattern[0] == '\\' then
      |pattern| > 1 && text != [] && SameChar(pattern[1], text[0], fold) && Like(pattern[2..], text[1..], fold)
    else if pattern[0] == '%' then exists k: nat :: k <= |text| && Like(pattern[1..], text[k..], fold)
    else text != [] && (pattern[0] == '_' || SameChar(pattern[0], text[0], fold)) && Like(pattern[1..], text[1..], fold)
  }

  function Escape(s: string): string {
    if s == [] then []
    else (if s[0] in "\\%_" then ['\\', s[0]] else [s[0]]) + Escape(s[1..])
  }

  predicate StartsWith(text: string, p: string, fold: bool) {
    |p| <= |text| && SameText(p, text[..|p|], fold)
  }

  predicate Contains(text: string, p: string, fold: bool) {
    exists k :: 0 <= k <= |text| && StartsWith(text[k..], p, fold)
  }

  /** An escaped text in a pattern matches itself and nothing else, whatever follows. */
  lemma {:induction false} EscapedMatchesItself(p: string, rest: string, text: string, fold: bool)
    ensures Like(Escape(p) + rest, text, fold) <==> StartsWith(text, p, fold) && Like(rest, text[|p|..], fold)
  {
    if p == [] {
      assert Escape(p) + rest == rest && text[0..] == text;
    } else {
      var pattern := Escape(p) + rest;
      if p[0] in "\\%_" {
        assert pattern[2..] == Escape(p[1..]) + rest;
      } else {
        assert pattern[1..] == Escape(p[1..]) + rest;
      }
      if text != [] {
        EscapedMatchesItself(p[1..], rest, text[1..], fold);
        HeadMatches(p, text, fold);
        if |p| <= |text| {
          assert text[1..][|p| - 1..] == text[|p|..];
        }
      }
    }
  }

  lemma HeadMatches(p: string, text: string, fold: bool)
    requires p != [] && text != []
    ensures StartsWith(text, p, fold) <==> SameChar(p[0], text[0], fold) && StartsWith(text[1..], p[1..], fold)
  {
    if |p| <= |text| {
      var t := text[..|p|];
      assert t[1..] == text[1..][..|p| - 1];
      if SameChar(p[0], text[0], fold) && SameText(p[1..], t[1..], fold) {
        forall i | 0 <= i < |p|
          ensures SameChar(p[i], t[i], fold)
        {
          assert i > 0 ==> p[i] == p[1..][i - 1] && t[i] == t[1..][i - 1];
        }
      }
    }
  }

  lemma PercentMatchesAll(text: string, fold: bool)
    ensures Like("%", text, fold)
  {
    assert "%"[1..] == [] && text[|text|..] == [];
    assert Like("%"[1..], text[|text|..], fold);
  }

  /** likeEscape(p)+"%" matches exactly the texts that start with p. */
  lemma PrefixPattern(p: string, text: string, fold: bool)
    ensures Like(Escape(p) + "%", text, fold) <==> StartsWith(text, p, fold)
  {
    EscapedMatchesItself(p, "%", text, fold);
    if StartsWith(text, p, fold) {
      PercentMatchesAll(text[|p|..], fold);
    }
  }

  /** "%"+likeEscape(p)+"%" matches exactly the texts that contain p. */
  lemma SubstringPattern(p: string, text: string, fold: bool)
    ensures Like("%" + Escape(p) + "%", text, fold) <==> Contains(text, p, fold)
  {
    var pattern := "%" + Escape(p) + "%";
    assert pattern[0] == '%' && pattern[1..] == Escape(p) + "%";
    forall k: nat | k <= |text|
      ensures Like(pattern[1..], text[k..], fold) <==> StartsWith(text[k..], p, fold)
    {
      PrefixPattern(p, text[k..], fold);
    }
  }

  /** Between lower-case texts, ignoring case changes nothing. */
  lemma {:induction false} LowerIsFixed(s: string)
    ensures |Lower(s)| == |s| && forall i :: 0 <= i < |s| ==>
        [Lower(s)[i]] == Lower([s[i]]) && Lower([Lower(s)[i]]) == [Lower(s)[i]]
  {
    if s != [] {
      LowerIsFixed(s[1..]);
      forall i | 0 <= i < |s|
        ensures [Lower(s)[i]] == Lower([s[i]]) && Lower([Lower(s)[i]]) == [Lower(s)[i]]
      {
        assert i > 0 ==> s[i] == s[1..][i - 1] && Lower(s)[i] == Lower(s[1..])[i - 1];
        assert [s[i]][1..] == [];
      }
    }
  }

  lemma LowerTextsFoldAlike(a: string, b: string, fold: bool)
    ensures Contains(Lower(a), Lower(b), fold) <==> Contains(Lower(a), Lower(b), false)
  {
    LowerIsFixed(a);
    LowerIsFixed(b);
    forall k | 0 <= k <= |Lower(a)|
      ensures StartsWith(Lower(a)[k..], Lower(b), fold) <==> StartsWith(Lower(a)[k..], Lower(b), false)
    {
      if StartsWith(Lower(a)[k..], Lower(b), fold) {
        forall i | 0 <= i < |b|
          ensures Lower(a)[k..][i] == Lower(b)[i]
        {
          assert SameChar(Lower(b)[i], Lower(a)[k..][..|b|][i], fold);
          assert Lower(a)[k..][i] == Lower(a)[k + i];
          assert [Lower(b)[i]] == [Lower(a)[k + i]];
        }
      }
    }
  }
}
