/** The names netis makes up, and how autofill recognises them
    (internal/autofill/resolve.go:83-88, internal/scan/engine.go:205-221,
    internal/leases/leases.go:108-111, internal/macaddr/macaddr.go). */
module MadeUpNames {
  import opened Options
  import opened TextOrder
  import opened AutofillModel
  import Inventory
  import Sweep
  import Leases

  /** Hex digits, colons and dots, as MACs and addresses are written. */
  predicate IsAddressText(s: string) {
    s != "" && forall c :: c in s ==> c in "0123456789abcdefABCDEF:."
  }

  lemma AddressChars(c: char)
    ensures PlaceholderChar(c) <==> c in "0123456789abcdefABCDEF:."
  {
    var all := "0123456789abcdefABCDEF:.";
    if PlaceholderChar(c) {
      if c <= '9' && c >= '0' {
        assert all[c as int - '0' as int] == c;
      } else if 'a' <= c <= 'f' {
        assert all[10 + (c as int - 'a' as int)] == c;
      } else if 'A' <= c <= 'F' {
        assert all[16 + (c as int - 'A' as int)] == c;
      } else {
        assert all[22] == ':' && all[23] == '.';
      }
    }
  }

  lemma PrefixedIsPlaceholder(i: nat, rest: string)
    requires i < |PLACEHOLDER_PREFIXES| && IsAddressText(rest)
    ensures IsPlaceholderName(PLACEHOLDER_PREFIXES[i] + rest)
  {
    var p := PLACEHOLDER_PREFIXES[i];
    var name := p + rest;
    forall k | |p| <= k < |name|
      ensures PlaceholderChar(name[k])
    {
      assert name[k] == rest[k - |p|] && rest[k - |p|] in rest;
      AddressChars(name[k]);
    }
    assert p < name;
  }

  const WORDS := ["unknown", "private", "pihole", "adguard", "opnsense"]

  lemma WordPrefix(i: nat)
    requires i < 5
    ensures WORDS[i] + "-" == PLACEHOLDER_PREFIXES[i]
  {
  }

  lemma PlaceholderSplits(name: string) returns (word: string, rest: string)
    requires IsPlaceholderName(name)
    ensures word in WORDS && IsAddressText(rest) && name == word + "-" + rest
  {
    var i :| 0 <= i < |PLACEHOLDER_PREFIXES| &&
      var p := PLACEHOLDER_PREFIXES[i];
      p < name && forall k :: |p| <= k < |name| ==> PlaceholderChar(name[k]);
    var p := PLACEHOLDER_PREFIXES[i];
    word, rest := WORDS[i], name[|p|..];
    WordPrefix(i);
    forall c | c in rest
      ensures c in "0123456789abcdefABCDEF:."
    {
      var k :| 0 <= k < |rest| && rest[k] == c;
      assert name[|p| + k] == c;
      AddressChars(c);
    }
  }

  lemma WordIsPlaceholder(word: string, rest: string)
    requires word in WORDS && IsAddressText(rest)
    ensures IsPlaceholderName(word + "-" + rest)
  {
    var i :| 0 <= i < |WORDS| && WORDS[i] == word;
    WordPrefix(i);
    PrefixedIsPlaceholder(i, rest);
  }

  /** A name is a placeholder exactly when it is one of five words with a dash and
      then the text of an address. */
  lemma PlaceholdersAre(name: string)
    ensures IsPlaceholderName(name) <==>
              exists word, rest :: word in ["unknown", "private", "pihole", "adguard", "opnsense"]
                                   && IsAddressText(rest) && name == word + "-" + rest
  {
    if IsPlaceholderName(name) {
      var word, rest := PlaceholderSplits(name);
    }
    if word, rest :| word in WORDS && IsAddressText(rest) && name == word + "-" + rest {
      WordIsPlaceholder(word, rest);
    }
  }

  /** A sweep's name for a machine nobody resolved is a placeholder. */
  lemma SweepNamesAreRecognised(mac: string, ip: string)
    requires IsAddressText(ip) && (mac != "" ==> IsAddressText(mac))
    ensures IsPlaceholderName(Sweep.NewName(mac, "", ip))
  {
    assert WORDS[0] == "unknown" && WORDS[1] == "private";
    var shown := if mac != "" then mac else ip;
    WordIsPlaceholder("unknown", shown);
    WordIsPlaceholder("private", shown);
    assert "unknown" + "-" == "unknown-" && "private" + "-" == "private-";
    NewNameIs(mac, ip);
  }

  lemma NewNameIs(mac: string, ip: string)
    ensures Sweep.NewName(mac, "", ip) == "unknown-" + (if mac != "" then mac else ip)
            || Sweep.NewName(mac, "", ip) == "private-" + (if mac != "" then mac else ip)
  {
  }

  /** So is a sync's for a lease without a hostname. */
  lemma LeaseNamesAreRecognised(e: Leases.Entry, source: string)
    requires source in ["pihole", "adguard", "opnsense"] && e.hostname == "" && IsAddressText(e.mac)
    ensures IsPlaceholderName(Leases.NewDevice(e, source).name)
  {
    assert WORDS[2] == "pihole" && WORDS[3] == "adguard" && WORDS[4] == "opnsense";
    WordIsPlaceholder(source, e.mac);
  }

  // ---- Private MACs

  function HexDigit(n: nat): char
    requires n < 16
  {
    "0123456789abcdef"[n]
  }

  /** The MAC whose first octet is n, in colon notation. */
  function MacFrom(n: nat, rest: string): string
    requires n < 256
  {
    [HexDigit(n / 16), HexDigit(n % 16)] + rest
  }

  lemma DigitLower(n: nat, rest: string)
    requires n < 16
    ensures Lower(Sweep.WithColons([HexDigit(n)] + rest)) == [HexDigit(n)] + Lower(Sweep.WithColons(rest))
  {
    assert ([HexDigit(n)] + rest)[1..] == rest;
    assert ([HexDigit(n)] + Sweep.WithColons(rest))[1..] == Sweep.WithColons(rest);
  }

  /** A MAC is private exactly when its first octet has bit 2 set and bit 1 not,
      and it is none of the virtualization stacks' addresses. */
  lemma PrivateIsABit(n: nat, rest: string)
    requires n < 256
    ensures Sweep.IsPrivate(MacFrom(n, rest)) <==>
              (n / 2) % 2 == 1 && n % 2 == 0
              && !("52:54:00" <= Lower(Sweep.WithColons(MacFrom(n, rest))))
              && !("02:42:" <= Lower(Sweep.WithColons(MacFrom(n, rest))))
  {
    FirstTwoDigits(n, rest);
    SecondDigit(n / 16);
    SecondDigit(n % 16);
    SameBits(n);
  }

  lemma FirstTwoDigits(n: nat, rest: string)
    requires n < 256
    ensures var m := Lower(Sweep.WithColons(MacFrom(n, rest)));
            |m| >= 2 && m[0] == HexDigit(n / 16) && m[1] == HexDigit(n % 16)
  {
    DigitLower(n % 16, rest);
    assert MacFrom(n, rest) == [HexDigit(n / 16)] + ([HexDigit(n % 16)] + rest);
    DigitLower(n / 16, [HexDigit(n % 16)] + rest);
  }

  lemma SameBits(n: nat)
    ensures n % 2 == (n % 16) % 2 && (n / 2) % 2 == ((n % 16) / 2) % 2
  {
    assert n == 16 * (n / 16) + n % 16;
  }

  lemma SecondDigit(d: nat)
    requires d < 16
    ensures HexDigit(d) in "26ae" <==> (d / 2) % 2 == 1 && d % 2 == 0
    ensures HexDigit(d) in "0123456789abcdef"
  {
    assert "26ae"[0] == '2' && "26ae"[1] == '6' && "26ae"[2] == 'a' && "26ae"[3] == 'e';
  }
}
