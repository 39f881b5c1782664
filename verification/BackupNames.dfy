/** Backup file names and pruning (internal/backup/backup.go). */
module BackupNames {
  import opened TextOrder

  datatype Time = Time(year: nat, month: nat, day: nat, hour: nat, minute: nat, second: nat)

  predicate IsTime(t: Time) {
    1 <= t.month <= 12 && 1 <= t.day <= 31 && t.hour < 24 && t.minute < 60 && t.second < 60
  }

  function Pow10(n: nat): (p: nat)
    ensures p > 0
  {
    if n == 0 then 1 else 10 * Pow10(n - 1)
  }

  function Digit(n: nat): char
    requires n < 10
  {
    "0123456789"[n]
  }

  /** The lowest w decimal digits, with leading zeros. */
  function Digits(n: nat, w: nat): (s: string)
    ensures |s| == w && forall c :: c in s ==> IsDigit(c)
  {
    if w == 0 then "" else Digits(n / 10, w - 1) + [Digit(n % 10)]
  }

  /** A year has four digits, or all of its digits if they are more. */
  function YearDigits(year: nat): string {
    if year < 10000 then Digits(year, 4) else YearDigits(year / 10) + [Digit(year % 10)]
  }

  /** The layout netis-20060102-150405.db. */
  function Name(t: Time): string
  {
    "netis-" + YearDigits(t.year)
    + (Digits(t.month, 2) + Digits(t.day, 2) + "-"
       + Digits(t.hour, 2) + Digits(t.minute, 2) + Digits(t.second, 2) + ".db")
  }

  predicate AllDigits(s: string) {
    forall c :: c in s ==> IsDigit(c)
  }

  /** The pattern ^netis-\d{8}-\d{6}\.db$. */
  predicate IsBackupName(s: string) {
    |s| == 24 && s[..6] == "netis-" && AllDigits(s[6..14]) && s[14] == '-' && AllDigits(s[15..21]) && s[21..] == ".db"
  }

  function TempName(name: string): string {
    "." + name + ".tmp"
  }

  lemma TempIsNoBackup(name: string)
    ensures !IsBackupName(TempName(name))
  {
    var s := TempName(name);
    assert s[0] == '.' && "netis-"[0] == 'n';
    if |s| == 24 {
      assert s[..6][0] == s[0];
    }
  }

  lemma {:induction false} LongYear(year: nat)
    requires year >= 10000
    ensures |YearDigits(year)| >= 5
  {
    if year >= 100000 {
      LongYear(year / 10);
    } else {
      assert YearDigits(year / 10) == Digits(year / 10, 4);
    }
  }

  /** A backup is one that pruning recognises, as long as years have four digits. */
  lemma NamesAreRecognised(t: Time)
    ensures IsBackupName(Name(t)) <==> t.year < 10000
  {
    var s, y := Name(t), YearDigits(t.year);
    if t.year >= 10000 {
      LongYear(t.year);
    } else {
      assert s[..6] == "netis-";
      assert s[6..14] == y + Digits(t.month, 2) + Digits(t.day, 2);
      assert s[15..21] == Digits(t.hour, 2) + Digits(t.minute, 2) + Digits(t.second, 2);
      assert s[21..] == ".db";
    }
  }

  // ---- Order

  predicate Earlier(a: Time, b: Time) {
    a.year < b.year || (a.year == b.year &&
      (a.month < b.month || (a.month == b.month &&
        (a.day < b.day || (a.day == b.day &&
          (a.hour < b.hour || (a.hour == b.hour &&
            (a.minute < b.minute || (a.minute == b.minute && a.second < b.second)))))))))
  }

  lemma {:induction false} CommonPrefix(p: string, a: string, b: string)
    ensures Less(p + a, p + b) <==> Less(a, b)
  {
    if p == "" {
      assert p + a == a && p + b == b;
    } else {
      assert (p + a)[1..] == p[1..] + a && (p + b)[1..] == p[1..] + b;
      CommonPrefix(p[1..], a, b);
    }
  }

  /** Texts of one length that differ compare by themselves, whatever follows them. */
  lemma {:induction false} FirstDifference(p: string, q: string, a: string, b: string)
    requires |p| == |q| && p != q
    ensures Less(p + a, q + b) <==> Less(p, q)
  {
    assert (p + a)[1..] == p[1..] + a && (q + b)[1..] == q[1..] + b;
    if p[0] == q[0] {
      assert p == [p[0]] + p[1..] && q == [q[0]] + q[1..];
      FirstDifference(p[1..], q[1..], a, b);
    }
  }

  lemma LastDigitsOrder(n: nat, m: nat)
    requires n < 10 && m < 10
    ensures Less([Digit(n)], [Digit(m)]) <==> n < m
    ensures Digit(n) == Digit(m) <==> n == m
  {
    assert [Digit(n)][1..] == [] && [Digit(m)][1..] == [];
  }

  lemma SplitNumbers(n: nat, m: nat)
    ensures n / 10 < m / 10 ==> n < m
    ensures n / 10 == m / 10 ==> (n < m <==> n % 10 < m % 10) && (n == m <==> n % 10 == m % 10)
  {
  }

  lemma {:induction false} DigitsOrder(n: nat, m: nat, w: nat)
    requires n < Pow10(w) && m < Pow10(w)
    ensures Less(Digits(n, w), Digits(m, w)) <==> n < m
    ensures Digits(n, w) == Digits(m, w) <==> n == m
  {
    if w > 0 {
      DigitsOrder(n / 10, m / 10, w - 1);
      LastDigitsOrder(n % 10, m % 10);
      SplitNumbers(n, m);
      SplitNumbers(m, n);
      var p, q := Digits(n / 10, w - 1), Digits(m / 10, w - 1);
      LastDigitDecides(p, q, Digit(n % 10), Digit(m % 10));
    }
  }

  lemma LastDigitDecides(p: string, q: string, c: char, d: char)
    requires |p| == |q|
    ensures Less(p + [c], q + [d]) <==> Less(p, q) || (p == q && Less([c], [d]))
    ensures p + [c] == q + [d] <==> p == q && c == d
  {
    if p == q {
      LessIrreflexive(p);
      CommonPrefix(p, [c], [d]);
      assert (p + [c])[|p|] == c && (q + [d])[|q|] == d;
    } else {
      FirstDifference(p, q, [c], [d]);
      assert (p + [c])[..|p|] == p && (q + [d])[..|q|] == q;
    }
  }

  /** A field of fixed width decides the order unless the numbers are equal. */
  lemma FieldDecides(n: nat, m: nat, w: nat, a: string, b: string)
    requires n < Pow10(w) && m < Pow10(w)
    ensures Less(Digits(n, w) + a, Digits(m, w) + b) <==> n < m || (n == m && Less(a, b))
  {
    DigitsOrder(n, m, w);
    if n == m {
      CommonPrefix(Digits(n, w), a, b);
    } else {
      FirstDifference(Digits(n, w), Digits(m, w), a, b);
    }
  }

  function ClockPart(t: Time): string {
    Digits(t.hour, 2) + (Digits(t.minute, 2) + (Digits(t.second, 2) + ".db"))
  }

  function DatePart(t: Time): string {
    Digits(t.year, 4) + (Digits(t.month, 2) + (Digits(t.day, 2) + ("-" + ClockPart(t))))
  }

  lemma NameParts(t: Time)
    requires t.year < 10000
    ensures Name(t) == "netis-" + DatePart(t)
  {
  }

  /** Name order is time order. */
  lemma NamesSortByTime(a: Time, b: Time)
    requires IsTime(a) && IsTime(b) && a.year < 10000 && b.year < 10000
    ensures Less(Name(a), Name(b)) <==> Earlier(a, b)
  {
    assert Pow10(2) == 100 && Pow10(4) == 10000;
    NameParts(a);
    NameParts(b);
    CommonPrefix("netis-", DatePart(a), DatePart(b));
    FieldDecides(a.second, b.second, 2, ".db", ".db");
    LessIrreflexive(".db");
    FieldDecides(a.minute, b.minute, 2, Digits(a.second, 2) + ".db", Digits(b.second, 2) + ".db");
    FieldDecides(a.hour, b.hour, 2, Digits(a.minute, 2) + (Digits(a.second, 2) + ".db"),
                 Digits(b.minute, 2) + (Digits(b.second, 2) + ".db"));
    CommonPrefix("-", ClockPart(a), ClockPart(b));
    FieldDecides(a.day, b.day, 2, "-" + ClockPart(a), "-" + ClockPart(b));
    FieldDecides(a.month, b.month, 2, Digits(a.day, 2) + ("-" + ClockPart(a)), Digits(b.day, 2) + ("-" + ClockPart(b)));
    FieldDecides(a.year, b.year, 4, Digits(a.month, 2) + (Digits(a.day, 2) + ("-" + ClockPart(a))),
                 Digits(b.month, 2) + (Digits(b.day, 2) + ("-" + ClockPart(b))));
  }

  // ---- Pruning

  /** A directory entry: its name, and whether it is a regular file. */
  datatype Entry = Entry(name: string, regular: bool)

  ghost predicate Ascending(names: seq<string>) {
    forall i, j :: 0 <= i < j < |names| ==> Less(names[i], names[j])
  }

  /** What reading the directory gives: every entry once, in name order. */
  ghost predicate ListsDirectory(entries: seq<Entry>, files: map<string, bool>) {
    && (forall i, j :: 0 <= i < j < |entries| ==> Less(entries[i].name, entries[j].name))
    && (forall e :: e in entries <==> e.name in files && files[e.name] == e.regular)
  }

  predicate IsBackup(files: map<string, bool>, name: string) {
    name in files && files[name] && IsBackupName(name)
  }

  /** The backups, oldest first. The entries come sorted, so sorting the names again changes nothing. */
  method List(entries: seq<Entry>, ghost files: map<string, bool>) returns (names: seq<string>)
    requires ListsDirectory(entries, files)
    ensures Ascending(names) && forall n :: n in names <==> IsBackup(files, n)
  {
    names := [];
    for k := 0 to |entries|
      invariant Ascending(names)
      invariant forall n :: n in names <==>
          exists i :: 0 <= i < k && entries[i].name == n && entries[i].regular && IsBackupName(n)
    {
      var e := entries[k];
      forall n | n in names
        ensures Less(n, e.name)
      {
      }
      if e.regular && IsBackupName(e.name) {
        names := names + [e.name];
      }
    }
    forall n
      ensures n in names <==> IsBackup(files, n)
    {
      if IsBackup(files, n) {
        assert Entry(n, true) in entries;
      }
      if n in names {
        var i :| 0 <= i < |entries| && entries[i].name == n && entries[i].regular && IsBackupName(n);
        assert entries[i] in entries;
      }
    }
  }

  class Directory {
    /** Each name, and whether it is a regular file. */
    var files: map<string, bool>

    constructor (files: map<string, bool>)
      ensures this.files == files
    {
      this.files := files;
    }

    method Remove(name: string, broken: set<string>) returns (ok: bool)
      modifies this
      ensures files == if name in broken then old(files) else old(files) - {name}
      ensures ok <==> name !in broken
    {
      ok := name !in broken;
      if ok {
        files := files - {name};
      }
    }

    /** `broken` are the files the system will not remove. */
    method Prune(entries: seq<Entry>, keep: nat, broken: set<string>) returns (names: seq<string>, ok: bool)
      requires ListsDirectory(entries, files)
      modifies this
      ensures Ascending(names) && forall n :: n in names <==> IsBackup(old(files), n)
      ensures files == old(files) - Doomed(names, keep, broken)
      ensures ok <==> forall k :: 0 <= k < |names| - keep ==> names[k] !in broken
    {
      names := List(entries, files);
      var left := names;
      ok := true;
      ghost var k := 0;
      while |left| > keep
        invariant k <= |names| && left == names[k..]
        invariant files == old(files) - DoomedUpTo(names, k, broken)
        invariant k > 0 ==> |names| - k >= keep
        invariant ok <==> forall j :: 0 <= j < k ==> names[j] !in broken
      {
        var removed := Remove(left[0], broken);
        ok := ok && removed;
        assert DoomedUpTo(names, k + 1, broken) == DoomedUpTo(names, k, broken) + if removed then {names[k]} else {};
        left := left[1..];
        k := k + 1;
      }
      assert k == Excess(|names|, keep);
    }
  }

  function Excess(n: nat, keep: nat): nat {
    if n > keep then n - keep else 0
  }

  function DoomedUpTo(names: seq<string>, k: nat, broken: set<string>): set<string>
    requires k <= |names|
  {
    set j | 0 <= j < k && names[j] !in broken :: names[j]
  }

  /** What pruning removes: the oldest names beyond the newest keep, where it can. */
  function Doomed(names: seq<string>, keep: nat, broken: set<string>): set<string> {
    DoomedUpTo(names, Excess(|names|, keep), broken)
  }

  lemma NewestAreNotDoomed(names: seq<string>, keep: nat, name: string)
    requires Ascending(names)
    ensures name in names[Excess(|names|, keep)..] <==> name in names && name !in Doomed(names, keep, {})
  {
    var k := Excess(|names|, keep);
    assert names == names[..k] + names[k..];
    assert name in Doomed(names, keep, {}) <==> name in names[..k];
    if name in names[k..] {
      var i :| 0 <= i < |names| - k && names[k..][i] == name;
      LessIrreflexive(name);
      assert forall j :: 0 <= j < k ==> Less(names[j], names[k + i]);
    }
  }

  /** After a prune whose removals succeed, the backups left are exactly the
      newest min(n, keep), and nothing but backups has gone. */
  lemma PruneKeepsTheNewest(files: map<string, bool>, names: seq<string>, keep: nat, name: string)
    requires Ascending(names) && forall n :: n in names <==> IsBackup(files, n)
    ensures var left := files - Doomed(names, keep, {});
            && (IsBackup(left, name) <==> name in names[Excess(|names|, keep)..])
            && (name in files && !IsBackup(files, name) ==> name in left)
    ensures |names[Excess(|names|, keep)..]| == if |names| < keep then |names| else keep
  {
    NewestAreNotDoomed(names, keep, name);
    assert name in Doomed(names, keep, {}) ==> name in names;
  }

  /** Every backup removed is older than every backup kept on purpose. */
  lemma RemovedAreOlder(names: seq<string>, keep: nat, broken: set<string>, gone: string, kept: string)
    requires Ascending(names) && gone in Doomed(names, keep, broken) && kept in names[Excess(|names|, keep)..]
    ensures Less(gone, kept)
  {
    var k := Excess(|names|, keep);
    var i :| 0 <= i < |names| - k && names[k..][i] == kept;
    assert names[k + i] == kept;
  }

  // ---- Which backups a prune spares

  /** The names after this one. */
  function Newer(names: seq<string>, name: string): set<string> {
    set n | n in names && Less(name, n)
  }

  lemma {:induction false} AscendingCount(names: seq<string>)
    requires Ascending(names)
    ensures |set n | n in names| == |names|
  {
    if names != [] {
      var init, last := names[..|names| - 1], names[|names| - 1];
      assert names == init + [last];
      AscendingCount(init);
      assert (set n | n in names) == (set n | n in init) + {last};
      LessIrreflexive(last);
    }
  }

  lemma NewerAreBehind(names: seq<string>, i: nat)
    requires Ascending(names) && i < |names|
    ensures |Newer(names, names[i])| == |names| - i - 1
  {
    var behind := names[i + 1..];
    AscendingCount(behind);
    forall n
      ensures n in Newer(names, names[i]) <==> n in behind
    {
      if n in Newer(names, names[i]) {
        var j :| 0 <= j < |names| && names[j] == n;
        if j < i {
          LessAsymmetric(names[j], names[i]);
        }
        LessIrreflexive(n);
        assert j > i && behind[j - i - 1] == n;
      }
      if n in behind {
        var j :| 0 <= j < |behind| && behind[j] == n;
        assert names[i + 1 + j] == n;
      }
    }
    assert Newer(names, names[i]) == set n | n in behind;
  }

  /** A backup is up for removal exactly when as many backups as are kept are newer. */
  lemma SparedExactly(names: seq<string>, keep: nat, name: string)
    requires Ascending(names) && name in names
    ensures name in names[..Excess(|names|, keep)] <==> |Newer(names, name)| >= keep
    ensures name in Doomed(names, keep, {}) <==> |Newer(names, name)| >= keep
  {
    var i :| 0 <= i < |names| && names[i] == name;
    NewerAreBehind(names, i);
    NewestAreNotDoomed(names, keep, name);
    var k := Excess(|names|, keep);
    forall j | 0 <= j < |names| && names[j] == name
      ensures j == i
    {
      LessIrreflexive(name);
    }
    assert i < k ==> names[..k][i] == name;
  }

  /** After the clock was set back a new backup is not the newest, and where one
      backup is kept the prune right after it removes it. */
  lemma ClockSetBack(names: seq<string>, now: Time, later: Time)
    requires IsTime(now) && IsTime(later) && now.year < 10000 && later.year < 10000 && Earlier(now, later)
    requires Ascending(names) && Name(now) in names && Name(later) in names
    ensures Name(now) in Doomed(names, 1, {})
  {
    NamesSortByTime(now, later);
    SparedExactly(names, 1, Name(now));
    assert Name(later) in Newer(names, Name(now));
  }
}
