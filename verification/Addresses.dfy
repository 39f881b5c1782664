/** The addresses of a prefix, worked out in three ways: by walking it
    (internal/scan/sweep.go), byte by byte (internal/leases/pools.go) and with a
    32-bit mask (internal/wol/targets.go). */
module Addresses {
  import opened Options
  import opened Bits

  /** Addresses of one family are numbers of its width; their text form is left to a parser. */
  datatype Addr = Addr(is4: bool, value: nat)

  datatype Prefix = Prefix(addr: Addr, bits: nat)

  datatype Result<T> = Ok(value: T) | Unparsable | TooLarge(narrowest: nat)

  function Width(is4: bool): nat {
    if is4 then 32 else 128
  }

  ghost predicate IsAddr(a: Addr) {
    a.value < Pow2(Width(a.is4))
  }

  ghost predicate IsPrefix(p: Prefix) {
    IsAddr(p.addr) && p.bits <= Width(p.addr.is4)
  }

  function HostBits(p: Prefix): nat {
    if p.bits <= Width(p.addr.is4) then Width(p.addr.is4) - p.bits else 0
  }

  function Masked(p: Prefix): Prefix {
    p.(addr := Addr(p.addr.is4, Floor(p.addr.value, Pow2(HostBits(p)))))
  }

  /** The leading bits agree. */
  predicate Contains(p: Prefix, a: Option<Addr>) {
    a.Some? && a.value.is4 == p.addr.is4 && a.value.value / Pow2(HostBits(p)) == p.addr.value / Pow2(HostBits(p))
  }

  /** None after the family's last address. */
  function NextAddr(a: Addr): Option<Addr> {
    if a.value + 1 < Pow2(Width(a.is4)) then Some(Addr(a.is4, a.value + 1)) else None
  }

  function First(p: Prefix): nat {
    Masked(p).addr.value
  }

  // ---- The walk

  method CheckSubnetSize(p: Option<Prefix>) returns (r: Result<()>)
    requires p.Some? ==> IsPrefix(p.value)
    ensures r == if p.None? then Unparsable
                 else if HostBits(p.value) > 16 then TooLarge(Width(p.value.addr.is4) - 16) else Ok(())
  {
    if p.None? {
      return Unparsable;
    }
    var total := Width(p.value.addr.is4);
    if total - p.value.bits > 16 {
      return TooLarge(total - 16);
    }
    return Ok(());
  }

  /** The run of addresses from the masked base on. */
  function Range(p: Prefix, n: nat): (r: seq<Addr>)
    ensures |r| == n && forall k :: 0 <= k < n ==> r[k] == Addr(p.addr.is4, First(p) + k)
  {
    seq(n, k requires 0 <= k < n => Addr(p.addr.is4, First(p) + k))
  }

  lemma ContainedIsInRange(p: Prefix, v: nat)
    ensures v / Pow2(HostBits(p)) == p.addr.value / Pow2(HostBits(p)) <==> First(p) <= v < First(p) + Pow2(HostBits(p))
  {
    var m := Pow2(HostBits(p));
    var q := p.addr.value / m;
    QuotientRange(v, m, q);
    assert First(p) == q * m;
  }

  lemma FirstIsFirst(p: Prefix)
    ensures First(Masked(p)) == First(p) && HostBits(Masked(p)) == HostBits(p)
  {
    var m := Pow2(HostBits(p));
    Divides(First(p), m, p.addr.value / m, 0);
  }

  lemma RangeFits(p: Prefix)
    requires IsPrefix(p)
    ensures First(p) + Pow2(HostBits(p)) <= Pow2(Width(p.addr.is4))
  {
    Pow2Adds(p.bits, HostBits(p));
    BlockFits(p.addr.value, Pow2(p.bits), Pow2(HostBits(p)));
  }

  method AllIPs(cidr: Option<Prefix>) returns (r: Result<seq<Addr>>)
    requires cidr.Some? ==> IsPrefix(cidr.value)
    ensures cidr.None? ==> r == Unparsable
    ensures cidr.Some? && HostBits(cidr.value) > 16 ==> r == TooLarge(Width(cidr.value.addr.is4) - 16)
    ensures cidr.Some? && HostBits(cidr.value) <= 16 ==> r == Ok(Range(cidr.value, Pow2(HostBits(cidr.value))))
  {
    if cidr.None? {
      return Unparsable;
    }
    var small := CheckSubnetSize(cidr);
    if small.TooLarge? {
      return TooLarge(small.narrowest);
    }
    var out := Walk(cidr.value);
    return Ok(out);
  }

  method Walk(p: Prefix) returns (out: seq<Addr>)
    requires IsPrefix(p)
    ensures out == Range(p, Pow2(HostBits(p)))
  {
    var prefix := Masked(p);
    ghost var m := Pow2(HostBits(p));
    FirstIsFirst(p);
    RangeFits(p);
    out := [];
    var addr := Some(prefix.addr);
    ContainedIsInRange(prefix, First(p));
    while Contains(prefix, addr)
      invariant |out| <= m && out == Range(p, |out|)
      invariant addr
          == (if First(p) + |out| < Pow2(Width(p.addr.is4)) then Some(Addr(p.addr.is4, First(p) + |out|)) else None)
      invariant |out| < m ==> Contains(prefix, addr)
      decreases m - |out|
    {
      ContainedIsInRange(prefix, First(p) + |out|);
      ContainedIsInRange(prefix, First(p) + |out| + 1);
      out := out + [addr.value];
      addr := NextAddr(addr.value);
    }
  }

  /** The walk lists exactly the addresses the prefix contains, each once and in order. */
  lemma RangeIsThePrefix(p: Prefix, a: Addr)
    requires IsPrefix(p)
    ensures a in Range(p, Pow2(HostBits(p))) <==> Contains(p, Some(a))
    ensures var r := Range(p, Pow2(HostBits(p))); forall i, j :: 0 <= i < j < |r| ==> r[i].value < r[j].value
  {
    ContainedIsInRange(p, a.value);
    if Contains(p, Some(a)) {
      assert Range(p, Pow2(HostBits(p)))[a.value - First(p)] == a;
    }
  }

  lemma AcceptedIsSmall(p: Prefix)
    requires HostBits(p) <= 16
    ensures |Range(p, Pow2(HostBits(p)))| <= 65536
  {
    Pow2Grows(HostBits(p), 16);
    Pow2Adds(8, 8);
    assert Pow2(8) == 256;
  }

  /** Whether the first and last address are the network's and the broadcast's. */
  predicate HasEdges(p: Prefix) {
    p.addr.is4 && p.bits < 31
  }

  function Hosts(p: Prefix, all: seq<Addr>): seq<Addr> {
    if HasEdges(p) && |all| >= 2 then all[1..|all| - 1] else all
  }

  method HostIPs(cidr: Option<Prefix>) returns (r: Result<seq<Addr>>)
    requires cidr.Some? ==> IsPrefix(cidr.value)
    ensures r.Ok? <==> cidr.Some? && HostBits(cidr.value) <= 16
    ensures r.Ok? ==> r.value == Hosts(cidr.value, Range(cidr.value, Pow2(HostBits(cidr.value))))
  {
    r := AllIPs(cidr);
    if r.Ok? {
      var out, prefix := r.value, Masked(cidr.value);
      if prefix.addr.is4 && prefix.bits < 31 && |out| >= 2 {
        out := out[1..|out| - 1];
      }
      r := Ok(out);
    }
  }

  /** The hosts are what the prefix contains, less its network and broadcast
      addresses where it has them. */
  lemma HostsAreInside(p: Prefix, a: Addr)
    requires IsPrefix(p)
    ensures a in Hosts(p, Range(p, Pow2(HostBits(p))))
        <==> Contains(p, Some(a)) && (HasEdges(p) ==> a != Masked(p).addr && a != Last(p))
  {
    var m := Pow2(HostBits(p));
    var all := Range(p, m);
    RangeIsThePrefix(p, a);
    if HasEdges(p) {
      Pow2Grows(2, HostBits(p));
      assert m >= 4;
      if Contains(p, Some(a)) {
        ContainedIsInRange(p, a.value);
        assert all[a.value - First(p)] == a;
        assert First(p) < a.value < First(p) + m - 1 ==> all[1..m - 1][a.value - First(p) - 1] == a;
      }
    }
  }

  // ---- Byte by byte

  /** The prefix's highest address. */
  function Last(p: Prefix): Addr {
    Addr(p.addr.is4, Filled(p.addr.value, HostBits(p)))
  }

  lemma {:induction false} BytesFilledAt(bytes: seq<Byte>, bits: int, k: nat)
    requires k < |bytes|
    ensures BytesFilled(bytes, bits)[k] == ByteFilled(bytes[k], bits - 8 * k)
  {
    if k > 0 {
      BytesFilledAt(bytes[1..], bits - 8, k - 1);
    }
  }

  /** `b[i] |= 0xff >> bits`, and the other two cases, in place. */
  method FillBytes(b: array<Byte>, total: nat)
    modifies b
    ensures b[..] == BytesFilled(old(b[..]), total)
  {
    for i := 0 to b.Length
      invariant forall k :: 0 <= k < i ==> b[k] == ByteFilled(old(b[k]), total - 8 * k)
      invariant forall k :: i <= k < b.Length ==> b[k] == old(b[k])
    {
      var bits := total - i * 8;
      if bits <= 0 {
        b[i] := 255;
      } else if bits < 8 {
        b[i] := BitOr(b[i], 255 / Pow2(bits)) % 256;
      }
    }
    ghost var was := old(b[..]);
    forall k | 0 <= k < b.Length
      ensures b[..][k] == BytesFilled(was, total)[k]
    {
      BytesFilledAt(was, total, k);
    }
  }

  /** AsSlice, and As4 for an IPv4 address. */
  function AddrBytes(a: Addr): (bytes: seq<Byte>)
    ensures |bytes| == if a.is4 then 4 else 16
  {
    BytesOf(a.value, Width(a.is4) / 8)
  }

  method LastAddr(p: Prefix) returns (r: Addr)
    requires IsPrefix(p)
    ensures r == Last(p)
  {
    var bytes := AddrBytes(p.addr);
    var b := new Byte[|bytes|](i requires 0 <= i < |bytes| => bytes[i]);
    assert b[..] == bytes;
    FillBytes(b, p.bits);
    BytesGiveBack(p.addr.value, |bytes|);
    BytesFilledValue(bytes, p.bits);
    r := Addr(p.addr.is4, Value(b[..]));
  }

  /** The last address of the walk is the byte-wise one. */
  lemma WalkEndsAtLast(p: Prefix)
    ensures Range(p, Pow2(HostBits(p)))[Pow2(HostBits(p)) - 1] == Last(p) == Last(Masked(p))
  {
    FirstIsFirst(p);
  }

  // ---- With a mask

  const WORD: nat := 0x1_0000_0000

  lemma WordIsPow()
    ensures WORD == Pow2(32) && Pow2(8) == 256 && Pow2(16) == 0x1_0000 && Pow2(24) == 0x100_0000
  {
    assert Pow2(8) == 256;
    Pow2Adds(8, 8);
    Pow2Adds(16, 8);
    Pow2Adds(16, 16);
  }

  /** `uint32(1)<<n - 1`: at n = 32 the shift gives 0, and the subtraction wraps. */
  function HostMask(n: nat): nat
    requires n <= 32
  {
    var shifted := Pow2(n) % WORD;
    if shifted == 0 then WORD - 1 else shifted - 1
  }

  lemma HostMaskIsOnes(n: nat)
    requires n <= 32
    ensures HostMask(n) == Pow2(n) - 1
  {
    WordIsPow();
    if n < 32 {
      Pow2Grows(n, 31);
      BelowWord(Pow2(n), Pow2(31));
    }
  }

  lemma BelowWord(a: nat, half: nat)
    requires 0 < a <= half && 2 * half == WORD
    ensures a % WORD == a
  {
  }

  /** Four bytes put together with shifts and ORs. */
  function Word(a: nat, b: nat, c: nat, d: nat): nat {
    BitOr(BitOr(BitOr(a * 0x100_0000, b * 0x1_0000), c * 0x100), d)
  }

  lemma WordIsFourBytes(a: nat, b: nat, c: nat, d: nat)
    requires b < 256 && c < 256 && d < 256
    ensures Word(a, b, c, d) == FourBytes(a, b, c, d)
  {
    WordIsPow();
    OrAppends(a, b * 0x1_0000, 24);
    OrAppends(a * 0x100 + b, c * 0x100, 16);
    OrAppends(a * 0x1_0000 + b * 0x100 + c, d, 8);
  }

  /** byte(v >> 24), byte(v >> 16), byte(v >> 8), byte(v). */
  function WordBytes(v: nat): seq<Byte> {
    [LowByte(v / 0x100_0000), LowByte(v / 0x1_0000), LowByte(v / 0x100), LowByte(v)]
  }

  lemma WordBytesGiveBack(v: nat)
    requires v < WORD
    ensures Value(WordBytes(v)) == v
  {
    ValueOfFour(WordBytes(v));
    FourBytesGiveBack(v);
  }

  lemma MaskedFills(p: Prefix)
    requires IsPrefix(p) && p.addr.is4
    ensures BitOr(First(p), HostMask(HostBits(p))) == Last(p).value && Last(p).value < WORD
  {
    HostMaskIsOnes(HostBits(p));
    OrOnesFills(First(p), HostBits(p));
    FirstIsFirst(p);
    RangeFits(p);
    WordIsPow();
  }

  lemma BroadcastWord(p: Prefix, a: seq<Byte>)
    requires IsPrefix(p) && p.addr.is4 && a == AddrBytes(Masked(p).addr)
    ensures var v := BitOr(Word(a[0], a[1], a[2], a[3]), HostMask(HostBits(p)));
            v < WORD && v == Last(p).value && Value(WordBytes(v)) == v
  {
    RangeFits(p);
    BytesGiveBack(First(p), 4);
    ValueOfFour(a);
    WordIsFourBytes(a[0], a[1], a[2], a[3]);
    MaskedFills(p);
    WordBytesGiveBack(Last(p).value);
  }

  method DirectedBroadcast(p: Option<Prefix>) returns (r: Option<Addr>)
    requires p.Some? ==> IsPrefix(p.value)
    ensures r == if p.Some? && p.value.addr.is4 && p.value.bits <= 30 then Some(Last(p.value)) else None
  {
    if p.None? || !p.value.addr.is4 || p.value.bits > 30 {
      return None;
    }
    var a := AddrBytes(Masked(p.value).addr);
    var host := HostMask(32 - p.value.bits);
    var v := BitOr(Word(a[0], a[1], a[2], a[3]), host);
    BroadcastWord(p.value, a);
    r := Some(Addr(true, Value(WordBytes(v))));
  }
}
