/** IPv4 addresses and blocks as `generateCIDRMatch` uses them: an address is
    four bytes read as a big-endian 32-bit number, a block `a.b.c.d/p` keeps
    the addresses whose top `p` bits agree with its own, and `inc` adds one
    to an address with carry, wrapping from 255.255.255.255 to 0.0.0.0. */
module Ipv4 {
  import opened Common

  // ------------------------------------------------------------ arithmetic

  function Pow2(n: nat): (r: nat)
    ensures r > 0
  {
    if n == 0 then 1 else 2 * Pow2(n - 1)
  }

  function Pow256(n: nat): (r: nat)
    ensures r > 0
  {
    if n == 0 then 1 else 256 * Pow256(n - 1)
  }

  const Two32: nat := 0x1_0000_0000

  lemma {:induction false} Pow2Add(a: nat, b: nat)
    ensures Pow2(a + b) == Pow2(a) * Pow2(b)
  {
    if a > 0 {
      Pow2Add(a - 1, b);
      assert Pow2(a + b) == 2 * Pow2(a - 1 + b);
    }
  }

  lemma Pow2Monotone(a: nat, b: nat)
    requires a <= b
    ensures Pow2(a) <= Pow2(b)
  {
    Pow2Add(a, b - a);
  }

  lemma Pow256Of4()
    ensures Pow256(4) == Two32 == Pow2(32)
  {
    assert Pow2(8) == 256;
    Pow2Add(8, 8);
    Pow2Add(16, 16);
    assert Pow256(4) == 256 * 256 * 256 * 256;
  }

  /** Division by a positive number has exactly one quotient and remainder. */
  lemma DivUnique(v: int, m: int, q: int, r: int)
    requires m > 0 && v == m * q + r && 0 <= r < m
    ensures v / m == q && v % m == r
  {
    var q' := v / m;
    assert v == m * q' + v % m;
    if q' > q {
      assert m * q' >= m * (q + 1) by { MulMonotone(m, q + 1, q'); }
    } else if q' < q {
      assert m * q >= m * (q' + 1) by { MulMonotone(m, q' + 1, q); }
    }
  }

  lemma MulMonotone(m: int, a: int, b: int)
    requires m > 0 && a <= b
    ensures m * a <= m * b
  {
  }

  // ------------------------------------------------------------- addresses

  /** The big-endian value of a byte sequence. */
  function ValueOf(ip: seq<Byte>): (v: nat)
    ensures v < Pow256(|ip|)
  {
    if |ip| == 0 then 0 else ValueOf(ip[..|ip| - 1]) * 256 + ip[|ip| - 1]
  }

  /** The `n` bytes that hold `v` big-endian. */
  function FromValue(v: nat, n: nat): (ip: seq<Byte>)
    requires v < Pow256(n)
    ensures |ip| == n && ValueOf(ip) == v
  {
    if n == 0 then []
    else
      var r := FromValue(v / 256, n - 1) + [v % 256];
      assert r[..n - 1] == FromValue(v / 256, n - 1);
      r
  }

  /** Distinct byte sequences of one length have distinct values. */
  lemma {:induction false} ValueOfInjective(ip: seq<Byte>)
    ensures FromValue(ValueOf(ip), |ip|) == ip
  {
    if |ip| > 0 {
      var n := |ip|;
      var v := ValueOf(ip);
      DivUnique(v, 256, ValueOf(ip[..n - 1]), ip[n - 1]);
      ValueOfInjective(ip[..n - 1]);
      assert ip == ip[..n - 1] + [ip[n - 1]];
    }
  }

  /** `inc`: the last byte is incremented; when it wraps to 0 the carry moves
      one byte to the left, and the loop stops at the first byte that did not
      wrap. */
  function Inc(ip: seq<Byte>): (r: seq<Byte>)
    ensures |r| == |ip|
  {
    if |ip| == 0 then []
    else if ip[|ip| - 1] < 255 then ip[..|ip| - 1] + [ip[|ip| - 1] + 1]
    else Inc(ip[..|ip| - 1]) + [0]
  }

  lemma ValueSnoc(x: seq<Byte>, b: Byte)
    ensures ValueOf(x + [b]) == ValueOf(x) * 256 + b
  {
    assert (x + [b])[..|x|] == x;
  }

  /** Appending a byte to a value below `p` stays below `256 * p`. */
  lemma ShiftBound(v: nat, p: nat, x: nat)
    requires v < p && x < 256
    ensures v * 256 + x < 256 * p
  {
    MulMonotone(256, v + 1, p);
  }

  /** `inc` adds one modulo 2^(8 * length). */
  lemma {:induction false} IncValue(ip: seq<Byte>)
    ensures ValueOf(Inc(ip)) == (ValueOf(ip) + 1) % Pow256(|ip|)
  {
    var n := |ip|;
    if n > 0 {
      var front, last := ip[..n - 1], ip[n - 1];
      assert ip == front + [last];
      ValueSnoc(front, last);
      assert Pow256(n) == 256 * Pow256(n - 1);
      if last < 255 {
        ValueSnoc(front, last + 1);
        NoCarry(ValueOf(front), Pow256(n - 1), last);
      } else {
        IncValue(front);
        ValueSnoc(Inc(front), 0);
        Carry(ValueOf(front), Pow256(n - 1));
      }
    }
  }

  /** The arithmetic of an increment that does not carry. */
  lemma NoCarry(v: nat, p: nat, last: nat)
    requires v < p && last < 255
    ensures (v * 256 + last + 1) % (256 * p) == v * 256 + last + 1
  {
    ShiftBound(v, p, last + 1);
    DivUnique(v * 256 + last + 1, 256 * p, 0, v * 256 + last + 1);
  }

  /** The arithmetic of an increment that carries out of the last byte. */
  lemma Carry(v: nat, p: nat)
    requires v < p
    ensures ((v + 1) % p) * 256 == (v * 256 + 255 + 1) % (256 * p)
  {
    if v + 1 < p {
      DivUnique(v + 1, p, 0, v + 1);
      ShiftBound(v + 1, p, 0);
      DivUnique((v + 1) * 256, 256 * p, 0, (v + 1) * 256);
    } else {
      DivUnique(v + 1, p, 1, 0);
      DivUnique((v + 1) * 256, 256 * p, 1, 0);
    }
  }

  /** `IP.String()` of a four-byte address: the decimal bytes joined by dots. */
  function DottedQuad(a: seq<Byte>): (s: Str)
    requires |a| == 4
    ensures |s| >= 7
  {
    Decimal(a[0]) + [46] + Decimal(a[1]) + [46] + Decimal(a[2]) + [46] + Decimal(a[3])
  }

  /** A reference reader of dotted-quad text: four decimal numbers below 256. */
  function ParseDottedQuad(s: Str): Option<seq<Byte>>
  {
    var parts := Split(s, 46);
    if |parts| != 4 then None
    else
      var n0, n1, n2, n3 := ParseDecimal(parts[0]), ParseDecimal(parts[1]), ParseDecimal(parts[2]), ParseDecimal(parts[3]);
      if n0.None? || n1.None? || n2.None? || n3.None? then None
      else if n0.value > 255 || n1.value > 255 || n2.value > 255 || n3.value > 255 then None
      else Some([n0.value, n1.value, n2.value, n3.value])
  }

  lemma DecimalHasNoDot(n: nat)
    ensures NoDot(Decimal(n))
  {
  }

  predicate NoDot(x: Str) {
    forall i :: 0 <= i < |x| ==> x[i] != 46
  }

  lemma SplitFour(d0: Str, d1: Str, d2: Str, d3: Str)
    requires NoDot(d0) && NoDot(d1) && NoDot(d2) && NoDot(d3)
    ensures Split(d0 + [46] + d1 + [46] + d2 + [46] + d3, 46) == [d0, d1, d2, d3]
  {
    var t2 := d2 + [46] + d3;
    var t1 := d1 + [46] + t2;
    DotsNest(d0, d1, d2, d3);
    calc {
      Split(d0 + [46] + t1, 46);
      { SplitAtSep(d0, 46, t1); }
      [d0] + Split(t1, 46);
      { SplitAtSep(d1, 46, t2); }
      [d0] + ([d1] + Split(t2, 46));
      { SplitAtSep(d2, 46, d3); SplitNoSep(d3, 46); }
      [d0] + ([d1] + ([d2] + [d3]));
    }
  }

  lemma DotsNest(d0: Str, d1: Str, d2: Str, d3: Str)
    ensures d0 + [46] + d1 + [46] + d2 + [46] + d3 == d0 + [46] + (d1 + [46] + (d2 + [46] + d3))
  {
  }

  /** Reading back the printed form of an address gives the address. */
  lemma DottedQuadRoundTrip(a: seq<Byte>)
    requires |a| == 4
    ensures ParseDottedQuad(DottedQuad(a)) == Some(a)
  {
    DecimalHasNoDot(a[0]); DecimalHasNoDot(a[1]); DecimalHasNoDot(a[2]); DecimalHasNoDot(a[3]);
    DecimalRoundTrip(a[0]); DecimalRoundTrip(a[1]); DecimalRoundTrip(a[2]); DecimalRoundTrip(a[3]);
    SplitFour(Decimal(a[0]), Decimal(a[1]), Decimal(a[2]), Decimal(a[3]));
    assert [a[0], a[1], a[2], a[3]] == a;
  }

  // ---------------------------------------------------------------- blocks

  /** A `net.IPNet` for IPv4: an address and a prefix length. */
  datatype Block = Block(ip: seq<Byte>, prefix: nat)

  type Ipv4Net = b: Block | |b.ip| == 4 && b.prefix <= 32 witness Block([0, 0, 0, 0], 0)

  /** The number of addresses in a block. */
  function Size(b: Ipv4Net): (n: nat)
    ensures 0 < n <= Two32
  {
    Pow2Monotone(32 - b.prefix, 32);
    Pow256Of4();
    Pow2(32 - b.prefix)
  }

  /** The 2^p blocks of one prefix length tile the address space. */
  lemma SizeTimesCount(b: Ipv4Net)
    ensures Size(b) * Pow2(b.prefix) == Two32
  {
    Pow256Of4();
    Pow2Add(32 - b.prefix, b.prefix);
  }

  /** The value of an address with its host bits cleared (`ip.Mask(mask)`). */
  function MaskValue(b: Ipv4Net, v: nat): nat
  {
    v - v % Size(b)
  }

  /** Clearing the low part of `v` modulo `s`, where `s` divides `t` and
      `v < t`, leaves a multiple of `s` with room for `s` more below `t`. */
  lemma MaskBound(v: nat, s: nat, p: nat)
    requires s > 0 && p > 0 && v < s * p
    ensures v % s <= v
    ensures (v - v % s) % s == 0 && v - v % s + s <= s * p
  {
    var q := v / s;
    DivUnique(v, s, q, v % s);
    DivUnique(v - v % s, s, q, 0);
    if q >= p {
      MulMonotone(s, p, q);
    }
    MulMonotone(s, q + 1, p);
  }

  /** `v` has the masked value `n` exactly when it lies in [n, n + s). */
  lemma MaskRange(v: nat, s: nat, n: nat)
    requires s > 0 && n % s == 0
    ensures v - v % s == n <==> n <= v < n + s
  {
    if n <= v < n + s {
      DivUnique(n, s, n / s, 0);
      DivUnique(v, s, n / s, v - n);
    }
  }

  lemma NetworkBounds(v: nat, b: Ipv4Net)
    requires v < Two32
    ensures v % Size(b) <= v
    ensures (v - v % Size(b)) % Size(b) == 0 && v - v % Size(b) + Size(b) <= Two32
  {
    var s, c := Size(b), Pow2(b.prefix);
    SizeTimesCount(b);
    MaskBound(v, s, c);
  }

  /** The block's network address as a value. */
  function Network(b: Ipv4Net): (n: nat)
    ensures n % Size(b) == 0 && n + Size(b) <= Two32
  {
    Pow256Of4();
    NetworkBounds(ValueOf(b.ip), b);
    ValueOf(b.ip) - ValueOf(b.ip) % Size(b)
  }

  /** `ipNet.Contains(ip)`: the address agrees with the block on the masked bits. */
  predicate Contains(b: Ipv4Net, a: seq<Byte>) {
    |a| == 4 && MaskValue(b, ValueOf(a)) == Network(b)
  }

  /** A block contains exactly the `Size` consecutive addresses from its network address. */
  lemma ContainsRange(b: Ipv4Net, a: seq<Byte>)
    requires |a| == 4
    ensures Contains(b, a) <==> Network(b) <= ValueOf(a) < Network(b) + Size(b)
  {
    MaskRange(ValueOf(a), Size(b), Network(b));
  }

  /** With prefix 0 every address is in the block. */
  lemma EverythingInSlashZero(b: Ipv4Net, a: seq<Byte>)
    requires b.prefix == 0 && |a| == 4
    ensures Contains(b, a)
  {
    Pow256Of4();
    ContainsRange(b, a);
  }

  /** How many more turns the `IPRange` loop takes from address `a`. */
  function Remaining(b: Ipv4Net, a: seq<Byte>): nat
  {
    if Contains(b, a) then Network(b) + Size(b) - ValueOf(a) else 0
  }

  /** One step of the loop: the next address is the next one in the block,
      or the loop has just passed the block's last address (for any block but
      /0, whose last address wraps around to its first). */
  lemma IncStep(b: Ipv4Net, a: seq<Byte>)
    requires b.prefix > 0 && Contains(b, a)
    ensures Remaining(b, Inc(a)) == Remaining(b, a) - 1
    ensures Contains(b, Inc(a)) ==> ValueOf(Inc(a)) == ValueOf(a) + 1
  {
    ContainsRange(b, a);
    ContainsRange(b, Inc(a));
    IncValue(a);
    Pow256Of4();
    var v := ValueOf(a);
    if v + 1 < Two32 {
      DivUnique(v + 1, Two32, 0, v + 1);
    } else {
      DivUnique(v + 1, Two32, 1, 0);
      Pow2Monotone(32 - b.prefix, 31);
      assert Size(b) <= Two32 / 2;
    }
  }

  /** The addresses the `IPRange` loop appends, from address `a` on. */
  function Sweep(b: Ipv4Net, a: seq<Byte>): seq<seq<Byte>>
    requires b.prefix > 0 && |a| == 4
    decreases Remaining(b, a)
  {
    if Contains(b, a) then
      IncStep(b, a);
      [a] + Sweep(b, Inc(a))
    else []
  }

  /** From an address of the block on, the loop lists the rest of the block in order. */
  lemma {:induction false} SweepFrom(b: Ipv4Net, a: seq<Byte>)
    requires b.prefix > 0 && |a| == 4
    ensures |Sweep(b, a)| == Remaining(b, a)
    ensures forall k :: 0 <= k < |Sweep(b, a)| ==> |Sweep(b, a)[k]| == 4 && ValueOf(Sweep(b, a)[k]) == ValueOf(a) + k
    decreases Remaining(b, a)
  {
    if Contains(b, a) {
      IncStep(b, a);
      SweepFrom(b, Inc(a));
    }
  }

  /** The network address as bytes. */
  function NetworkAddress(b: Ipv4Net): (a: seq<Byte>)
    ensures |a| == 4 && ValueOf(a) == Network(b)
  {
    Pow256Of4();
    FromValue(Network(b), 4)
  }

  /** `IPRange`: every address of the block except the first and the last. A
      /0 block never ends the loop (every address is in it and `inc` wraps
      around), and a /32 block yields one address, which `ips[1:0]` cannot slice. */
  function IPRange(b: Ipv4Net): Outcome<seq<seq<Byte>>>
  {
    if b.prefix == 0 then Crash(EndlessLoop)
    else
      var ips := Sweep(b, NetworkAddress(b));
      if |ips| - 1 < 1 then Crash(SliceOutOfRange) else Ok(ips[1..|ips| - 1])
  }

  /** What `IPRange` yields: the 2^(32-p) - 2 addresses strictly inside the block, in order. */
  lemma IPRangeContents(b: Ipv4Net)
    ensures b.prefix == 0 ==> IPRange(b) == Crash(EndlessLoop)
    ensures b.prefix == 32 ==> IPRange(b) == Crash(SliceOutOfRange)
    ensures 0 < b.prefix < 32 ==> IPRange(b).Ok? && |IPRange(b).value| == Size(b) - 2
    ensures 0 < b.prefix < 32 ==> forall k :: 0 <= k < Size(b) - 2 ==>
      |IPRange(b).value[k]| == 4 && ValueOf(IPRange(b).value[k]) == Network(b) + 1 + k
  {
    if b.prefix > 0 {
      ContainsRange(b, NetworkAddress(b));
      SweepFrom(b, NetworkAddress(b));
      if b.prefix < 32 {
        Pow2Monotone(1, 32 - b.prefix);
      }
    }
  }

  /** `GetNthIP`: the network address advanced by `n` calls of `inc`. */
  function Advance(a: seq<Byte>, n: nat): (r: seq<Byte>)
    ensures |r| == |a|
    decreases n
  {
    if n == 0 then a else Advance(Inc(a), n - 1)
  }

  function GetNthIP(b: Ipv4Net, n: nat): seq<Byte>
  {
    Advance(NetworkAddress(b), n)
  }

  /** Reducing before adding does not change the remainder. */
  lemma ModAdd(x: nat, y: nat, m: nat)
    requires m > 0
    ensures (x % m + y) % m == (x + y) % m
  {
    var r := x % m + y;
    DivUnique(r, m, r / m, r % m);
    DivUnique(x + y, m, x / m + r / m, r % m);
  }

  /** `n` increments add `n` modulo 2^32. */
  lemma {:induction false} AdvanceValue(a: seq<Byte>, n: nat)
    requires |a| == 4
    ensures ValueOf(Advance(a, n)) == (ValueOf(a) + n) % Two32
    decreases n
  {
    Pow256Of4();
    if n == 0 {
      DivUnique(ValueOf(a), Two32, 0, ValueOf(a));
    } else {
      IncValue(a);
      AdvanceValue(Inc(a), n - 1);
      ModAdd(ValueOf(a) + 1, n - 1, Two32);
    }
  }

  /** The n-th address of a block, for n inside the block, is its network address plus n. */
  lemma NthInBlock(b: Ipv4Net, n: nat)
    requires n < Size(b)
    ensures |GetNthIP(b, n)| == 4 && ValueOf(GetNthIP(b, n)) == Network(b) + n
    ensures Contains(b, GetNthIP(b, n))
  {
    AdvanceValue(NetworkAddress(b), n);
    DivUnique(Network(b) + n, Two32, 0, Network(b) + n);
    ContainsRange(b, GetNthIP(b, n));
  }
}
