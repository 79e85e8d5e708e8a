/** IPv4 addresses as big-endian byte sequences, and CIDR masking (section 3.1 of
    RFC 4632) in the four forms the program uses: byte masks in Go, 32-bit shifts
    in TypeScript, address/netmask pairs and CIDR text. Each is shown to denote
    the same arithmetic: value minus value modulo the block size. */
module Ipv4 {
  import opened Text

  type byte = x: int | 0 <= x < 256
  type Prefix = p: nat | p <= 32
  type Address = a: seq<byte> | |a| == 4 witness [0, 0, 0, 0]

  /** The number a big-endian byte sequence stands for. */
  function Value(bytes: seq<byte>): nat {
    if bytes == [] then 0
    else Value(bytes[..|bytes| - 1]) * 256 + bytes[|bytes| - 1]
  }

  function Pow2(n: nat): (r: nat)
    ensures r >= 1
  {
    if n == 0 then 1 else 2 * Pow2(n - 1)
  }

  function Pow256(n: nat): (r: nat)
    ensures r >= 1
  {
    if n == 0 then 1 else 256 * Pow256(n - 1)
  }

  /** Number of addresses in a block with this prefix length. */
  function BlockSize(p: Prefix): nat {
    Pow2(32 - p)
  }

  /** First address of the block that holds v. */
  function Network(v: nat, p: Prefix): nat {
    RemainderSmall(v, BlockSize(p));
    v - v % BlockSize(p)
  }

  lemma RemainderSmall(v: nat, m: nat)
    requires m > 0
    ensures 0 <= v % m <= v && v % m < m && 0 <= v / m <= v
  {
    if v < m {
      ModUnique(v, m, 0, v);
    }
    assert v == (v / m) * m + v % m;
    if v / m < 0 {
      MulBound(1, m, -(v / m), m);
    } else {
      MulBound(v / m, 1, v / m, m);
    }
  }

  lemma {:induction false} ValueBound(bytes: seq<byte>)
    ensures Value(bytes) < Pow256(|bytes|)
  {
    if bytes != [] {
      ValueBound(bytes[..|bytes| - 1]);
    }
  }

  lemma ValueOfFour(b: Address)
    ensures Value(b) == b[0] as int * 0x100_0000 + b[1] as int * 0x1_0000 + b[2] as int * 0x100 + b[3]
    ensures Value(b) < 0x1_0000_0000
  {
    var b3, b2, b1 := b[..3], b[..2], b[..1];
    assert b3[..2] == b2 && b2[..1] == b1 && b1[..0] == [];
    assert Value(b1) == b[0];
    assert Value(b2) == Value(b1) * 256 + b[1];
    assert Value(b3) == Value(b2) * 256 + b[2];
  }

  /** Different byte sequences of one length stand for different numbers. */
  lemma {:induction false} ValueInjective(a: seq<byte>, b: seq<byte>)
    requires |a| == |b| && Value(a) == Value(b)
    ensures a == b
  {
    if a != [] {
      var n := |a| - 1;
      ValueInjective(a[..n], b[..n]);
      assert a == a[..n] + [a[n]] && b == b[..n] + [b[n]];
    }
  }

  // --- Arithmetic of rounding down ---

  lemma {:induction false} PowAdd(m: nat, n: nat)
    ensures Pow2(m + n) == Pow2(m) * Pow2(n)
  {
    if n > 0 {
      PowAdd(m, n - 1);
      assert Pow2(m) * (2 * Pow2(n - 1)) == 2 * (Pow2(m) * Pow2(n - 1));
    }
  }

  lemma SmallPowers()
    ensures Pow2(0) == 1 && Pow2(1) == 2 && Pow2(2) == 4 && Pow2(3) == 8 && Pow2(4) == 16
    ensures Pow2(5) == 32 && Pow2(6) == 64 && Pow2(7) == 128 && Pow2(8) == 256
    ensures Pow2(16) == 0x1_0000 && Pow2(24) == 0x100_0000 && Pow2(32) == 0x1_0000_0000
  {
    PowAdd(8, 8);
    PowAdd(16, 8);
    PowAdd(16, 16);
  }

  lemma ModUnique(n: nat, m: nat, q: nat, r: nat)
    requires m > 0 && r < m && n == q * m + r
    ensures n % m == r
  {
    var d := n / m - q;
    assert n % m - r == -(d * m) by {
      assert n == (n / m) * m + n % m;
      assert (n / m) * m - q * m == d * m;
    }
    MultipleBelow(d, m, n % m - r);
  }

  lemma MultipleBelow(d: int, m: int, x: int)
    requires x == -(d * m) && 0 - m < x < m
    ensures x == 0
  {
  }

  /** Remainder of a two-digit number whose modulus is a multiple of the base. */
  lemma ModSplit(high: nat, low: nat, k: nat, base: nat)
    requires k > 0 && low < base
    ensures k * base > 0
    ensures (high * base + low) % (k * base) == (high % k) * base + low
  {
    var q, r := high / k, high % k;
    assert high * base == q * (k * base) + r * base by {
      assert high == q * k + r;
      assert (q * k + r) * base == (q * k) * base + r * base;
    }
    assert r * base + low < k * base by {
      assert (r + 1) * base == r * base + base;
      assert (r + 1) * base <= k * base;
    }
    ModUnique(high * base + low, k * base, q, r * base + low);
  }

  /** Whole multiples of the modulus do not change a remainder. */
  lemma ModDrop(high: nat, low: nat, m: nat)
    requires m > 0
    ensures (high * m + low) % m == low % m
  {
    assert (high + low / m) * m == high * m + (low / m) * m;
    ModUnique(high * m + low, m, high + low / m, low % m);
  }

  // --- Bitwise operators on non-negative numbers ---

  function And(a: nat, b: nat): (r: nat)
    ensures r <= a
  {
    if a == 0 || b == 0 then 0
    else 2 * And(a / 2, b / 2) + (if a % 2 == 1 && b % 2 == 1 then 1 else 0)
  }

  function Or(a: nat, b: nat): nat {
    if a == 0 then b else if b == 0 then a
    else 2 * Or(a / 2, b / 2) + (if a % 2 == 1 || b % 2 == 1 then 1 else 0)
  }

  /** t ones followed by k zeros. */
  function Ones(t: nat, k: nat): nat {
    (Pow2(t) - 1) * Pow2(k)
  }

  lemma OnesHalf(t: nat, k: nat)
    requires k > 0
    ensures Ones(t, k) == 2 * Ones(t, k - 1)
  {
    assert (Pow2(t) - 1) * (2 * Pow2(k - 1)) == 2 * ((Pow2(t) - 1) * Pow2(k - 1));
  }

  lemma AndEven(x: nat, m: nat)
    ensures And(x, 2 * m) == 2 * And(x / 2, m)
  {
    assert (2 * m) / 2 == m && (2 * m) % 2 == 0;
  }

  lemma {:induction false} AndAllBits(x: nat, t: nat)
    requires x < Pow2(t)
    ensures And(x, Pow2(t) - 1) == x
  {
    if t > 0 {
      var m := Pow2(t - 1) - 1;
      assert (2 * m + 1) / 2 == m && (2 * m + 1) % 2 == 1;
      AndAllBits(x / 2, t - 1);
    }
  }

  /** Masking with t ones over k zeros rounds a (t+k)-bit number down. */
  lemma {:induction false} AndOnes(x: nat, t: nat, k: nat)
    requires x < Pow2(t + k)
    ensures And(x, Ones(t, k)) == x - x % Pow2(k)
    decreases k
  {
    if k == 0 {
      AndAllBits(x, t);
      assert Ones(t, 0) == Pow2(t) - 1;
    } else {
      var h, b := x / 2, x % 2;
      OnesHalf(t, k);
      AndEven(x, Ones(t, k - 1));
      AndOnes(h, t, k - 1);
      ModSplit(h, b, Pow2(k - 1), 2);
    }
  }

  /** Or of a shifted number and a smaller one is their sum. */
  lemma {:induction false} OrShifted(h: nat, k: nat, l: nat)
    requires l < Pow2(k)
    ensures Or(h * Pow2(k), l) == h * Pow2(k) + l
  {
    if k > 0 {
      assert h * Pow2(k) == 2 * (h * Pow2(k - 1));
      OrShifted(h, k - 1, l / 2);
    }
  }

  // --- Go: net.CIDRMask, IP.Mask, IPNet.Contains ---

  /** One byte of net.CIDRMask: ones leading one-bits. */
  function MaskByte(ones: nat): byte {
    match ones
    case 0 => 0x00
    case 1 => 0x80
    case 2 => 0xc0
    case 3 => 0xe0
    case 4 => 0xf0
    case 5 => 0xf8
    case 6 => 0xfc
    case 7 => 0xfe
    case _ => 0xff
  }

  function MaskOnes(p: Prefix, i: nat): nat {
    if p <= 8 * i then 0 else if p >= 8 * i + 8 then 8 else p - 8 * i
  }

  function CidrMask(p: Prefix): Address {
    [MaskByte(MaskOnes(p, 0)), MaskByte(MaskOnes(p, 1)), MaskByte(MaskOnes(p, 2)), MaskByte(MaskOnes(p, 3))]
  }

  function AndBytes(a: Address, m: Address): Address {
    [And(a[0], m[0]), And(a[1], m[1]), And(a[2], m[2]), And(a[3], m[3])]
  }

  /** The ipNet.IP that net.ParseCIDR returns beside the address. */
  function Masked(ip: Address, p: Prefix): Address {
    AndBytes(ip, CidrMask(p))
  }

  /** IPNet.Contains: net and ip agree on every byte under the mask. */
  predicate Contains(net: Address, p: Prefix, ip: Address) {
    forall i :: 0 <= i < 4 ==> And(net[i], CidrMask(p)[i]) == And(ip[i], CidrMask(p)[i])
  }

  /** Masking one byte rounds it down to a multiple of a power of two. */
  lemma MaskByteRounds(b: byte, ones: nat)
    requires ones <= 8
    ensures And(b, MaskByte(ones)) == b - b % Pow2(8 - ones)
  {
    SmallPowers();
    assert MaskByte(ones) == Ones(ones, 8 - ones);
    AndOnes(b, ones, 8 - ones);
  }

  /** Masking a number's last byte is rounding the number down. */
  lemma LastByteRounds(high: nat, b: byte, ones: nat)
    requires ones <= 8
    ensures high * 256 + And(b, MaskByte(ones)) == (high * 256 + b) - (high * 256 + b) % Pow2(8 - ones)
  {
    MaskByteRounds(b, ones);
    RoundWithHigh(high, b, ones);
  }

  lemma RoundWithHigh(high: nat, b: byte, ones: nat)
    requires ones <= 8
    ensures (high * 256 + b) % Pow2(8 - ones) == b % Pow2(8 - ones)
  {
    var m, k := Pow2(8 - ones), Pow2(ones);
    assert k * m == 256 by {
      SmallPowers();
      PowAdd(ones, 8 - ones);
    }
    assert high * 256 == (high * k) * m by {
      assert (high * k) * m == high * (k * m);
    }
    ModDrop(high * k, b, m);
  }

  /** Go's byte-wise masking is rounding down to the block. */
  lemma MaskedValue(ip: Address, p: Prefix)
    ensures Value(Masked(ip, p)) == Network(Value(ip), p)
  {
    if p <= 8 {
      MaskedInByte0(ip, p);
    } else if p <= 16 {
      MaskedInByte1(ip, p);
    } else if p <= 24 {
      MaskedInByte2(ip, p);
    } else {
      ValueOfFour(ip);
      ValueOfFour(Masked(ip, p));
      WholeBytes(ip, p);
      LastByteRounds(ip[0] as int * 0x1_0000 + ip[1] as int * 0x100 + ip[2], ip[3], p - 24);
    }
  }

  lemma MaskedInByte0(ip: Address, p: Prefix)
    requires p <= 8
    ensures Value(Masked(ip, p)) == Network(Value(ip), p)
  {
    ValueOfFour(ip);
    ValueOfFour(Masked(ip, p));
    WholeBytes(ip, p);
    SmallPowers();
    MaskedTop(0, ip[0], ip[1] as int * 0x1_0000 + ip[2] as int * 0x100 + ip[3], p, 24, 0x100_0000);
  }

  lemma MaskedInByte1(ip: Address, p: Prefix)
    requires 8 < p <= 16
    ensures Value(Masked(ip, p)) == Network(Value(ip), p)
  {
    ValueOfFour(ip);
    ValueOfFour(Masked(ip, p));
    WholeBytes(ip, p);
    SmallPowers();
    MaskedTop(ip[0], ip[1], ip[2] as int * 0x100 + ip[3], p - 8, 16, 0x1_0000);
  }

  lemma MaskedInByte2(ip: Address, p: Prefix)
    requires 16 < p <= 24
    ensures Value(Masked(ip, p)) == Network(Value(ip), p)
  {
    ValueOfFour(ip);
    ValueOfFour(Masked(ip, p));
    WholeBytes(ip, p);
    SmallPowers();
    MaskedTop(ip[0] as int * 0x100 + ip[1], ip[2], ip[3], p - 16, 8, 0x100);
  }

  /** Bytes before the split are kept and bytes after it are cleared. */
  lemma WholeBytes(ip: Address, p: Prefix)
    ensures forall i :: 0 <= i < 4 && p >= 8 * i + 8 ==> Masked(ip, p)[i] == ip[i]
    ensures forall i :: 0 <= i < 4 && p <= 8 * i ==> Masked(ip, p)[i] == 0
  {
    forall i | 0 <= i < 4
      ensures p >= 8 * i + 8 ==> Masked(ip, p)[i] == ip[i]
      ensures p <= 8 * i ==> Masked(ip, p)[i] == 0
    {
      assert Masked(ip, p)[i] == And(ip[i], MaskByte(MaskOnes(p, i)));
      if p >= 8 * i + 8 {
        MaskByteRounds(ip[i], 8);
      }
      if p <= 8 * i {
        MaskByteRounds(ip[i], 0);
        SmallPowers();
      }
    }
  }

  /** The split byte b with whole bytes above it and `bits` bits below it. */
  lemma MaskedTop(high: nat, b: byte, low: nat, ones: nat, bits: nat, base: nat)
    requires ones <= 8 && low < base == Pow2(bits)
    ensures var v := (high * 256 + b) * base + low;
            (high * 256 + And(b, MaskByte(ones))) * base == v - v % Pow2(8 - ones + bits)
  {
    var h, k := high * 256 + b, Pow2(8 - ones);
    LastByteRounds(high, b, ones);
    PowAdd(8 - ones, bits);
    ModSplit(h, low, k, base);
    assert (h - h % k) * base == h * base - (h % k) * base;
  }

  /** IPNet.Contains is membership of the arithmetic block. */
  lemma ContainsIff(net: Address, p: Prefix, ip: Address)
    ensures Contains(net, p, ip) <==> Network(Value(net), p) == Network(Value(ip), p)
  {
    MaskedValue(net, p);
    MaskedValue(ip, p);
    ContainsIsMaskedEqual(net, p, ip);
    if Value(Masked(net, p)) == Value(Masked(ip, p)) {
      ValueInjective(Masked(net, p), Masked(ip, p));
    }
  }

  lemma ContainsIsMaskedEqual(net: Address, p: Prefix, ip: Address)
    ensures Contains(net, p, ip) <==> Masked(net, p) == Masked(ip, p)
  {
    var m := CidrMask(p);
    assert forall i :: 0 <= i < 4 ==> Masked(net, p)[i] == And(net[i], m[i]);
    assert forall i :: 0 <= i < 4 ==> Masked(ip, p)[i] == And(ip[i], m[i]);
    if Masked(net, p) == Masked(ip, p) {
      assert forall i :: 0 <= i < 4 ==> Masked(net, p)[i] == Masked(ip, p)[i];
    }
  }

  // --- TypeScript: networkCidr's 32-bit shifts ---

  /** x << k on 32 bits. A JavaScript result with the top bit set reads as negative
      until >>> 0; its bits are the ones kept here. */
  function Shl(x: nat, k: nat): nat {
    x * Pow2(k) % 0x1_0000_0000
  }

  /** x >>> k */
  function Shr(x: nat, k: nat): nat {
    RemainderSmall(x, Pow2(k));
    x / Pow2(k)
  }

  /** The octets and prefix that networkCidr prints, or None where it returns "".
      Its arguments are the numbers matched by the regular expression. */
  function NetworkCidr(octets: seq<nat>, prefix: nat): Option<(seq<nat>, nat)>
    requires |octets| == 4
  {
    if octets[0] > 255 || octets[1] > 255 || octets[2] > 255 || octets[3] > 255 || prefix > 32 then None
    else
      var bits := Or(Or(Or(Shl(octets[0], 24), Shl(octets[1], 16)), Shl(octets[2], 8)), octets[3]);
      var mask := if prefix == 0 then 0 else Shl(0xffff_ffff, 32 - prefix);
      var net := And(bits, mask);
      Some(([And(Shr(net, 24), 255), And(Shr(net, 16), 255), And(Shr(net, 8), 255), And(net, 255)], prefix))
  }

  /** The shifted and or-ed octets are the number the address stands for. */
  lemma PackedOctets(ip: Address)
    ensures Or(Or(Or(Shl(ip[0], 24), Shl(ip[1], 16)), Shl(ip[2], 8)), ip[3]) == Value(ip)
  {
    hide Or, Shl, Value;
    ValueOfFour(ip);
    ShlBytes(ip[0]);
    ShlBytes(ip[1]);
    ShlBytes(ip[2]);
    var a: int, b: int, c: int, d: int := ip[0], ip[1], ip[2], ip[3];
    OrAt24(a, b * 0x1_0000);
    OrAt16(a * 0x100 + b, c * 0x100);
    OrAt8(a * 0x1_0000 + b * 0x100 + c, d);
  }

  lemma ShlBytes(b: byte)
    ensures Shl(b, 24) == b * 0x100_0000 && Shl(b, 16) == b * 0x1_0000 && Shl(b, 8) == b * 0x100
  {
    SmallPowers();
    ShlByte(b, 24);
    ShlByte(b, 16);
    ShlByte(b, 8);
  }

  lemma OrAt24(h: nat, lo: nat)
    requires lo < 0x100_0000
    ensures Or(h * 0x100_0000, lo) == h * 0x100_0000 + lo
  {
    SmallPowers();
    OrBelow(h, 24, h * 0x100_0000, lo);
  }

  lemma OrAt16(h: nat, lo: nat)
    requires lo < 0x1_0000
    ensures Or(h * 0x1_0000, lo) == h * 0x1_0000 + lo
  {
    SmallPowers();
    OrBelow(h, 16, h * 0x1_0000, lo);
  }

  lemma OrAt8(h: nat, lo: nat)
    requires lo < 0x100
    ensures Or(h * 0x100, lo) == h * 0x100 + lo
  {
    SmallPowers();
    OrBelow(h, 8, h * 0x100, lo);
  }

  /** Or with a number below the lowest set bit is a sum. */
  lemma OrBelow(h: nat, k: nat, hi: nat, lo: nat)
    requires hi == h * Pow2(k) && lo < Pow2(k)
    ensures Or(hi, lo) == hi + lo
  {
    OrShifted(h, k, lo);
  }

  lemma ShlByte(b: byte, k: nat)
    requires k <= 24
    ensures Shl(b, k) == b * Pow2(k)
  {
    assert Pow2(k) <= 0x100_0000 by {
      SmallPowers();
      PowMonotone(k, 24);
    }
    MulBound(b, Pow2(k), 255, 0x100_0000);
    ModUnique(b * Pow2(k), 0x1_0000_0000, 0, b * Pow2(k));
  }

  lemma MulBound(x: nat, y: nat, a: nat, b: nat)
    requires x <= a && y <= b
    ensures x * y <= a * b
  {
    assert x * y <= a * y;
    assert a * y <= a * b;
  }

  lemma {:induction false} PowMonotone(m: nat, n: nat)
    requires m <= n
    ensures Pow2(m) <= Pow2(n)
  {
    if m < n {
      PowMonotone(m, n - 1);
    }
  }

  /** The shifted mask is p ones over 32 - p zeros. */
  lemma ShiftedMask(p: Prefix)
    ensures (if p == 0 then 0 else Shl(0xffff_ffff, 32 - p)) == Ones(p, 32 - p)
  {
    if p > 0 {
      var k := 32 - p;
      var m := Pow2(k);
      assert Pow2(p) * m == 0x1_0000_0000 by {
        SmallPowers();
        PowAdd(p, k);
      }
      assert Ones(p, k) == 0x1_0000_0000 - m by {
        assert (Pow2(p) - 1) * m == Pow2(p) * m - m;
      }
      ModUnique(0xffff_ffff * m, 0x1_0000_0000, m - 1, Ones(p, k));
    }
  }

  /** Taking the bytes of a 32-bit number apart again. */
  lemma UnpackedOctets(a: Address)
    ensures var v := Value(a);
            And(Shr(v, 24), 255) == a[0] && And(Shr(v, 16), 255) == a[1] &&
            And(Shr(v, 8), 255) == a[2] && And(v, 255) == a[3]
  {
    SmallPowers();
    ValueOfFour(a);
    ByteAt(Value(a), 0, a[0], a[1] as int * 0x1_0000 + a[2] as int * 0x100 + a[3], 24, 0x100_0000);
    ByteAt(Value(a), a[0], a[1], a[2] as int * 0x100 + a[3], 16, 0x1_0000);
    ByteAt(Value(a), a[0] as int * 0x100 + a[1], a[2], a[3], 8, 0x100);
    KeepByte(a[0] as int * 0x1_0000 + a[1] as int * 0x100 + a[2], a[3]);
  }

  /** Shifting right by k and masking with 255 extracts the byte above bit k. */
  lemma ByteAt(v: nat, high: nat, b: byte, low: nat, k: nat, base: nat)
    requires low < base == Pow2(k) && v == (high * 256 + b) * base + low
    ensures And(Shr(v, k), 255) == b
  {
    DivExact(high * 256 + b, low, base);
    KeepByte(high, b);
  }

  lemma DivExact(q: nat, r: nat, m: nat)
    requires r < m
    ensures (q * m + r) / m == q
  {
    ModUnique(q * m + r, m, q, r);
    var d := (q * m + r) / m - q;
    assert d * m == 0 by {
      assert q * m + r == ((q * m + r) / m) * m + (q * m + r) % m;
    }
  }

  lemma KeepByte(high: nat, b: byte)
    ensures And(high * 256 + b, 255) == b
  {
    SmallPowers();
    AndLow(high, b, 8);
    AndOnes(b, 8, 0);
  }

  /** A mask of t ones ignores everything above bit t. */
  lemma {:induction false} AndLow(h: nat, l: nat, t: nat)
    requires l < Pow2(t)
    ensures And(h * Pow2(t) + l, Pow2(t) - 1) == And(l, Pow2(t) - 1)
  {
    if t > 0 {
      AndLow(h, l / 2, t - 1);
      AndLowStep(h, l, Pow2(t - 1));
    }
  }

  lemma AndLowStep(h: nat, l: nat, p: nat)
    requires p > 0 && And(h * p + l / 2, p - 1) == And(l / 2, p - 1)
    ensures And(h * (2 * p) + l, 2 * p - 1) == And(l, 2 * p - 1)
  {
    hide And;
    var y := h * p;
    Doubled(h, p);
    AndOddMask(2 * y + l, p - 1);
    AndOddMask(l, p - 1);
    HalfAndParity(y, l);
  }

  lemma Doubled(h: nat, p: nat)
    ensures h * (2 * p) == 2 * (h * p)
  {
  }

  lemma AndOddMask(x: nat, k: nat)
    ensures And(x, 2 * k + 1) == 2 * And(x / 2, k) + x % 2
  {
    assert (2 * k + 1) / 2 == k && (2 * k + 1) % 2 == 1;
  }

  lemma HalfAndParity(y: nat, l: nat)
    ensures (2 * y + l) / 2 == y + l / 2 && (2 * y + l) % 2 == l % 2
  {
  }

  /** Masking the 32-bit number with p ones gives the arithmetic network. */
  lemma OnesGiveNetwork(ip: Address, p: Prefix)
    ensures And(Value(ip), Ones(p, 32 - p)) == Network(Value(ip), p)
  {
    assert Value(ip) < Pow2(p + (32 - p)) by {
      SmallPowers();
      ValueOfFour(ip);
    }
    AndOnes(Value(ip), p, 32 - p);
  }

  /** The frontend's network is the backend's, and both round down arithmetically. */
  lemma FrontendNetworkAgrees(ip: Address, p: Prefix)
    ensures NetworkCidr(ip, p) == Some((Masked(ip, p), p))
    ensures Value(Masked(ip, p)) == Value(ip) - Value(ip) % Pow2(32 - p)
  {
    PackedOctets(ip);
    ShiftedMask(p);
    OnesGiveNetwork(ip, p);
    MaskedValue(ip, p);
    UnpackedOctets(Masked(ip, p));
    var m := Masked(ip, p);
    assert m == [m[0], m[1], m[2], m[3]];
  }

  // --- OpenVPN: address/netmask pairs ---

  /** openVPNServerNetwork after parsing: network address and netmask, refused
      unless the prefix leaves host addresses. */
  function ServerNetwork(ip: Address, p: Prefix): (r: Option<(Address, Address)>)
    ensures r.Some? <==> 0 < p < 32
  {
    if p <= 0 || p >= 32 then None else Some((Masked(ip, p), CidrMask(p)))
  }

  /** The server directive's address/netmask pair matches an address exactly when
      the CIDR used by the firewall plan contains it. */
  lemma NetmaskPairMatchesCidr(ip: Address, p: Prefix, x: Address)
    requires ServerNetwork(ip, p).Some?
    ensures var (addr, mask) := ServerNetwork(ip, p).value;
            (AndBytes(x, mask) == addr <==> Contains(ip, p, x))
            && Value(addr) == Network(Value(ip), p)
            && Value(mask) == 0x1_0000_0000 - Pow2(32 - p)
  {
    MaskedValue(ip, p);
    ContainsIsMaskedEqual(ip, p, x);
    NetmaskValue(p);
  }

  /** The netmask is the mask applied to 255.255.255.255. */
  lemma NetmaskValue(p: Prefix)
    ensures Value(CidrMask(p)) == 0x1_0000_0000 - Pow2(32 - p)
  {
    var ones: Address := [0xff, 0xff, 0xff, 0xff];
    MaskedValue(ones, p);
    AndAllOnes(CidrMask(p));
    ValueOfFour(ones);
    AllOnesRemainder(p);
  }

  lemma AndAllOnes(m: Address)
    ensures AndBytes([0xff, 0xff, 0xff, 0xff], m) == m
  {
    forall i | 0 <= i < 4
      ensures And(0xff, m[i]) == m[i]
    {
      AndCommutes(0xff, m[i]);
      SmallPowers();
      AndOnes(m[i], 8, 0);
    }
  }

  lemma {:induction false} AndCommutes(a: nat, b: nat)
    ensures And(a, b) == And(b, a)
  {
    if a != 0 && b != 0 {
      AndCommutes(a / 2, b / 2);
    }
  }

  lemma AllOnesRemainder(p: Prefix)
    ensures (0x1_0000_0000 - 1) % Pow2(32 - p) == Pow2(32 - p) - 1
  {
    SmallPowers();
    PowAdd(p, 32 - p);
    var m := Pow2(32 - p);
    assert (Pow2(p) - 1) * m == Pow2(p) * m - m;
    ModUnique(0x1_0000_0000 - 1, m, Pow2(p) - 1, m - 1);
  }

  // --- Text ---

  /** IP.String for an IPv4 address. */
  function Dotted(ip: Address): string {
    Join(DottedParts(ip), '.')
  }

  function DottedParts(ip: Address): (parts: seq<string>)
    ensures |parts| == 4 && forall i :: 0 <= i < 4 ==> parts[i] == Decimal(ip[i])
  {
    [Decimal(ip[0]), Decimal(ip[1]), Decimal(ip[2]), Decimal(ip[3])]
  }

  lemma DottedText(ip: Address)
    ensures Dotted(ip) == Decimal(ip[0]) + "." + Decimal(ip[1]) + "." + Decimal(ip[2]) + "." + Decimal(ip[3])
  {
    var parts := DottedParts(ip);
    assert parts[2..][1..] == parts[3..] && parts[1..][1..] == parts[2..] && parts[3..] == [parts[3]];
    assert Join(parts[3..], '.') == parts[3];
    assert Join(parts[2..], '.') == parts[2] + "." + parts[3];
    assert Join(parts[1..], '.') == parts[1] + "." + Join(parts[2..], '.');
    assert Dotted(ip) == parts[0] + "." + Join(parts[1..], '.');
  }

  lemma DottedInjective(a: Address, b: Address)
    requires Dotted(a) == Dotted(b)
    ensures a == b
  {
    SplitJoin(DottedParts(a), '.');
    SplitJoin(DottedParts(b), '.');
    forall i | 0 <= i < 4
      ensures a[i] == b[i]
    {
      assert DottedParts(a)[i] == DottedParts(b)[i];
      DecimalInjective(a[i], b[i]);
    }
  }
}
