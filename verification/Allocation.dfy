/** Peer address allocation: the in-place byte increment, the search for the next
    free address, and the check applied to an address chosen by hand. */
module Allocation {
  import opened Text
  import opened Ipv4

  /** Big-endian increment as a value: trailing 255s roll over to 0. */
  function Incremented(bytes: seq<byte>): (r: seq<byte>)
    ensures |r| == |bytes|
  {
    if bytes == [] then []
    else
      var n := |bytes| - 1;
      if bytes[n] < 255 then bytes[..n] + [bytes[n] + 1] else Incremented(bytes[..n]) + [0]
  }

  /** Incrementing is plus one modulo 256^n. */
  lemma {:induction false} IncrementedValue(bytes: seq<byte>)
    ensures Value(Incremented(bytes)) == (Value(bytes) + 1) % Pow256(|bytes|)
    ensures Value(Incremented(bytes)) == if Value(bytes) + 1 < Pow256(|bytes|) then Value(bytes) + 1 else 0
  {
    ValueBound(bytes);
    if bytes != [] {
      var n := |bytes| - 1;
      var r := Incremented(bytes);
      assert r[..n] == if bytes[n] < 255 then bytes[..n] else Incremented(bytes[..n]);
      ValueBound(bytes[..n]);
      IncrementedValue(bytes[..n]);
    }
    var v, m := Value(bytes) + 1, Pow256(|bytes|);
    if v < m {
      ModUnique(v, m, 0, v);
    } else {
      ModUnique(v, m, 1, 0);
    }
  }

  /** incIP: the carry loop over the byte buffer. */
  method IncIp(ip: array<byte>)
    modifies ip
    ensures ip[..] == Incremented(old(ip[..]))
  {
    ghost var was := ip[..];
    var i := ip.Length - 1;
    assert was[..i + 1] == was;
    while i >= 0
      invariant -1 <= i < ip.Length
      invariant forall k :: 0 <= k <= i ==> ip[k] == was[k]
      invariant forall k :: i < k < ip.Length ==> ip[k] == 0
      invariant Incremented(was) == Incremented(was[..i + 1]) + Zeros(ip.Length - 1 - i)
    {
      CarryStep(was, i);
      ip[i] := if ip[i] == 255 then 0 else ip[i] + 1;
      if ip[i] != 0 {
        assert ip[..] == was[..i] + [was[i] + 1] + Zeros(ip.Length - 1 - i);
        return;
      }
      i := i - 1;
    }
    assert ip[..] == Zeros(ip.Length);
  }

  function Zeros(n: nat): (z: seq<byte>)
    ensures |z| == n && forall k :: 0 <= k < n ==> z[k] == 0
  {
    seq(n, _ => 0)
  }

  lemma CarryStep(was: seq<byte>, i: nat)
    requires i < |was|
    ensures was[i] < 255 ==> Incremented(was[..i + 1]) == was[..i] + [was[i] + 1]
    ensures was[i] == 255 ==>
      Incremented(was[..i + 1]) + Zeros(|was| - 1 - i) == Incremented(was[..i]) + Zeros(|was| - i)
  {
    assert was[..i + 1][..i] == was[..i];
  }

  // --- The block being searched ---

  lemma BlockRange(v: nat, n: nat, p: Prefix)
    requires n == Network(n, p)
    ensures Network(v, p) == n <==> n <= v < n + BlockSize(p)
  {
    var b := BlockSize(p);
    RemainderSmall(v, b);
    if n <= v < n + b {
      SameBlock(v, n, b);
    }
  }

  /** A number less than one block above a multiple has that multiple below it. */
  lemma SameBlock(v: nat, n: nat, b: nat)
    requires b > 0 && n % b == 0 && n <= v < n + b
    ensures v - v % b == n
  {
    var q := n / b;
    assert n == q * b;
    ModUnique(v, b, q, v - n);
  }

  lemma NetworkIdempotent(v: nat, p: Prefix)
    ensures Network(Network(v, p), p) == Network(v, p)
  {
    var b := BlockSize(p);
    RemainderSmall(v, b);
    var q, r := v / b, v % b;
    assert v == q * b + r;
    ModUnique(v - r, b, q, 0);
  }

  /** The texts NextFreeIP skips: the server's own address and every taken one. */
  function Used(server: Address, taken: seq<string>): set<string> {
    UsedTexts(Dotted(server), taken)
  }

  function UsedTexts(own: string, taken: seq<string>): set<string> {
    if taken == [] then {own}
    else UsedTexts(own, taken[..|taken| - 1]) + {Trim(taken[|taken| - 1])}
  }

  lemma {:induction false} UsedTextsIff(own: string, taken: seq<string>, x: string)
    ensures x in UsedTexts(own, taken) <==> x == own || exists i :: 0 <= i < |taken| && Trim(taken[i]) == x
  {
    if taken != [] {
      var n := |taken| - 1;
      UsedTextsIff(own, taken[..n], x);
      if x in UsedTexts(own, taken[..n]) && x != own {
        var i :| 0 <= i < n && Trim(taken[..n][i]) == x;
        assert taken[i] == taken[..n][i];
      }
      if i :| 0 <= i < |taken| && Trim(taken[i]) == x {
        if i < n {
          assert taken[..n][i] == taken[i];
        }
      }
    }
  }

  /** An address the search may return: inside the subnet and past its network address. */
  predicate Candidate(server: Address, p: Prefix, a: Address) {
    Contains(server, p, a) && Value(a) > Network(Value(server), p)
  }

  predicate Free(server: Address, p: Prefix, taken: seq<string>, a: Address) {
    Candidate(server, p, a) && Dotted(a) !in Used(server, taken)
  }

  /** NextFreeIP after parsing the server CIDR. The search wraps around for ever only
      when the prefix is 0 and nothing is free, so that case is left to the caller. */
  method NextFreeIP(server: Address, p: Prefix, taken: seq<string>) returns (next: Option<Address>)
    requires p > 0 || exists a: Address :: Free(server, p, taken, a)
    ensures next.None? <==> forall a: Address :: !Free(server, p, taken, a)
    ensures next.Some? ==> Free(server, p, taken, next.value)
    ensures next.Some? ==> forall a: Address :: Free(server, p, taken, a) ==> Value(next.value) <= Value(a)
  {
    var used := CollectUsed(Dotted(server), taken);
    var net := Masked(server, p);
    var candidate := new byte[4](i requires 0 <= i < 4 => net[i]);
    assert candidate[..] == net;
    NothingSearched(server, p, taken);
    while true
      invariant Searched(server, p, taken, candidate[..])
      decreases 0x1_0000_0000 - Value(candidate[..])
    {
      ghost var before: Address := candidate[..];
      IncIp(candidate);
      ghost var c: Address := candidate[..];
      var inside := IsContained(net, p, candidate);
      if !inside {
        SearchEnds(server, p, taken, before, c);
        return None;
      }
      if candidate[..] != net && Dotted(candidate[..]) !in used {
        SearchFinds(server, p, taken, before, c);
        return Some(candidate[..]);
      }
      SearchContinues(server, p, taken, before, c);
    }
  }

  /** Filling the set of texts to skip. */
  method CollectUsed(own: string, taken: seq<string>) returns (used: set<string>)
    ensures used == UsedTexts(own, taken)
  {
    used := {own};
    for i := 0 to |taken|
      invariant used == UsedTexts(own, taken[..i])
    {
      assert taken[..i + 1][..i] == taken[..i];
      used := used + {Trim(taken[i])};
    }
    assert taken[..|taken|] == taken;
  }

  /** c is in the subnet and every candidate up to and including c is used. */
  ghost predicate Searched(server: Address, p: Prefix, taken: seq<string>, c: Address) {
    Contains(server, p, c) && Value(c) < 0x1_0000_0000
    && forall a: Address :: Candidate(server, p, a) && Value(a) <= Value(c) ==> Dotted(a) in Used(server, taken)
  }

  lemma NothingSearched(server: Address, p: Prefix, taken: seq<string>)
    ensures Searched(server, p, taken, Masked(server, p))
  {
    StartOfBlock(server, p);
    ContainsIff(server, p, Masked(server, p));
  }

  lemma SearchEnds(server: Address, p: Prefix, taken: seq<string>, before: Address, c: Address)
    requires p > 0 || exists a: Address :: Free(server, p, taken, a)
    requires Searched(server, p, taken, before) && c == Incremented(before)
    requires !Contains(Masked(server, p), p, c)
    ensures forall a: Address :: !Free(server, p, taken, a)
  {
    NextInBlock(server, p, taken, before, c);
  }

  lemma SearchFinds(server: Address, p: Prefix, taken: seq<string>, before: Address, c: Address)
    requires p > 0 || exists a: Address :: Free(server, p, taken, a)
    requires Searched(server, p, taken, before) && c == Incremented(before)
    requires Contains(Masked(server, p), p, c) && c != Masked(server, p) && Dotted(c) !in Used(server, taken)
    ensures Free(server, p, taken, c)
    ensures forall a: Address :: Free(server, p, taken, a) ==> Value(c) <= Value(a)
  {
    NextInBlock(server, p, taken, before, c);
    StartOfBlock(server, p);
    ContainsIff(server, p, before);
    BlockRange(Value(before), Network(Value(server), p), p);
  }

  /** Passing over an address that is not free extends what is known to be used. */
  lemma SearchContinues(server: Address, p: Prefix, taken: seq<string>, before: Address, c: Address)
    requires p > 0 || exists a: Address :: Free(server, p, taken, a)
    requires Searched(server, p, taken, before) && c == Incremented(before)
    requires Contains(Masked(server, p), p, c)
    requires c == Masked(server, p) || Dotted(c) in Used(server, taken)
    ensures Searched(server, p, taken, c) && Value(c) == Value(before) + 1
  {
    NextInBlock(server, p, taken, before, c);
    StartOfBlock(server, p);
    ValueOfFour(c);
    forall a: Address | Candidate(server, p, a) && Value(a) <= Value(c)
      ensures Dotted(a) in Used(server, taken)
    {
      if Value(a) == Value(c) {
        ValueInjective(a, c);
      }
    }
  }

  /** The search starts at the network address, before every candidate. */
  lemma StartOfBlock(server: Address, p: Prefix)
    ensures var n := Network(Value(server), p);
            Value(Masked(server, p)) == n && Network(n, p) == n && n < 0x1_0000_0000
  {
    MaskedValue(server, p);
    ValueOfFour(Masked(server, p));
    NetworkIdempotent(Value(server), p);
  }

  /** Containment in the masked network is containment in the server's subnet. */
  lemma ContainsMasked(server: Address, p: Prefix, a: Address)
    ensures Contains(Masked(server, p), p, a) <==> Contains(server, p, a)
  {
    ContainsIff(Masked(server, p), p, a);
    ContainsIff(server, p, a);
    StartOfBlock(server, p);
  }

  /** One step of the search from an address to its increment c: c is the next address
      of the subnet, or the subnet ends there. */
  lemma NextInBlock(server: Address, p: Prefix, taken: seq<string>, before: Address, c: Address)
    requires p > 0 || exists a: Address :: Free(server, p, taken, a)
    requires Searched(server, p, taken, before) && c == Incremented(before)
    ensures Contains(Masked(server, p), p, c) <==> Contains(server, p, c)
    ensures Contains(server, p, c) ==> Value(c) == Value(before) + 1
    ensures !Contains(server, p, c) ==> forall a: Address :: Contains(server, p, a) ==> Value(a) <= Value(before)
  {
    ContainsMasked(server, p, c);
    ContainsIff(server, p, before);
    IncrementedValue(before);
    assert Pow256(4) == 0x1_0000_0000;
    if Value(before) + 1 < 0x1_0000_0000 {
      NextInside(server, p, Value(before), c);
    } else {
      WrapLeaves(server, p, taken, Value(before), c);
    }
  }

  lemma NextInside(server: Address, p: Prefix, v: nat, c: Address)
    requires Network(v, p) == Network(Value(server), p) && Value(c) == v + 1
    ensures Contains(server, p, c) ==> Network(v + 1, p) == Network(v, p)
    ensures !Contains(server, p, c) ==> forall a: Address :: Contains(server, p, a) ==> Value(a) <= v
  {
    var n := Network(Value(server), p);
    ContainsIff(server, p, c);
    StartOfBlock(server, p);
    BlockRange(v, n, p);
    BlockRange(v + 1, n, p);
    forall a: Address | Contains(server, p, a) && !Contains(server, p, c)
      ensures Value(a) <= v
    {
      ContainsIff(server, p, a);
      BlockRange(Value(a), n, p);
    }
  }

  lemma WrapLeaves(server: Address, p: Prefix, taken: seq<string>, v: nat, c: Address)
    requires p > 0 || exists a: Address :: Free(server, p, taken, a)
    requires Network(v, p) == Network(Value(server), p) && v == 0x1_0000_0000 - 1 && Value(c) == 0
    requires forall a: Address :: Candidate(server, p, a) && Value(a) <= v ==> Dotted(a) in Used(server, taken)
    ensures !Contains(server, p, c)
    ensures forall a: Address :: Value(a) <= v
  {
    forall a: Address
      ensures Value(a) <= v
    {
      ValueOfFour(a);
    }
    if Contains(server, p, c) {
      ContainsIff(server, p, c);
      WrapOnlyAtPrefixZero(p);
    }
  }

  /** The last address and address 0 share a block only when everything is one block. */
  lemma WrapOnlyAtPrefixZero(p: Prefix)
    requires Network(0x1_0000_0000 - 1, p) == Network(0, p)
    ensures p == 0
  {
    AllOnesRemainder(p);
    SmallPowers();
    PowAdd(1, 31);
    if p > 0 {
      PowMonotone(32 - p, 31);
    }
  }

  // --- The check on a chosen address ---

  datatype Verdict = Fits | OutsideSubnet | Reserved

  /** ValidateIPInCIDR on parsed arguments. */
  function ValidateIPInCIDR(ip: Address, server: Address, p: Prefix): Verdict {
    if !Contains(server, p, ip) then OutsideSubnet
    else if ip == server || ip == Masked(server, p) then Reserved
    else Fits
  }

  /** An allocated address always passes the check that follows its allocation. */
  lemma AllocatedFits(server: Address, p: Prefix, taken: seq<string>, a: Address)
    requires Free(server, p, taken, a)
    ensures ValidateIPInCIDR(a, server, p) == Fits
  {
    StartOfBlock(server, p);
    UsedTextsIff(Dotted(server), taken, Dotted(server));
  }

  /** Conversely the search can return every address the check accepts, unless it is taken. */
  lemma FittingIsFree(server: Address, p: Prefix, taken: seq<string>, a: Address)
    requires ValidateIPInCIDR(a, server, p) == Fits
    requires forall i :: 0 <= i < |taken| ==> Trim(taken[i]) != Dotted(a)
    ensures Free(server, p, taken, a)
  {
    var n := Network(Value(server), p);
    StartOfBlock(server, p);
    ContainsIff(server, p, a);
    BlockRange(Value(a), n, p);
    if Value(a) == n {
      ValueInjective(a, Masked(server, p));
    }
    if Dotted(a) == Dotted(server) {
      DottedInjective(a, server);
    }
    UsedTextsIff(Dotted(server), taken, Dotted(a));
  }

  /** The byte comparison loop of IPNet.Contains. */
  method IsContained(net: Address, p: Prefix, ip: array<byte>) returns (inside: bool)
    requires ip.Length == 4
    ensures inside <==> Contains(net, p, ip[..])
  {
    var mask := CidrMask(p);
    for i := 0 to 4
      invariant forall j :: 0 <= j < i ==> And(net[j], mask[j]) == And(ip[..][j], mask[j])
    {
      if And(net[i], mask[i]) != And(ip[i], mask[i]) {
        assert And(net[i], mask[i]) != And(ip[..][i], mask[i]);
        return false;
      }
    }
    return true;
  }

  // --- The gateway address of the legacy protocols ---

  /** firstUsableIP after parsing: the last byte of the address plus one, wrapping. */
  function FirstUsable(ip: Address): Address {
    ip[3 := if ip[3] == 255 then 0 else ip[3] + 1]
  }

  /** It stays in the pool exactly when the pool has at least 256 addresses or the address
      was not the last of its block. */
  lemma FirstUsableIff(ip: Address, p: Prefix)
    ensures Contains(ip, p, FirstUsable(ip)) <==> p <= 24 || (ip[3] + 1) % BlockSize(p) != 0
  {
    var f, m := FirstUsable(ip), CidrMask(p);
    assert f[0] == ip[0] && f[1] == ip[1] && f[2] == ip[2];
    if p <= 24 {
      assert m[3] == 0;
      assert forall i :: 0 <= i < 4 ==> And(ip[i], m[i]) == And(f[i], m[i]);
    } else {
      assert m[3] == MaskByte(p - 24);
      MaskByteRounds(ip[3], p - 24);
      MaskByteRounds(f[3], p - 24);
      StepWithinBlock(ip[3], p - 24);
      assert Contains(ip, p, f) <==> And(ip[3], m[3]) == And(f[3], m[3]);
    }
  }

  /** Outside: 127 is the last address of its block of 128, and 128 starts the next one. */
  lemma GatewayLeavesItsPool()
    ensures var ip: Address := [10, 0, 0, 127]; FirstUsable(ip) == [10, 0, 0, 128] && !Contains(ip, 25, FirstUsable(ip))
  {
  }

  /** firstUsableIP's in-place increment: the next address, or the first of its 256 where the
      last byte wraps; inside the pool exactly under the condition above. */
  method FirstUsableIp(ip: Address) returns (first: Address)
    ensures first == FirstUsable(ip)
    ensures Value(first) == if Value(ip) % 256 == 255 then Value(ip) - 255 else Value(ip) + 1
    ensures forall p: Prefix :: Contains(ip, p, first) <==> p <= 24 || (ip[3] + 1) % BlockSize(p) != 0
  {
    var bytes := new byte[4](i requires 0 <= i < 4 => ip[i]);
    bytes[3] := if bytes[3] == 255 then 0 else bytes[3] + 1;
    assert bytes[..] == [bytes[0], bytes[1], bytes[2], bytes[3]];
    first := bytes[..];
    ValueOfFour(ip);
    ValueOfFour(first);
    forall p: Prefix
      ensures Contains(ip, p, first) <==> p <= 24 || (ip[3] + 1) % BlockSize(p) != 0
    {
      FirstUsableIff(ip, p);
    }
  }

  predicate StepStays(b: byte, m: nat)
    requires m > 0
  {
    var c := if b == 255 then 0 else b + 1;
    b - b % m == c - c % m
  }

  lemma StepWithinBlock(b: byte, ones: nat)
    requires 1 <= ones <= 8
    ensures StepStays(b, Pow2(8 - ones)) <==> (b + 1) % Pow2(8 - ones) != 0
  {
    SmallPowers();
    if ones <= 4 {
      StepOfLargeBlock(b, Pow2(8 - ones));
    } else {
      StepOfSmallBlock(b, Pow2(8 - ones));
    }
  }

  lemma StepOfLargeBlock(b: byte, m: nat)
    requires m in {16, 32, 64, 128}
    ensures StepStays(b, m) <==> (b + 1) % m != 0
  {
  }

  lemma StepOfSmallBlock(b: byte, m: nat)
    requires m in {1, 2, 4, 8}
    ensures StepStays(b, m) <==> (b + 1) % m != 0
  {
  }
}
