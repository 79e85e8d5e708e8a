/** The route list of the RouterOS script: the addresses read from a comma-separated list,
    the VPN subnet computed from the interface address, and the routes to add. */
module RouterScript {
  import opened Text
  import opened Ipv4
  import opened Models

  // --- networkCidr as text ---

  predicate Numeral(s: string, longest: nat) {
    1 <= |s| <= longest && AllDigits(s)
  }

  /** The shape both regular expressions ask for: four numerals and a prefix. */
  predicate LooksLikeCidr(s: string) {
    var halves := Split(s, '/');
    && |halves| == 2 && Numeral(halves[1], 2)
    && var quads := Split(halves[0], '.');
       |quads| == 4 && forall i :: 0 <= i < 4 ==> Numeral(quads[i], 3)
  }

  /** A text of the form a.b.c.d/p, all numerals. */
  predicate IsCidr(s: string, a: string, b: string, c: string, d: string, p: string) {
    && Numeral(a, 3) && Numeral(b, 3) && Numeral(c, 3) && Numeral(d, 3) && Numeral(p, 2)
    && s == a + "." + b + "." + c + "." + d + "/" + p
  }

  /** That is what is accepted, whatever the numbers are. */
  lemma LooksLikeCidrIff(s: string)
    ensures LooksLikeCidr(s) <==> exists a, b, c, d, p :: IsCidr(s, a, b, c, d, p)
  {
    if LooksLikeCidr(s) {
      var halves := Split(s, '/');
      var quads := Split(halves[0], '.');
      JoinSplit(s, '/');
      JoinSplit(halves[0], '.');
      JoinFour(quads);
      JoinTwo(halves);
      assert IsCidr(s, quads[0], quads[1], quads[2], quads[3], halves[1]);
    }
    if a, b, c, d, p :| IsCidr(s, a, b, c, d, p) {
      CidrSplits(s, a, b, c, d, p);
    }
  }

  lemma JoinTwo(parts: seq<string>)
    requires |parts| == 2
    ensures Join(parts, '/') == parts[0] + "/" + parts[1]
  {
    assert parts[1..] == [parts[1]];
  }

  lemma JoinFour(parts: seq<string>)
    requires |parts| == 4
    ensures Join(parts, '.') == parts[0] + "." + parts[1] + "." + parts[2] + "." + parts[3]
  {
    var b, c, d := parts[1..], parts[2..], parts[3..];
    assert b[1..] == c && c[1..] == d && d == [parts[3]];
    assert Join(c, '.') == parts[2] + "." + parts[3];
    assert Join(b, '.') == parts[1] + ['.'] + Join(c, '.');
  }

  lemma NumeralHasNo(s: string, longest: nat, c: char)
    requires Numeral(s, longest) && !IsDigit(c)
    ensures c !in s
  {
    forall i | 0 <= i < |s|
      ensures s[i] != c
    {
      assert IsDigit(s[i]);
    }
  }

  lemma CidrSplits(s: string, a: string, b: string, c: string, d: string, p: string)
    requires IsCidr(s, a, b, c, d, p)
    ensures Split(s, '/') == [a + "." + b + "." + c + "." + d, p]
    ensures Split(a + "." + b + "." + c + "." + d, '.') == [a, b, c, d]
  {
    NumeralHasNo(a, 3, '.');
    NumeralHasNo(b, 3, '.');
    NumeralHasNo(c, 3, '.');
    NumeralHasNo(d, 3, '.');
    NumeralHasNo(a, 3, '/');
    NumeralHasNo(b, 3, '/');
    NumeralHasNo(c, 3, '/');
    NumeralHasNo(d, 3, '/');
    NumeralHasNo(p, 2, '/');
    hide Numeral, Split, Join;
    JoinFour([a, b, c, d]);
    SplitJoin([a, b, c, d], '.');
    var quad := a + "." + b + "." + c + "." + d;
    JoinTwo([quad, p]);
    SplitJoin([quad, p], '/');
  }

  function CidrNumbers(s: string): (r: (seq<nat>, nat))
    requires LooksLikeCidr(s)
    ensures |r.0| == 4
  {
    var halves := Split(s, '/');
    var quads := Split(halves[0], '.');
    ([NumeralValue(quads[0]), NumeralValue(quads[1]), NumeralValue(quads[2]), NumeralValue(quads[3])],
     NumeralValue(halves[1]))
  }

  function NetworkCidrText(value: string): string {
    var s := Trim(value);
    if !LooksLikeCidr(s) then ""
    else
      var numbers := CidrNumbers(s);
      PrintedNetwork(numbers.0, numbers.1)
  }

  function NumbersText(octets: seq<nat>, prefix: nat): string
    requires |octets| == 4
  {
    Decimal(octets[0]) + "." + Decimal(octets[1]) + "." + Decimal(octets[2]) + "." + Decimal(octets[3])
    + "/" + Decimal(prefix)
  }

  function PrintedNetwork(octets: seq<nat>, prefix: nat): string
    requires |octets| == 4
  {
    match NetworkCidr(octets, prefix)
    case None => ""
    case Some((net, p)) => NumbersText(net, p)
  }

  predicate OctetsInRange(octets: seq<nat>) {
    forall i :: 0 <= i < |octets| ==> octets[i] <= 255
  }

  lemma PrintedInRange(ip: Address, prefix: Prefix)
    ensures PrintedNetwork(ip, prefix) == CidrText(SubnetOf(Cidr(ip, prefix)))
  {
    FrontendNetworkAgrees(ip, prefix);
    DottedText(Masked(ip, prefix));
    hide NetworkCidr, Masked, Decimal, Dotted;
  }

  lemma PrintedOutOfRange(octets: seq<nat>, prefix: nat)
    requires |octets| == 4 && !(prefix <= 32 && OctetsInRange(octets))
    ensures PrintedNetwork(octets, prefix) == ""
  {
    hide Or, And, Shl;
  }

  /** Whatever the numerals look like, the text printed is the network of the address they
      stand for; anything out of range prints nothing. */
  lemma NetworkTextIs(value: string)
    requires LooksLikeCidr(Trim(value))
    ensures var (octets, prefix) := CidrNumbers(Trim(value));
            NetworkCidrText(value) == if prefix <= 32 && OctetsInRange(octets)
                                      then CidrText(SubnetOf(Cidr(octets, prefix))) else ""
  {
    hide LooksLikeCidr, SubnetOf, CidrText, NetworkCidr, NumbersText;
    var (octets, prefix) := CidrNumbers(Trim(value));
    assert NetworkCidrText(value) == PrintedNetwork(octets, prefix);
    hide CidrNumbers, Trim, PrintedNetwork;
    if prefix <= 32 && OctetsInRange(octets) {
      PrintedInRange(octets, prefix);
    } else {
      PrintedOutOfRange(octets, prefix);
    }
  }

  lemma {:induction false} DecimalLength(n: nat, digits: nat, bound: nat)
    requires digits > 0 && n < bound && (bound == 10 || bound == 100 || bound == 1000)
    requires digits == if bound == 10 then 1 else if bound == 100 then 2 else 3
    ensures |Decimal(n)| <= digits
  {
    if n >= 10 {
      DecimalLength(n / 10, digits - 1, bound / 10);
    }
  }

  lemma DigitsWithout(n: nat, c: char)
    requires !IsDigit(c)
    ensures c !in Decimal(n)
  {
    var d := Decimal(n);
    forall i | 0 <= i < |d|
      ensures d[i] != c
    {
      assert IsDigit(d[i]);
    }
  }

  lemma DottedHasNoSlash(ip: Address)
    ensures '/' !in Dotted(ip)
  {
    DottedText(ip);
    DigitsWithout(ip[0], '/');
    DigitsWithout(ip[1], '/');
    DigitsWithout(ip[2], '/');
    DigitsWithout(ip[3], '/');
    hide Decimal, Dotted;
  }

  lemma CidrTextSplits(c: Cidr)
    ensures Split(CidrText(c), '/') == [Dotted(c.ip), Decimal(c.prefix)]
    ensures Split(Dotted(c.ip), '.') == DottedParts(c.ip)
  {
    DottedHasNoSlash(c.ip);
    DigitsWithout(c.prefix, '/');
    hide Decimal;
    SplitHead(Dotted(c.ip), '/', Decimal(c.prefix));
    SplitWhole(Decimal(c.prefix), '/');
    assert CidrText(c) == Dotted(c.ip) + ['/'] + Decimal(c.prefix);
    DigitsWithout(c.ip[0], '.');
    DigitsWithout(c.ip[1], '.');
    DigitsWithout(c.ip[2], '.');
    DigitsWithout(c.ip[3], '.');
    SplitJoin(DottedParts(c.ip), '.');
  }

  lemma CidrTextTrimmed(c: Cidr)
    ensures Trim(CidrText(c)) == CidrText(c)
  {
    DottedText(c.ip);
    var s, first, last := CidrText(c), Decimal(c.ip[0]), Decimal(c.prefix);
    assert s[0] == first[0] && IsDigit(first[0]);
    assert s[|s| - 1] == last[|last| - 1] && IsDigit(last[|last| - 1]);
    TrimFixes(s);
  }

  lemma CidrTextNumbers(c: Cidr)
    ensures LooksLikeCidr(CidrText(c)) && CidrNumbers(CidrText(c)) == (c.ip, c.prefix)
  {
    CidrTextSplits(c);
    DecimalLength(c.prefix, 2, 100);
    DecimalRoundTrip(c.prefix);
    assert Numeral(Decimal(c.prefix), 2);
    var parts := DottedParts(c.ip);
    forall i | 0 <= i < 4
      ensures Numeral(parts[i], 3) && NumeralValue(parts[i]) == c.ip[i]
    {
      DecimalLength(c.ip[i], 3, 1000);
      DecimalRoundTrip(c.ip[i]);
    }
    hide Decimal, NumeralValue, DottedParts, Dotted, CidrText, Numeral, Split;
    var halves := Split(CidrText(c), '/');
    assert halves[1] == Decimal(c.prefix) && Split(halves[0], '.') == parts;
    assert LooksLikeCidr(CidrText(c));
    var ip: seq<nat> := c.ip;
    assert [NumeralValue(parts[0]), NumeralValue(parts[1]), NumeralValue(parts[2]), NumeralValue(parts[3])] == ip;
    assert CidrNumbers(CidrText(c)).0 == ip;
  }

  /** The frontend's text for an interface address is the backend's for its subnet. */
  lemma NetworkTextAgrees(c: Cidr)
    ensures NetworkCidrText(CidrText(c)) == CidrText(SubnetOf(c))
  {
    CidrTextTrimmed(c);
    CidrTextNumbers(c);
    NetworkTextIs(CidrText(c));
    hide LooksLikeCidr, CidrNumbers, CidrText, NetworkCidrText, Trim;
  }

  // --- The route list ---

  function Pieces(value: string): seq<string> {
    TrimEach(Split(value, ','))
  }

  function TrimEach(items: seq<string>): (trimmed: seq<string>)
    ensures |trimmed| == |items|
  {
    seq(|items|, i requires 0 <= i < |items| => Trim(items[i]))
  }

  function NonEmpty(items: seq<string>): seq<string> {
    if items == [] then []
    else (if items[0] != "" then [items[0]] else []) + NonEmpty(items[1..])
  }

  /** normalizeRouterOSAddressList. */
  function Normalized(value: string): string {
    var items := NonEmpty(Pieces(value));
    if items == [] then "" else Join(items, ',')
  }

  function CidrsOf(items: seq<string>): seq<string> {
    if items == [] then []
    else (if LooksLikeCidr(items[0]) then [items[0]] else []) + CidrsOf(items[1..])
  }

  /** routerOSIPv4Routes. */
  function Ipv4Routes(value: string): seq<string> {
    CidrsOf(Split(Normalized(value), ','))
  }

  lemma {:induction false} NonEmptyFacts(items: seq<string>, sep: char)
    requires forall i :: 0 <= i < |items| ==> sep !in items[i]
    ensures forall i :: 0 <= i < |NonEmpty(items)| ==> sep !in NonEmpty(items)[i]
    ensures CidrsOf(NonEmpty(items)) == CidrsOf(items)
  {
    EmptyIsNoCidr();
    hide LooksLikeCidr;
    if items != [] {
      NonEmptyFacts(items[1..], sep);
      var rest := NonEmpty(items[1..]);
      if items[0] != "" {
        assert NonEmpty(items) == [items[0]] + rest && NonEmpty(items)[1..] == rest;
      } else {
        assert NonEmpty(items) == rest;
      }
    }
  }

  lemma EmptyIsNoCidr()
    ensures !LooksLikeCidr("")
  {
    assert Split("", '/') == [""];
  }

  /** Normalising loses no route: the list is what a direct filter of the pieces gives. */
  lemma RoutesOfPieces(value: string)
    ensures Ipv4Routes(value) == CidrsOf(Pieces(value))
  {
    var pieces := Pieces(value);
    SplitParts(value, ',');
    forall i | 0 <= i < |pieces|
      ensures ',' !in pieces[i]
    {
      TrimIsTrimmed(Split(value, ',')[i]);
    }
    NonEmptyFacts(pieces, ',');
    EmptyIsNoCidr();
    hide LooksLikeCidr;
    if NonEmpty(pieces) == [] {
      assert Split("", ',') == [""] && [""][1..] == [];
    } else {
      SplitJoin(NonEmpty(pieces), ',');
    }
  }

  /** The routes are the pieces of the list that look like one, in their order, and reading a list
      of printed networks, with whatever white space around them, gives the networks. */
  lemma RoutesIff(value: string, x: string)
    ensures x in Ipv4Routes(value) <==> x in Pieces(value) && LooksLikeCidr(x)
  {
    RoutesOfPieces(value);
    CidrsOfIff(Pieces(value), x);
  }

  lemma {:induction false} CidrsOfIff(items: seq<string>, x: string)
    ensures x in CidrsOf(items) <==> x in items && LooksLikeCidr(x)
  {
    hide LooksLikeCidr;
    if items != [] {
      CidrsOfIff(items[1..], x);
      assert items == [items[0]] + items[1..];
    }
  }

  function PrintedCidrs(cidrs: seq<Cidr>): (texts: seq<string>)
    ensures |texts| == |cidrs|
  {
    seq(|cidrs|, i requires 0 <= i < |cidrs| => CidrText(cidrs[i]))
  }

  lemma PrintedRoutes(cidrs: seq<Cidr>, items: seq<string>)
    requires |items| == |cidrs| > 0
    requires forall i :: 0 <= i < |items| ==> Trim(items[i]) == CidrText(cidrs[i]) && ',' !in items[i]
    ensures Ipv4Routes(Join(items, ',')) == PrintedCidrs(cidrs)
  {
    var texts := PrintedCidrs(cidrs);
    forall i | 0 <= i < |texts|
      ensures LooksLikeCidr(texts[i])
    {
      CidrTextNumbers(cidrs[i]);
    }
    hide LooksLikeCidr, CidrText, Trim;
    SplitJoin(items, ',');
    RoutesOfPieces(Join(items, ','));
    assert Pieces(Join(items, ',')) == texts;
    CidrsOfAll(texts);
  }

  lemma {:induction false} CidrsOfAll(items: seq<string>)
    requires forall i :: 0 <= i < |items| ==> LooksLikeCidr(items[i])
    ensures CidrsOf(items) == items
  {
    hide LooksLikeCidr;
    if items != [] {
      CidrsOfAll(items[1..]);
      assert items == [items[0]] + items[1..];
    }
  }

  /** First occurrences only. */
  function Deduped(items: seq<string>): seq<string> {
    if items == [] then []
    else
      var before := Deduped(items[..|items| - 1]);
      if items[|items| - 1] in before then before else before + [items[|items| - 1]]
  }

  lemma {:induction false} DedupedFacts(items: seq<string>)
    ensures forall x :: x in Deduped(items) <==> x in items
    ensures forall i, j :: 0 <= i < j < |Deduped(items)| ==> Deduped(items)[i] != Deduped(items)[j]
    ensures items != [] ==> Deduped(items) != [] && Deduped(items)[0] == items[0]
  {
    if items != [] {
      var n := |items| - 1;
      assert items == items[..n] + [items[n]];
      DedupedFacts(items[..n]);
    }
  }

  const FULL_TUNNEL := "0.0.0.0/0"

  function Specific(routes: seq<string>): seq<string> {
    if routes == [] then []
    else (if routes[0] != FULL_TUNNEL then [routes[0]] else []) + Specific(routes[1..])
  }

  /** Every occurrence of another route stays, in its order. */
  lemma {:induction false} SpecificIs(routes: seq<string>)
    ensures forall x :: x in Specific(routes) <==> x in routes && x != "0.0.0.0/0"
    ensures "0.0.0.0/0" !in routes ==> Specific(routes) == routes
    ensures forall x :: x != "0.0.0.0/0" ==> multiset(Specific(routes))[x] == multiset(routes)[x]
  {
    if routes != [] {
      SpecificIs(routes[1..]);
      assert routes == [routes[0]] + routes[1..];
    }
  }

  /** Lists are filtered piece by piece. */
  lemma {:induction false} SpecificConcat(a: seq<string>, b: seq<string>)
    ensures Specific(a + b) == Specific(a) + Specific(b)
  {
    if a == [] {
      assert a + b == b;
    } else {
      assert (a + b)[1..] == a[1..] + b;
      SpecificConcat(a[1..], b);
    }
  }

  lemma SubnetRoutesAre(vpnSubnet: string, routes: seq<string>)
    ensures var out := Deduped((if vpnSubnet != "" then [vpnSubnet] else []) + Specific(routes));
            && (forall x :: x in out <==> (x == vpnSubnet && x != "") || (x in routes && x != "0.0.0.0/0"))
            && (forall i, j :: 0 <= i < j < |out| ==> out[i] != out[j])
            && (vpnSubnet != "" ==> out != [] && out[0] == vpnSubnet)
  {
    SpecificIs(routes);
    DedupedFacts((if vpnSubnet != "" then [vpnSubnet] else []) + Specific(routes));
    hide Specific, Deduped;
  }

  /** The subnet, if it is known, and every other route but the full tunnel, once each. */
  method SubnetRoutes(vpnSubnet: string, routes: seq<string>) returns (out: seq<string>)
    ensures out == Deduped((if vpnSubnet != "" then [vpnSubnet] else []) + Specific(routes))
    ensures forall x :: x in out <==> (x == vpnSubnet && x != "") || (x in routes && x != "0.0.0.0/0")
    ensures forall i, j :: 0 <= i < j < |out| ==> out[i] != out[j]
    ensures vpnSubnet != "" ==> out != [] && out[0] == vpnSubnet
  {
    hide Specific;
    var specific := Specific(routes);
    ghost var start := if vpnSubnet != "" then [vpnSubnet] else [];
    out := [];
    if vpnSubnet != "" {
      out := out + [vpnSubnet];
    }
    assert [vpnSubnet][..0] == [];
    assert start + specific[..0] == start;
    for i := 0 to |specific|
      invariant out == Deduped(start + specific[..i])
    {
      var longer := start + specific[..i + 1];
      assert longer[..|longer| - 1] == start + specific[..i];
      if specific[i] !in out {
        out := out + [specific[i]];
      }
    }
    assert specific[..|specific|] == specific;
    SubnetRoutesAre(vpnSubnet, routes);
  }
}
