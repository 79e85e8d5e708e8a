/** Raw standard base64: section 4 of RFC 4648 without padding (section 3.2). */
module Base64 {
  import opened Text
  import opened Ipv4

  type sextet = n: nat | n < 64

  function CharOf(n: sextet): char {
    if n < 26 then 'A' + n as char
    else if n < 52 then 'a' + (n - 26) as char
    else if n < 62 then '0' + (n - 52) as char
    else if n == 62 then '+' else '/'
  }

  predicate InAlphabet(c: char) {
    'A' <= c <= 'Z' || 'a' <= c <= 'z' || '0' <= c <= '9' || c == '+' || c == '/'
  }

  function SextetOf(c: char): (n: sextet)
    requires InAlphabet(c)
  {
    if 'A' <= c <= 'Z' then (c - 'A') as nat
    else if 'a' <= c <= 'z' then (c - 'a') as nat + 26
    else if '0' <= c <= '9' then (c - '0') as nat + 52
    else if c == '+' then 62 else 63
  }

  lemma CharRoundTrip(n: sextet)
    ensures InAlphabet(CharOf(n)) && SextetOf(CharOf(n)) == n
  {
  }

  // --- Sextets ---

  function Sextet0(a: byte): sextet {
    a / 4
  }

  function Sextet1(a: byte, b: byte): sextet {
    a % 4 * 16 + b / 16
  }

  function Sextet2(b: byte, c: byte): sextet {
    b % 16 * 4 + c / 64
  }

  function Sextet3(c: byte): sextet {
    c % 64
  }

  function Byte0(w: sextet, x: sextet): byte {
    var n: int := w;
    n * 4 + x / 16
  }

  function Byte1(x: sextet, y: sextet): byte {
    var n: int := x % 16;
    n * 16 + y / 4
  }

  function Byte2(y: sextet, z: sextet): byte {
    var n: int := y % 4;
    n * 64 + z
  }

  /** Three bytes make four sextets; one or two left over make two or three. */
  function Sextets(b: seq<byte>): seq<sextet> {
    if |b| == 0 then []
    else if |b| == 1 then [Sextet0(b[0]), Sextet1(b[0], 0)]
    else if |b| == 2 then [Sextet0(b[0]), Sextet1(b[0], b[1]), Sextet2(b[1], 0)]
    else [Sextet0(b[0]), Sextet1(b[0], b[1]), Sextet2(b[1], b[2]), Sextet3(b[2])] + Sextets(b[3..])
  }

  /** The bytes of a sextet sequence; None for a single sextet left over. Bits left over in
      the last sextet are dropped. */
  function Bytes(s: seq<sextet>): Option<seq<byte>> {
    if |s| == 0 then Some([])
    else if |s| == 1 then None
    else if |s| == 2 then Some([Byte0(s[0], s[1])])
    else if |s| == 3 then Some([Byte0(s[0], s[1]), Byte1(s[1], s[2])])
    else
      var rest := Bytes(s[4..]);
      if rest.None? then None
      else Some([Byte0(s[0], s[1]), Byte1(s[1], s[2]), Byte2(s[2], s[3])] + rest.value)
  }

  lemma ByteRoundTrip(a: byte, b: byte, c: byte)
    ensures Byte0(Sextet0(a), Sextet1(a, b)) == a
    ensures Byte1(Sextet1(a, b), Sextet2(b, c)) == b
    ensures Byte2(Sextet2(b, c), Sextet3(c)) == c
  {
  }

  lemma FirstByte(a: byte, b: byte)
    ensures Byte0(Sextet0(a), Sextet1(a, b)) == a
  {
    ByteRoundTrip(a, b, b);
  }

  lemma OneByte(a: byte)
    ensures Bytes(Sextets([a])) == Some([a])
  {
    var none: byte := 0;
    hide Sextet0, Sextet1, Byte0;
    FirstByte(a, none);
    assert Sextets([a]) == [Sextet0(a), Sextet1(a, 0)];
  }

  lemma TwoBytes(a: byte, b: byte)
    ensures Bytes(Sextets([a, b])) == Some([a, b])
  {
    ByteRoundTrip(a, b, 0);
    hide Sextet0, Sextet1, Sextet2, Byte0, Byte1;
    assert Sextets([a, b]) == [Sextet0(a), Sextet1(a, b), Sextet2(b, 0)];
  }

  lemma {:induction false} SextetsRoundTrip(b: seq<byte>)
    ensures Bytes(Sextets(b)) == Some(b)
  {
    if |b| == 1 {
      OneByte(b[0]);
      assert b == [b[0]];
    } else if |b| == 2 {
      TwoBytes(b[0], b[1]);
      assert b == [b[0], b[1]];
    } else if |b| >= 3 {
      ByteRoundTrip(b[0], b[1], b[2]);
      SextetsRoundTrip(b[3..]);
      assert Sextets(b)[4..] == Sextets(b[3..]);
      assert b == [b[0], b[1], b[2]] + b[3..];
    }
  }

  lemma SextetRoundTrips(w: sextet, x: sextet, y: sextet, z: sextet)
    ensures Sextet0(Byte0(w, x)) == w
    ensures Sextet1(Byte0(w, x), Byte1(x, y)) == x
    ensures Sextet2(Byte1(x, y), Byte2(y, z)) == y
    ensures Sextet3(Byte2(y, z)) == z
    ensures Sextet1(Byte0(w, x), 0) == x <==> x % 16 == 0
    ensures Sextet2(Byte1(x, y), 0) == y <==> y % 4 == 0
  {
  }

  /** No bits left over in the last sextet. */
  predicate Canonical(s: seq<sextet>) {
    match |s| % 4
    case 0 => true
    case 1 => false
    case 2 => s[|s| - 1] % 16 == 0
    case _ => s[|s| - 1] % 4 == 0
  }

  /** A sextet sequence is what its bytes encode to exactly when no bits are left over. */
  lemma {:induction false} BytesRoundTripIff(s: seq<sextet>)
    ensures Bytes(s).Some? <==> |s| % 4 != 1
    ensures Bytes(s).Some? ==> (Sextets(Bytes(s).value) == s <==> Canonical(s))
  {
    hide *;
    if |s| < 4 {
      ShortRoundTripIff(s);
    } else {
      BytesRoundTripIff(s[4..]);
      FourMore(s);
      if Bytes(s).Some? {
        LongRoundTripIff(s);
      }
    }
  }

  lemma ShortRoundTripIff(s: seq<sextet>)
    requires |s| < 4
    ensures Bytes(s).Some? <==> |s| % 4 != 1
    ensures Bytes(s).Some? ==> (Sextets(Bytes(s).value) == s <==> Canonical(s))
  {
    hide *;
    if |s| == 2 {
      TwoSextets(s[0], s[1]);
      LastOf(s, s[1]);
      assert s == [s[0], s[1]];
    } else if |s| == 3 {
      ThreeSextets(s[0], s[1], s[2]);
      LastOf(s, s[2]);
      assert s == [s[0], s[1], s[2]];
    } else {
      FewSextets(s);
    }
  }

  lemma FewSextets(s: seq<sextet>)
    requires |s| < 2
    ensures Bytes(s) == (if |s| == 0 then Some([]) else None) && Sextets([]) == [] && (|s| == 0 ==> Canonical(s))
  {
  }

  lemma TwoSextets(w: sextet, x: sextet)
    ensures var b := Bytes([w, x]); b.Some? && (Sextets(b.value) == [w, x] <==> x % 16 == 0)
  {
    hide Sextet0, Sextet1, Sextet2, Sextet3, Byte0, Byte1, Byte2;
    SextetRoundTrips(w, x, 0, 0);
  }

  lemma ThreeSextets(w: sextet, x: sextet, y: sextet)
    ensures var b := Bytes([w, x, y]); b.Some? && (Sextets(b.value) == [w, x, y] <==> y % 4 == 0)
  {
    hide Sextet0, Sextet1, Sextet2, Sextet3, Byte0, Byte1, Byte2;
    SextetRoundTrips(w, x, y, 0);
    var b := [Byte0(w, x), Byte1(x, y)];
    assert Bytes([w, x, y]) == Some(b);
    assert Sextets(b) == [Sextet0(b[0]), Sextet1(b[0], b[1]), Sextet2(b[1], 0)];
  }

  lemma LastOf(s: seq<sextet>, last: sextet)
    requires 2 <= |s| < 4 && s[|s| - 1] == last
    ensures |s| % 4 == |s| && (Canonical(s) <==> if |s| == 2 then last % 16 == 0 else last % 4 == 0)
  {
  }

  lemma FourMore(s: seq<sextet>)
    requires |s| >= 4
    ensures Bytes(s).Some? <==> Bytes(s[4..]).Some?
    ensures |s[4..]| % 4 == |s| % 4 && (Canonical(s) <==> Canonical(s[4..]))
  {
    hide Byte0, Byte1, Byte2, Canonical;
    CanonicalAfterFour(s);
  }

  lemma CanonicalAfterFour(s: seq<sextet>)
    requires |s| >= 4
    ensures |s[4..]| % 4 == |s| % 4 && (Canonical(s) <==> Canonical(s[4..]))
  {
    assert (|s| - 4) % 4 == |s| % 4;
    assert |s| > 4 ==> s[|s| - 1] == s[4..][|s| - 5];
  }

  lemma LongRoundTripIff(s: seq<sextet>)
    requires |s| >= 4 && Bytes(s).Some?
    ensures Sextets(Bytes(s).value) == s <==> Sextets(Bytes(s[4..]).value) == s[4..]
  {
    SextetRoundTrips(s[0], s[1], s[2], s[3]);
    hide Sextet0, Sextet1, Sextet2, Sextet3, Byte0, Byte1, Byte2;
    var all, rest := Bytes(s).value, Bytes(s[4..]).value;
    assert all[3..] == rest;
    assert Sextets(all) == [s[0], s[1], s[2], s[3]] + Sextets(rest);
    assert Sextets(all)[4..] == Sextets(rest);
    assert s == [s[0], s[1], s[2], s[3]] + s[4..];
  }

  // --- Text ---

  function Encode(b: seq<byte>): (s: string) {
    var x := Sextets(b);
    seq(|x|, i requires 0 <= i < |x| => CharOf(x[i]))
  }

  /** Line breaks are skipped wherever they stand. */
  function StripBreaks(s: string): string {
    if s == "" then ""
    else if s[0] == '\r' || s[0] == '\n' then StripBreaks(s[1..])
    else [s[0]] + StripBreaks(s[1..])
  }

  predicate AllInAlphabet(s: string) {
    forall i :: 0 <= i < |s| ==> InAlphabet(s[i])
  }

  function Decode(text: string): Option<seq<byte>> {
    var s := StripBreaks(text);
    if !AllInAlphabet(s) then None
    else Bytes(seq(|s|, i requires 0 <= i < |s| => SextetOf(s[i])))
  }

  lemma {:induction false} StripNothing(s: string)
    requires '\r' !in s && '\n' !in s
    ensures StripBreaks(s) == s
  {
    if s != "" {
      StripNothing(s[1..]);
    }
  }

  lemma EncodeChars(b: seq<byte>)
    ensures AllInAlphabet(Encode(b)) && '$' !in Encode(b) && '\r' !in Encode(b) && '\n' !in Encode(b)
  {
    var x := Sextets(b);
    forall i | 0 <= i < |x|
      ensures InAlphabet(Encode(b)[i])
    {
      CharRoundTrip(x[i]);
    }
  }

  /** Decoding an encoding gives the bytes back. */
  lemma RoundTrip(b: seq<byte>)
    ensures Decode(Encode(b)) == Some(b)
  {
    var x, s := Sextets(b), Encode(b);
    EncodeChars(b);
    StripNothing(s);
    forall i | 0 <= i < |x|
      ensures SextetOf(s[i]) == x[i]
    {
      CharRoundTrip(x[i]);
    }
    assert seq(|s|, i requires 0 <= i < |s| => SextetOf(s[i])) == x;
    SextetsRoundTrip(b);
  }
}
