/** The Argon2id hash string (RFC 9106 parameters in PHC form): its printer, its parser with
    the scanning rules the parser relies on, and password verification with the key
    derivation left opaque. */
module PasswordHash {
  import opened Text
  import opened Ipv4
  import Base64

  datatype Params = Params(memory: nat, time: nat, threads: nat)

  const VERSION := 19
  const DEFAULTS := Params(65536, 3, 2)
  const KEY_LENGTH := 32

  /** The widths of the parsed fields: two uint32 and a uint8. */
  predicate InRange(p: Params) {
    p.memory < 0x1_0000_0000 && p.time < 0x1_0000_0000 && p.threads < 0x100
  }

  // --- Printing ---

  function ParamsText(p: Params): string {
    "m=" + Decimal(p.memory) + ",t=" + Decimal(p.time) + ",p=" + Decimal(p.threads)
  }

  function HashText(p: Params, salt: seq<byte>, key: seq<byte>): string {
    "$argon2id$v=" + Decimal(VERSION) + "$" + ParamsText(p) + "$" + Base64.Encode(salt) + "$" + Base64.Encode(key)
  }

  // --- Scanning, as Sscanf does ---

  /** Spaces before a number are skipped; a line break is an error. */
  function SkipSpaces(s: string): Option<string> {
    if s == "" || !IsSpace(s[0]) then Some(s)
    else if s[0] == '\n' || (s[0] == '\r' && |s| > 1 && s[1] == '\n') then None
    else SkipSpaces(s[1..])
  }

  function DigitsPrefix(s: string): (d: string)
    ensures d <= s && AllDigits(d)
  {
    if s == "" || !IsDigit(s[0]) then "" else [s[0]] + DigitsPrefix(s[1..])
  }

  /** %d into an unsigned integer below limit. */
  function ScanUint(s: string, limit: nat): Option<(nat, string)> {
    var t := SkipSpaces(s);
    if t.None? then None
    else
      var d := DigitsPrefix(t.value);
      if d == "" || NumeralValue(d) >= limit then None else Some((NumeralValue(d), t.value[|d|..]))
  }

  /** %d into an int: a sign is allowed. */
  function ScanInt(s: string): Option<(int, string)> {
    var t := SkipSpaces(s);
    if t.None? then None
    else
      var signed := t.value != "" && (t.value[0] == '-' || t.value[0] == '+');
      var negative := signed && t.value[0] == '-';
      var body := if signed then t.value[1..] else t.value;
      var d := DigitsPrefix(body);
      var limit := if negative then 0x8000_0000_0000_0000 else 0x7fff_ffff_ffff_ffff;
      var n: int := NumeralValue(d);
      if d == "" || n > limit then None else Some((if negative then -n else n, body[|d|..]))
  }

  /** Literal format text must be there; what is left over at the end is ignored. */
  function Expect(s: string, text: string): Option<string> {
    if text <= s then Some(s[|text|..]) else None
  }

  function ScanVersion(s: string): Option<int> {
    var a := Expect(s, "v=");
    if a.None? then None
    else
      var v := ScanInt(a.value);
      if v.None? then None else Some(v.value.0)
  }

  function ScanField(s: string, text: string, limit: nat): Option<(nat, string)> {
    var a := Expect(s, text);
    if a.None? then None else ScanUint(a.value, limit)
  }

  function ScanParams(s: string): Option<Params> {
    var m := ScanField(s, "m=", 0x1_0000_0000);
    if m.None? then None
    else
      var t := ScanField(m.value.1, ",t=", 0x1_0000_0000);
      if t.None? then None
      else
        var p := ScanField(t.value.1, ",p=", 0x100);
        if p.None? then None else Some(Params(m.value.0, t.value.0, p.value.0))
  }

  datatype Decoded = InvalidHash | IncompatibleVersion | Fine(params: Params, salt: seq<byte>, key: seq<byte>)

  function DecodeHash(encoded: string): Decoded {
    var parts := Split(encoded, '$');
    if |parts| != 6 || parts[1] != "argon2id" then InvalidHash
    else
      var version := ScanVersion(parts[2]);
      if version.None? then InvalidHash
      else if version.value != VERSION then IncompatibleVersion
      else
        var params, salt, key := ScanParams(parts[3]), Base64.Decode(parts[4]), Base64.Decode(parts[5]);
        if params.None? || salt.None? || key.None? then InvalidHash else Fine(params.value, salt.value, key.value)
  }

  // --- Parsing what was printed ---

  lemma {:induction false} DigitsPrefixOf(d: string, rest: string)
    requires AllDigits(d) && (rest != "" ==> !IsDigit(rest[0]))
    ensures DigitsPrefix(d + rest) == d
  {
    if d == "" {
      assert d + rest == rest;
    } else {
      assert (d + rest)[1..] == d[1..] + rest;
      DigitsPrefixOf(d[1..], rest);
      assert d == [d[0]] + d[1..];
    }
  }

  lemma ScanUintOf(n: nat, rest: string, limit: nat)
    requires n < limit && (rest != "" ==> !IsDigit(rest[0]))
    ensures ScanUint(Decimal(n) + rest, limit) == Some((n, rest))
  {
    var d := Decimal(n);
    DigitsPrefixOf(d, rest);
    DecimalRoundTrip(n);
    hide Decimal, DigitsPrefix;
    assert (d + rest)[0] == d[0] && IsDigit(d[0]);
    assert (d + rest)[|d|..] == rest;
  }

  lemma ScanFieldOf(text: string, n: nat, rest: string, limit: nat)
    requires n < limit && (rest != "" ==> !IsDigit(rest[0]))
    ensures ScanField(text + (Decimal(n) + rest), text, limit) == Some((n, rest))
  {
    ScanUintOf(n, rest, limit);
    hide Decimal, ScanUint;
    assert (text + (Decimal(n) + rest))[|text|..] == Decimal(n) + rest;
  }

  lemma ScanParamsOf(p: Params)
    requires InRange(p)
    ensures ScanParams(ParamsText(p)) == Some(p)
  {
    hide Decimal, ScanField;
    var threads := ",p=" + (Decimal(p.threads) + "");
    var time := ",t=" + (Decimal(p.time) + threads);
    ScanFieldOf("m=", p.memory, time, 0x1_0000_0000);
    ScanFieldOf(",t=", p.time, threads, 0x1_0000_0000);
    ScanFieldOf(",p=", p.threads, "", 0x100);
    assert ParamsText(p) == "m=" + (Decimal(p.memory) + time);
  }

  lemma DigitsNoDollar(n: nat)
    ensures '$' !in Decimal(n)
  {
    var d := Decimal(n);
    forall i | 0 <= i < |d|
      ensures d[i] != '$'
    {
      assert IsDigit(d[i]);
    }
  }

  lemma ParamsNoDollar(p: Params)
    ensures '$' !in ParamsText(p)
  {
    DigitsNoDollar(p.memory);
    DigitsNoDollar(p.time);
    DigitsNoDollar(p.threads);
    hide Decimal;
    assert '$' !in "m=" && '$' !in ",t=" && '$' !in ",p=";
  }

  function SixFields(algorithm: string, version: string, params: string, salt: string, key: string): string {
    "$" + algorithm + "$" + version + "$" + params + "$" + salt + "$" + key
  }

  lemma SixFieldsSplit(algorithm: string, version: string, params: string, salt: string, key: string)
    requires '$' !in algorithm && '$' !in version && '$' !in params && '$' !in salt && '$' !in key
    ensures Split(SixFields(algorithm, version, params, salt, key), '$') == ["", algorithm, version, params, salt, key]
  {
    var a := ["", algorithm, version, params, salt, key];
    hide Split;
    assert a[1..][1..] == a[2..] && a[2..][1..] == a[3..] && a[3..][1..] == a[4..] && a[4..][1..] == a[5..];
    assert Join(a[5..], '$') == key;
    assert Join(a[4..], '$') == salt + "$" + key;
    assert Join(a[3..], '$') == params + "$" + Join(a[4..], '$');
    assert Join(a[2..], '$') == version + "$" + Join(a[3..], '$');
    assert Join(a[1..], '$') == algorithm + "$" + Join(a[2..], '$');
    assert Join(a, '$') == "" + "$" + Join(a[1..], '$');
    assert SixFields(algorithm, version, params, salt, key) == Join(a, '$');
    SplitJoin(a, '$');
  }

  lemma HashTextIs(p: Params, salt: seq<byte>, key: seq<byte>)
    ensures HashText(p, salt, key)
            == SixFields("argon2id", "v=" + Decimal(VERSION), ParamsText(p), Base64.Encode(salt), Base64.Encode(key))
  {
    hide Decimal, Base64.Encode, ParamsText;
    assert "$argon2id$v=" == "$" + "argon2id" + "$" + "v=";
    Regrouped("$" + "argon2id" + "$", "v=", Decimal(VERSION));
  }

  lemma VersionIsPlain(n: nat)
    ensures '$' !in "v=" + Decimal(n)
  {
    DigitsNoDollar(n);
    hide Decimal;
    assert '$' !in "v=";
  }

  lemma DecodedFields(version: string, params: string, saltText: string, keyText: string,
                      p: Params, salt: seq<byte>, key: seq<byte>)
    requires '$' !in version && '$' !in params && '$' !in saltText && '$' !in keyText
    requires ScanVersion(version) == Some(VERSION) && ScanParams(params) == Some(p)
    requires Base64.Decode(saltText) == Some(salt) && Base64.Decode(keyText) == Some(key)
    ensures DecodeHash(SixFields("argon2id", version, params, saltText, keyText)) == Fine(p, salt, key)
  {
    hide Split, SixFields, ScanVersion, ScanParams, Base64.Decode;
    assert '$' !in "argon2id";
    SixFieldsSplit("argon2id", version, params, saltText, keyText);
  }

  /** Decoding a printed hash recovers the parameters, the salt and the key. */
  lemma DecodeEncode(p: Params, salt: seq<byte>, key: seq<byte>)
    requires InRange(p)
    ensures DecodeHash(HashText(p, salt, key)) == Fine(p, salt, key)
  {
    hide Decimal, ScanVersion, ScanParams, ParamsText, HashText, SixFields, DecodeHash, Base64.Encode, Base64.Decode;
    HashTextIs(p, salt, key);
    VersionIsPlain(VERSION);
    ParamsNoDollar(p);
    Base64.EncodeChars(salt);
    Base64.EncodeChars(key);
    VersionScans(VERSION);
    ScanParamsOf(p);
    Base64.RoundTrip(salt);
    Base64.RoundTrip(key);
    DecodedFields("v=" + Decimal(VERSION), ParamsText(p), Base64.Encode(salt), Base64.Encode(key), p, salt, key);
  }

  /** Whatever decodes has parameters of the parsed widths. */
  lemma DecodedInRange(encoded: string)
    ensures DecodeHash(encoded).Fine? ==> InRange(DecodeHash(encoded).params)
  {
    hide Split, DigitsPrefix, SkipSpaces, Base64.Decode;
  }

  /** Another algorithm is refused whatever follows, and another version likewise. */
  lemma OthersAreRefused(algorithm: string, n: nat, params: string, salt: string, key: string)
    requires '$' !in algorithm && '$' !in params && '$' !in salt && '$' !in key && n <= 0x7fff_ffff_ffff_ffff
    ensures algorithm != "argon2id" ==>
              DecodeHash(SixFields(algorithm, "v=" + Decimal(n), params, salt, key)) == InvalidHash
    ensures n != 19 ==>
              DecodeHash(SixFields("argon2id", "v=" + Decimal(n), params, salt, key)) == IncompatibleVersion
  {
    hide Split, SixFields, ScanVersion, ScanParams, Base64.Decode, Decimal;
    VersionIsPlain(n);
    assert '$' !in "argon2id";
    SixFieldsSplit(algorithm, "v=" + Decimal(n), params, salt, key);
    SixFieldsSplit("argon2id", "v=" + Decimal(n), params, salt, key);
    VersionScans(n);
  }

  lemma VersionScans(n: nat)
    requires n <= 0x7fff_ffff_ffff_ffff
    ensures ScanVersion("v=" + Decimal(n)) == Some(n)
  {
    hide Decimal, DigitsPrefix, NumeralValue;
    var d := Decimal(n);
    DigitsPrefixOf(d, "");
    DecimalRoundTrip(n);
    assert d + "" == d;
    assert ("v=" + d)[2..] == d && "v=" <= "v=" + d;
    assert IsDigit(d[0]) && SkipSpaces(d) == Some(d);
    assert ScanInt(d).Some? && ScanInt(d).value.0 == n;
  }

  // --- Hashing and verifying ---

  /** The key derivation: password, salt, parameters and key length to key bytes. */
  type Kdf = (string, seq<byte>, Params, nat) -> seq<byte>

  ghost predicate Derives(kdf: Kdf) {
    forall password, salt, p, n :: |kdf(password, salt, p, n)| == n
  }

  function HashPassword(kdf: Kdf, password: string, salt: seq<byte>): Option<string> {
    if password == "" then None else Some(HashText(DEFAULTS, salt, kdf(password, salt, DEFAULTS, KEY_LENGTH)))
  }

  /** None is a malformed hash. */
  function VerifyPassword(kdf: Kdf, encoded: string, password: string): Option<bool> {
    match DecodeHash(encoded)
    case Fine(p, salt, key) =>
      var other := kdf(password, salt, p, |key|);
      Some(|key| == |other| && key == other)
    case _ => None
  }

  /** A hash verifies exactly the passwords that derive the same key, its own among them. */
  lemma VerifyIff(kdf: Kdf, password: string, salt: seq<byte>, candidate: string)
    requires Derives(kdf) && password != ""
    ensures var encoded := HashPassword(kdf, password, salt).value;
            var costs := Params(65536, 3, 2);
            var same := kdf(candidate, salt, costs, 32) == kdf(password, salt, costs, 32);
            VerifyPassword(kdf, encoded, candidate) == Some(same)
            && VerifyPassword(kdf, encoded, password) == Some(true)
  {
    DecodeEncode(DEFAULTS, salt, kdf(password, salt, DEFAULTS, KEY_LENGTH));
  }
}
