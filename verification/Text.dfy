/** Strings as the Go and TypeScript sides handle them: trimming, lower-casing,
    decimal numerals and splitting on a separator. ASCII only. */
module Text {

  datatype Option<+T> = None | Some(value: T)

  // --- Trimming and lower case ---

  predicate IsSpace(c: char) {
    c == ' ' || '\t' <= c <= '\r'
  }

  function TrimLeft(s: string): string {
    if s != "" && IsSpace(s[0]) then TrimLeft(s[1..]) else s
  }

  function TrimRight(s: string): string {
    if s != "" && IsSpace(s[|s| - 1]) then TrimRight(s[..|s| - 1]) else s
  }

  function Trim(s: string): string {
    TrimRight(TrimLeft(s))
  }

  predicate Trimmed(s: string) {
    s == "" || (!IsSpace(s[0]) && !IsSpace(s[|s| - 1]))
  }

  lemma {:induction false} TrimLeftFacts(s: string)
    ensures var r := TrimLeft(s); (r == "" || !IsSpace(r[0])) && forall c :: c in r ==> c in s
  {
    if s != "" && IsSpace(s[0]) {
      TrimLeftFacts(s[1..]);
    }
  }

  lemma {:induction false} TrimRightFacts(s: string)
    ensures var r := TrimRight(s); (r == "" || !IsSpace(r[|r| - 1])) && r <= s
  {
    if s != "" && IsSpace(s[|s| - 1]) {
      TrimRightFacts(s[..|s| - 1]);
    }
  }

  lemma TrimFixes(s: string)
    requires Trimmed(s)
    ensures Trim(s) == s
  {
  }

  lemma TrimIsTrimmed(s: string)
    ensures Trimmed(Trim(s))
    ensures Trim(Trim(s)) == Trim(s)
    ensures forall c :: c in Trim(s) ==> c in s
  {
    var l := TrimLeft(s);
    TrimLeftFacts(s);
    TrimRightFacts(l);
    var t := Trim(s);
    assert t == "" || t[0] == l[0];
    TrimFixes(t);
    assert forall c :: c in t ==> c in l;
  }

  /** White space only: spaces and the characters 9 to 13. */
  predicate Blank(s: string) {
    forall i :: 0 <= i < |s| ==> s[i] == ' ' || 9 <= s[i] as int <= 13
  }

  /** Trimming takes white space off both ends, all of it, and nothing else. */
  lemma TrimIs(s: string)
    ensures exists a, b :: Blank(a) && Blank(b) && s == a + Trim(s) + b
    ensures var t := Trim(s); t != "" ==> !Blank(t[..1]) && !Blank(t[|t| - 1..])
  {
    TrimIsTrimmed(s);
    if Trim(s) != "" {
      EndsAreNotBlank(Trim(s));
    }
    var a := TrimLeftCuts(s);
    var b := TrimRightCuts(TrimLeft(s));
    hide Blank, TrimLeft, TrimRight, Trimmed;
    Regrouped(a, Trim(s), b);
  }

  lemma Regrouped(a: string, b: string, c: string)
    ensures a + (b + c) == a + b + c
  {
  }

  lemma EndsAreNotBlank(t: string)
    requires Trimmed(t) && t != ""
    ensures !Blank(t[..1]) && !Blank(t[|t| - 1..])
  {
    assert t[..1][0] == t[0] && t[|t| - 1..][0] == t[|t| - 1];
  }

  lemma {:induction false} TrimLeftCuts(s: string) returns (a: string)
    ensures Blank(a) && s == a + TrimLeft(s)
  {
    a := "";
    if s != "" && IsSpace(s[0]) {
      a := TrimLeftCuts(s[1..]);
      a := [s[0]] + a;
      assert s == [s[0]] + s[1..];
    }
  }

  lemma {:induction false} TrimRightCuts(s: string) returns (b: string)
    ensures Blank(b) && s == TrimRight(s) + b
  {
    b := "";
    if s != "" && IsSpace(s[|s| - 1]) {
      b := TrimRightCuts(s[..|s| - 1]);
      b := b + [s[|s| - 1]];
      assert s == s[..|s| - 1] + [s[|s| - 1]];
    }
  }

  /** strings.Trim: a set of characters cut off both ends. */
  function TrimChars(s: string, cut: set<char>): string {
    TrimCharsRight(TrimCharsLeft(s, cut), cut)
  }

  function TrimCharsLeft(s: string, cut: set<char>): string {
    if s != "" && s[0] in cut then TrimCharsLeft(s[1..], cut) else s
  }

  function TrimCharsRight(s: string, cut: set<char>): string {
    if s != "" && s[|s| - 1] in cut then TrimCharsRight(s[..|s| - 1], cut) else s
  }

  lemma {:induction false} TrimCharsLeftFacts(s: string, cut: set<char>)
    ensures var r := TrimCharsLeft(s, cut); (r != "" ==> r[0] !in cut) && |r| <= |s| && r == s[|s| - |r|..]
  {
    if s != "" && s[0] in cut {
      TrimCharsLeftFacts(s[1..], cut);
    }
  }

  lemma {:induction false} TrimCharsRightFacts(s: string, cut: set<char>)
    ensures var r := TrimCharsRight(s, cut); (r != "" ==> r[|r| - 1] !in cut) && r <= s
  {
    if s != "" && s[|s| - 1] in cut {
      TrimCharsRightFacts(s[..|s| - 1], cut);
    }
  }

  lemma TrimCharsFacts(s: string, cut: set<char>)
    ensures var r := TrimChars(s, cut);
            (r != "" ==> r[0] !in cut && r[|r| - 1] !in cut) && forall c :: c in r ==> c in s
  {
    TrimCharsLeftFacts(s, cut);
    TrimCharsRightFacts(TrimCharsLeft(s, cut), cut);
    var r, l := TrimChars(s, cut), TrimCharsLeft(s, cut);
    assert forall i :: 0 <= i < |r| ==> r[i] == l[i];
  }

  function LowerChar(c: char): char {
    if 'A' <= c <= 'Z' then (c - 'A') + 'a' else c
  }

  function Lower(s: string): (r: string)
    ensures |r| == |s|
    ensures forall i :: 0 <= i < |s| ==> r[i] == LowerChar(s[i])
  {
    seq(|s|, i requires 0 <= i < |s| => LowerChar(s[i]))
  }

  /** Lower-casing adds 32 to the codes from 65 to 90, A to Z, and leaves the others. */
  lemma LowerIs(s: string, i: nat)
    requires i < |s|
    ensures Lower(s)[i] as int == if 65 <= s[i] as int <= 90 then s[i] as int + 32 else s[i] as int
  {
    assert 'A' as int == 65 && 'Z' as int == 90 && 'a' as int == 97;
  }

  // --- Decimal numerals ---

  predicate IsDigit(c: char) {
    '0' <= c <= '9'
  }

  function DigitChar(d: nat): (c: char)
    requires d < 10
    ensures IsDigit(c) && DigitValue(c) == d
  {
    '0' + d as char
  }

  function DigitValue(c: char): (d: nat)
    requires IsDigit(c)
    ensures d < 10
  {
    (c - '0') as nat
  }

  predicate AllDigits(s: string) {
    forall i :: 0 <= i < |s| ==> IsDigit(s[i])
  }

  /** What Go's %d prints for a non-negative number. */
  function Decimal(n: nat): (s: string)
    ensures s != "" && AllDigits(s)
  {
    if n < 10 then [DigitChar(n)] else Decimal(n / 10) + [DigitChar(n % 10)]
  }

  function NumeralValue(s: string): nat
    requires AllDigits(s)
  {
    if s == "" then 0 else 10 * NumeralValue(s[..|s| - 1]) + DigitValue(s[|s| - 1])
  }

  lemma {:induction false} DecimalRoundTrip(n: nat)
    ensures NumeralValue(Decimal(n)) == n
  {
    if n >= 10 {
      DecimalRoundTrip(n / 10);
      var s := Decimal(n);
      assert s[..|s| - 1] == Decimal(n / 10);
    }
  }

  lemma DecimalInjective(m: nat, n: nat)
    requires Decimal(m) == Decimal(n)
    ensures m == n
  {
    DecimalRoundTrip(m);
    DecimalRoundTrip(n);
  }

  // --- Splitting and joining ---

  /** strings.Split(s, sep) for a one-character separator. */
  function Split(s: string, sep: char): (parts: seq<string>)
    ensures |parts| >= 1
  {
    if s == "" then [""]
    else if s[0] == sep then [""] + Split(s[1..], sep)
    else
      var rest := Split(s[1..], sep);
      [[s[0]] + rest[0]] + rest[1..]
  }

  function Join(parts: seq<string>, sep: char): string
    requires |parts| >= 1
  {
    if |parts| == 1 then parts[0] else parts[0] + [sep] + Join(parts[1..], sep)
  }

  /** A separator-free piece followed by a separator splits off as the first part. */
  lemma {:induction false} SplitHead(a: string, sep: char, rest: string)
    requires sep !in a
    ensures Split(a + [sep] + rest, sep) == [a] + Split(rest, sep)
  {
    var s := a + [sep] + rest;
    if a == "" {
      assert s[0] == sep && s[1..] == rest;
    } else {
      SplitHead(a[1..], sep, rest);
      assert s[0] == a[0] && s[1..] == a[1..] + [sep] + rest;
      assert [a[0]] + a[1..] == a;
    }
  }

  lemma {:induction false} SplitWhole(a: string, sep: char)
    requires sep !in a
    ensures Split(a, sep) == [a]
  {
    if a != "" {
      SplitWhole(a[1..], sep);
      assert [a[0]] + a[1..] == a;
    }
  }

  /** Joining separator-free parts and splitting again gives them back. */
  lemma {:induction false} SplitJoin(parts: seq<string>, sep: char)
    requires |parts| >= 1
    requires forall i :: 0 <= i < |parts| ==> sep !in parts[i]
    ensures Split(Join(parts, sep), sep) == parts
  {
    if |parts| == 1 {
      SplitWhole(parts[0], sep);
    } else {
      SplitHead(parts[0], sep, Join(parts[1..], sep));
      SplitJoin(parts[1..], sep);
    }
  }

  lemma JoinAfter(c: char, parts: seq<string>, sep: char)
    requires |parts| >= 1
    ensures Join([[c] + parts[0]] + parts[1..], sep) == [c] + Join(parts, sep)
  {
    var longer := [[c] + parts[0]] + parts[1..];
    if |parts| > 1 {
      assert longer[1..] == parts[1..];
      Regrouped([c], parts[0], [sep]);
      Regrouped([c], parts[0] + [sep], Join(parts[1..], sep));
    }
  }

  lemma {:induction false} JoinSplit(s: string, sep: char)
    ensures Join(Split(s, sep), sep) == s
  {
    if s != "" {
      JoinSplit(s[1..], sep);
      var rest := Split(s[1..], sep);
      assert s == [s[0]] + s[1..];
      if s[0] == sep {
        assert Split(s, sep)[1..] == rest;
      } else {
        JoinAfter(s[0], rest, sep);
      }
    }
  }

  lemma {:induction false} SplitParts(s: string, sep: char)
    ensures forall i :: 0 <= i < |Split(s, sep)| ==> sep !in Split(s, sep)[i]
  {
    if s != "" {
      SplitParts(s[1..], sep);
      var rest := Split(s[1..], sep);
      assert forall i :: 0 <= i < |rest| ==> sep !in rest[i];
    }
  }
}
