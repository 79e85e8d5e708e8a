/** Rendering command templates: replacing the five placeholders one after another, in
    whatever order the replacement map is walked, is one simultaneous substitution. */
module Placeholders {
  import opened Text
  import opened Ipv4
  import opened Models

  // --- Templates ---

  datatype Key = InstanceId | Name | ListenPort | PoolCidr | TunnelCidr

  function KeyName(k: Key): string {
    match k
    case InstanceId => "instance_id"
    case Name => "name"
    case ListenPort => "listen_port"
    case PoolCidr => "pool_cidr"
    case TunnelCidr => "tunnel_cidr"
  }

  function Placeholder(k: Key): string {
    "{" + KeyName(k) + "}"
  }

  datatype Token = Lit(text: string) | Hole(key: Key)

  type Template = seq<Token>

  predicate NoBrace(s: string) {
    forall i :: 0 <= i < |s| ==> s[i] != '{' && s[i] != '}'
  }

  /** Braces occur only as whole placeholders. */
  predicate WellFormed(t: Template) {
    forall i :: 0 <= i < |t| ==> t[i].Lit? ==> NoBrace(t[i].text)
  }

  function TokenText(t: Token): string {
    match t
    case Lit(text) => text
    case Hole(key) => Placeholder(key)
  }

  /** The command string a template stands for. */
  function CommandText(t: Template): string {
    if t == [] then "" else TokenText(t[0]) + CommandText(t[1..])
  }

  /** The reference meaning: every placeholder replaced at once. */
  function Rendered(t: Template, values: map<Key, string>): string
    requires forall k: Key :: k in values
  {
    if t == [] then ""
    else (if t[0].Lit? then t[0].text else values[t[0].key]) + Rendered(t[1..], values)
  }

  /** Some keys already replaced by their values. */
  function Filled(t: Template, done: set<Key>, values: map<Key, string>): Template
    requires forall k: Key :: k in values
  {
    if t == [] then []
    else [if t[0].Hole? && t[0].key in done then Lit(values[t[0].key]) else t[0]] + Filled(t[1..], done, values)
  }

  // --- strings.ReplaceAll ---

  /** Left to right, without overlaps. */
  function ReplaceAll(s: string, from: string, to: string): string
    requires from != ""
  {
    if |s| < |from| then s
    else if s[..|from|] == from then to + ReplaceAll(s[|from|..], from, to)
    else [s[0]] + ReplaceAll(s[1..], from, to)
  }

  lemma ReplaceMatch(from: string, s: string, to: string)
    requires from != ""
    ensures ReplaceAll(from + s, from, to) == to + ReplaceAll(s, from, to)
  {
    assert (from + s)[..|from|] == from && (from + s)[|from|..] == s;
  }

  lemma ReplaceMiss(c: char, s: string, from: string, to: string)
    requires from != "" && !(from <= [c] + s)
    ensures ReplaceAll([c] + s, from, to) == [c] + ReplaceAll(s, from, to)
  {
    assert ([c] + s)[1..] == s;
  }

  /** Text without an opening brace is copied. */
  lemma {:induction false} SkipPlain(p: string, s: string, from: string, to: string)
    requires from != "" && forall i :: 0 <= i < |p| ==> p[i] != from[0]
    ensures ReplaceAll(p + s, from, to) == p + ReplaceAll(s, from, to)
  {
    hide ReplaceAll;
    if p == "" {
      assert p + s == s;
    } else {
      SkipPlain(p[1..], s, from, to);
      assert p + s == [p[0]] + (p[1..] + s);
      ReplaceMiss(p[0], p[1..] + s, from, to);
      assert p == [p[0]] + p[1..];
    }
  }

  lemma KeyNameOf(k: Key)
    ensures NoBrace(KeyName(k)) && KeyName(k) != ""
  {
  }

  lemma KeyNamesDiffer(j: Key, k: Key)
    requires KeyName(j)[0] == KeyName(k)[0]
    ensures j == k
  {
  }

  lemma ReplaceHole(j: Key, k: Key, rest: string, v: string)
    ensures ReplaceAll(Placeholder(j) + rest, Placeholder(k), v) ==
            (if j == k then v else Placeholder(j)) + ReplaceAll(rest, Placeholder(k), v)
  {
    KeyNameOf(j);
    KeyNameOf(k);
    hide ReplaceAll, KeyName;
    var from, tail := Placeholder(k), KeyName(j) + "}";
    assert Placeholder(j) == ['{'] + tail && Placeholder(j) + rest == ['{'] + (tail + rest);
    if j == k {
      ReplaceMatch(from, rest, v);
    } else {
      SkipPlain(tail, rest, from, v);
      if from <= ['{'] + (tail + rest) {
        assert from[1] == (['{'] + (tail + rest))[1];
        KeyNamesDiffer(j, k);
      }
      ReplaceMiss('{', tail + rest, from, v);
    }
  }

  /** Replacing one key in a partly filled template fills that key. */
  lemma {:induction false} ReplaceFills(t: Template, done: set<Key>, k: Key, values: map<Key, string>)
    requires (forall j: Key :: j in values) && WellFormed(t) && forall j :: j in done ==> NoBrace(values[j])
    ensures ReplaceAll(CommandText(Filled(t, done, values)), Placeholder(k), values[k])
            == CommandText(Filled(t, done + {k}, values))
  {
    if t != [] {
      var rest := Filled(t[1..], done, values);
      ReplaceFills(t[1..], done, k, values);
      var head := Filled(t, done, values)[0];
      if head.Lit? {
        SkipPlain(head.text, CommandText(rest), Placeholder(k), values[k]);
      } else {
        ReplaceHole(head.key, k, CommandText(rest), values[k]);
      }
    }
  }

  // --- Any order is one substitution ---

  const KEYS: set<Key> := {InstanceId, Name, ListenPort, PoolCidr, TunnelCidr}

  lemma AllKeys()
    ensures forall k: Key :: k in KEYS
  {
    forall k: Key
      ensures k in KEYS
    {
      match k
      case InstanceId =>
      case Name =>
      case ListenPort =>
      case PoolCidr =>
      case TunnelCidr =>
    }
  }

  predicate BraceFree(values: map<Key, string>) {
    (forall k: Key :: k in values) && forall k: Key :: NoBrace(values[k])
  }

  lemma {:induction false} FilledNone(t: Template, values: map<Key, string>)
    requires forall k: Key :: k in values
    ensures Filled(t, {}, values) == t
  {
    if t != [] {
      FilledNone(t[1..], values);
    }
  }

  /** With every key filled no placeholder is left, and no brace. */
  lemma {:induction false} FilledAll(t: Template, values: map<Key, string>)
    requires BraceFree(values) && WellFormed(t)
    ensures CommandText(Filled(t, KEYS, values)) == Rendered(t, values)
    ensures NoBrace(Rendered(t, values))
  {
    if t != [] {
      FilledAll(t[1..], values);
    }
  }

  /** Replacing the keys one after another in the given order. */
  function ReplaceInOrder(s: string, order: seq<Key>, values: map<Key, string>): string
    requires forall k: Key :: k in values
  {
    if order == [] then s
    else
      var k := order[|order| - 1];
      ReplaceAll(ReplaceInOrder(s, order[..|order| - 1], values), Placeholder(k), values[k])
  }

  function Members(order: seq<Key>): set<Key> {
    set k | k in order
  }

  lemma {:induction false} OrderFills(t: Template, order: seq<Key>, values: map<Key, string>)
    requires BraceFree(values) && WellFormed(t)
    ensures ReplaceInOrder(CommandText(t), order, values) == CommandText(Filled(t, Members(order), values))
  {
    hide ReplaceAll, Placeholder, WellFormed, Filled, CommandText;
    if order == [] {
      assert Members(order) == {};
      FilledNone(t, values);
    } else {
      var n := |order| - 1;
      OrderFills(t, order[..n], values);
      ReplaceFills(t, Members(order[..n]), order[n], values);
      assert Members(order) == Members(order[..n]) + {order[n]};
    }
  }

  /** Rendering does not depend on the order in which the map is walked. */
  lemma OrderDoesNotMatter(t: Template, order: seq<Key>, values: map<Key, string>)
    requires BraceFree(values) && WellFormed(t) && Members(order) == KEYS
    ensures ReplaceInOrder(CommandText(t), order, values) == Rendered(t, values) && NoBrace(Rendered(t, values))
  {
    OrderFills(t, order, values);
    FilledAll(t, values);
  }

  // --- The values ---

  predicate InName(c: char) {
    'a' <= c <= 'z' || '0' <= c <= '9' || c == '-' || c == '_'
  }

  /** What the loop of sanitizeConfigName writes for one character. */
  function Mapped(c: char): string {
    if InName(c) then [c] else if c == ' ' || c == '.' then "-" else ""
  }

  function MapAll(s: string): string {
    if s == "" then "" else MapAll(s[..|s| - 1]) + Mapped(s[|s| - 1])
  }

  const DASHES: set<char> := {'-', '_'}

  function Sanitized(name: string): string {
    TrimChars(MapAll(Lower(Trim(name))), DASHES)
  }

  predicate AtEnd(c: char) {
    'a' <= c <= 'z' || '0' <= c <= '9'
  }

  /** A clean name: lower-case letters, digits, dashes and underscores, and no dash or underscore
      at either end. */
  predicate CleanName(s: string) {
    (forall i :: 0 <= i < |s| ==> AtEnd(s[i]) || s[i] == '-' || s[i] == '_')
    && (s != "" ==> AtEnd(s[0]) && AtEnd(s[|s| - 1]))
  }

  method SanitizeConfigName(name: string) returns (clean: string)
    ensures clean == Sanitized(name)
  {
    var lowered := Lower(Trim(name));
    var b := "";
    for i := 0 to |lowered|
      invariant b == MapAll(lowered[..i])
    {
      assert lowered[..i + 1][..i] == lowered[..i];
      var r := lowered[i];
      if 'a' <= r <= 'z' || '0' <= r <= '9' || r == '-' || r == '_' {
        b := b + [r];
      } else if r == ' ' || r == '.' {
        b := b + ['-'];
      }
    }
    assert lowered[..|lowered|] == lowered;
    clean := TrimChars(b, DASHES);
  }

  lemma {:induction false} MapAllInName(s: string)
    ensures forall i :: 0 <= i < |MapAll(s)| ==> InName(MapAll(s)[i])
  {
    if s != "" {
      MapAllInName(s[..|s| - 1]);
    }
  }

  lemma SanitizedIsClean(name: string)
    ensures CleanName(Sanitized(name)) && NoBrace(Sanitized(name))
  {
    var m := MapAll(Lower(Trim(name)));
    MapAllInName(Lower(Trim(name)));
    TrimCharsFacts(m, DASHES);
    var r := Sanitized(name);
    forall i | 0 <= i < |r|
      ensures InName(r[i])
    {
      assert r[i] in m;
    }
  }

  /** Sanitising a clean name leaves it alone, so sanitising twice is sanitising once. */
  lemma CleanIsFixed(s: string)
    requires CleanName(s)
    ensures Sanitized(s) == s
  {
    CleanIsPlain(s);
    NothingToCut(s);
    TrimFixes(s);
    MapAllFixes(s);
    hide CleanName, MapAll, Lower, Trim, TrimChars;
  }

  lemma CleanIsPlain(s: string)
    requires CleanName(s)
    ensures Trimmed(s) && Lower(s) == s
  {
  }

  lemma NothingToCut(s: string)
    requires CleanName(s)
    ensures TrimChars(s, DASHES) == s
  {
  }

  lemma {:induction false} MapAllFixes(s: string)
    requires forall i :: 0 <= i < |s| ==> InName(s[i])
    ensures MapAll(s) == s
  {
    if s != "" {
      MapAllFixes(s[..|s| - 1]);
      assert s == s[..|s| - 1] + [s[|s| - 1]];
    }
  }

  lemma SanitizeIdempotent(name: string)
    ensures Sanitized(Sanitized(name)) == Sanitized(name)
  {
    SanitizedIsClean(name);
    CleanIsFixed(Sanitized(name));
  }

  lemma DigitsNoBrace(s: string)
    requires AllDigits(s)
    ensures NoBrace(s)
  {
  }

  /** %d of an int. */
  function Signed(n: int): string {
    if n < 0 then "-" + Decimal(-n) else Decimal(n)
  }

  lemma CidrNoBrace(c: Cidr)
    ensures NoBrace(CidrText(c))
  {
    DottedText(c.ip);
    hide Decimal, Dotted;
    assert NoBrace(Decimal(c.ip[0])) && NoBrace(Decimal(c.ip[1])) && NoBrace(Decimal(c.ip[2]))
           && NoBrace(Decimal(c.ip[3]));
  }

  // --- The replacement map ---

  datatype Protocol = WireGuard | OpenVpn | L2tpIpsec | Sstp | Pptp

  predicate IsLegacy(p: Protocol) {
    p.L2tpIpsec? || p.Sstp? || p.Pptp?
  }

  /** The pool is what parsing the trimmed pool_cidr gave; the text substituted for it is taken to
      be the canonical one, where the program substitutes the trimmed text as given. */
  datatype ConfigInput = ConfigInput(protocol: Protocol, name: string, listenPort: int, pool: Option<Cidr>)

  function ValueOf(input: ConfigInput, instanceId: nat, k: Key): string
    requires input.pool.Some?
  {
    match k
    case InstanceId => Decimal(instanceId)
    case Name => Sanitized(input.name)
    case ListenPort => Signed(input.listenPort)
    case PoolCidr => CidrText(input.pool.value)
    case TunnelCidr => CidrText(input.pool.value)
  }

  /** The replacement map. */
  function Values(input: ConfigInput, instanceId: nat): (values: map<Key, string>)
    requires input.pool.Some?
    ensures forall k: Key :: k in values && values[k] == ValueOf(input, instanceId, k)
  {
    AllKeys();
    map k: Key | k in KEYS :: ValueOf(input, instanceId, k)
  }

  lemma ValuesAreBraceFree(input: ConfigInput, instanceId: nat)
    requires input.pool.Some?
    ensures BraceFree(Values(input, instanceId))
  {
    SanitizedIsClean(input.name);
    CidrNoBrace(input.pool.value);
    DigitsNoBrace(Decimal(instanceId));
    DigitsNoBrace(Decimal(if input.listenPort < 0 then -input.listenPort else input.listenPort));
    hide Decimal, Sanitized, CidrText, Values;
    forall k: Key
      ensures NoBrace(ValueOf(input, instanceId, k))
    {
    }
  }

  // --- Rendering commands ---

  /** The inner loop of replaceRuntimePlaceholders; the map is walked in some order. */
  method ReplaceEach(command: string, values: map<Key, string>) returns (out: string, ghost order: seq<Key>)
    requires forall k: Key :: k in values
    ensures Members(order) == KEYS && out == ReplaceInOrder(command, order, values)
  {
    hide ReplaceAll, KeyName;
    out, order := command, [];
    var todo := KEYS;
    while todo != {}
      invariant todo <= KEYS && Members(order) == KEYS - todo
      invariant out == ReplaceInOrder(command, order, values)
      decreases todo
    {
      var k :| k in todo;
      out := ReplaceAll(out, Placeholder(k), values[k]);
      assert (order + [k])[..|order|] == order;
      assert Members(order + [k]) == Members(order) + {k};
      order := order + [k];
      todo := todo - {k};
    }
  }

  /** A well-formed command comes out as its simultaneous substitution, without a brace. */
  ghost predicate RendersTo(command: string, out: string, values: map<Key, string>)
    requires forall k: Key :: k in values
  {
    forall t: Template :: WellFormed(t) && command == CommandText(t) ==> out == Rendered(t, values) && NoBrace(out)
  }

  ghost predicate AllRender(commands: seq<string>, out: seq<string>, values: map<Key, string>)
    requires forall k: Key :: k in values
  {
    |out| == |commands| && forall i :: 0 <= i < |commands| ==> RendersTo(commands[i], out[i], values)
  }

  lemma NothingRendered(values: map<Key, string>)
    requires forall k: Key :: k in values
    ensures AllRender([], [], values)
  {
  }

  lemma RenderedOneMore(commands: seq<string>, n: nat, out: seq<string>, rendered: string, values: map<Key, string>)
    requires (forall k: Key :: k in values) && n < |commands|
    requires AllRender(commands[..n], out, values) && RendersTo(commands[n], rendered, values)
    ensures AllRender(commands[..n + 1], out + [rendered], values)
  {
    hide RendersTo;
  }

  method RenderEach(commands: seq<string>, values: map<Key, string>) returns (out: seq<string>)
    requires BraceFree(values)
    ensures AllRender(commands, out, values)
  {
    NothingRendered(values);
    hide AllRender, RendersTo, ReplaceInOrder, Members, NoBrace;
    out := [];
    assert commands[..0] == [];
    for n := 0 to |commands|
      invariant AllRender(commands[..n], out, values)
    {
      var rendered, order := ReplaceEach(commands[n], values);
      AnyOrderRenders(commands[n], rendered, order, values);
      RenderedOneMore(commands, n, out, rendered, values);
      out := out + [rendered];
    }
    assert commands[..|commands|] == commands;
  }

  /** replaceRuntimePlaceholders, for any commands at all. */
  method ReplaceRuntimePlaceholders(commands: seq<string>, input: ConfigInput, instanceId: nat)
    returns (out: seq<string>)
    requires input.pool.Some?
    ensures AllRender(commands, out, Values(input, instanceId))
    ensures Fills(commands, out, "{instance_id}", Decimal(instanceId))
    ensures Fills(commands, out, "{name}", Sanitized(input.name))
    ensures Fills(commands, out, "{listen_port}", Signed(input.listenPort))
    ensures Fills(commands, out, "{pool_cidr}", CidrText(input.pool.value))
    ensures Fills(commands, out, "{tunnel_cidr}", CidrText(input.pool.value))
  {
    ValuesAreBraceFree(input, instanceId);
    hide *;
    out := RenderEach(commands, Values(input, instanceId));
    AllFilled(commands, out, input, instanceId);
  }

  lemma AllFilled(commands: seq<string>, out: seq<string>, input: ConfigInput, instanceId: nat)
    requires input.pool.Some? && AllRender(commands, out, Values(input, instanceId))
    ensures Fills(commands, out, "{instance_id}", Decimal(instanceId))
    ensures Fills(commands, out, "{name}", Sanitized(input.name))
    ensures Fills(commands, out, "{listen_port}", Signed(input.listenPort))
    ensures Fills(commands, out, "{pool_cidr}", CidrText(input.pool.value))
    ensures Fills(commands, out, "{tunnel_cidr}", CidrText(input.pool.value))
  {
    HoleTexts();
    ValuesAre(input, instanceId);
    hide *;
    var values := Values(input, instanceId);
    RenderingFills(commands, out, InstanceId, values);
    RenderingFills(commands, out, Name, values);
    RenderingFills(commands, out, ListenPort, values);
    RenderingFills(commands, out, PoolCidr, values);
    RenderingFills(commands, out, TunnelCidr, values);
  }

  lemma ValuesAre(input: ConfigInput, instanceId: nat)
    requires input.pool.Some?
    ensures var values := Values(input, instanceId);
            && values[InstanceId] == Decimal(instanceId) && values[Name] == Sanitized(input.name)
            && values[ListenPort] == Signed(input.listenPort)
            && values[PoolCidr] == values[TunnelCidr] == CidrText(input.pool.value)
  {
  }

  /** Around one placeholder, text without braces stays as it is. */
  ghost predicate Fills(commands: seq<string>, out: seq<string>, hole: string, value: string) {
    |out| == |commands|
    && forall i, a, b :: 0 <= i < |commands| && NoBrace(a) && NoBrace(b) && commands[i] == a + hole + b
         ==> out[i] == a + value + b
  }

  lemma RenderingFills(commands: seq<string>, out: seq<string>, k: Key, values: map<Key, string>)
    requires (forall j: Key :: j in values) && AllRender(commands, out, values)
    ensures Fills(commands, out, Placeholder(k), values[k])
  {
    hide Placeholder, NoBrace;
    forall i, a, b | 0 <= i < |commands| && NoBrace(a) && NoBrace(b) && commands[i] == a + Placeholder(k) + b
      ensures out[i] == a + values[k] + b
    {
      var t := [Lit(a), Hole(k), Lit(b)];
      ThreeTexts(t);
      ThreeTokens(t, values);
      assert WellFormed(t) && RendersTo(commands[i], out[i], values);
    }
  }

  lemma ThreeTexts(t: Template)
    requires |t| == 3
    ensures CommandText(t) == TokenText(t[0]) + TokenText(t[1]) + TokenText(t[2])
  {
    hide TokenText;
    var u, v := t[1..], t[2..];
    assert u[1..] == v && v[1..] == [];
    assert CommandText(v) == TokenText(t[2]) && CommandText(u) == TokenText(t[1]) + CommandText(v);
  }

  lemma ThreeTokens(t: Template, values: map<Key, string>)
    requires (forall j: Key :: j in values) && |t| == 3
    ensures Rendered(t, values)
            == RenderedToken(t[0], values) + RenderedToken(t[1], values) + RenderedToken(t[2], values)
  {
    var u, v := t[1..], t[2..];
    assert u[1..] == v && v[1..] == [];
    assert Rendered(v, values) == RenderedToken(t[2], values);
    assert Rendered(u, values) == RenderedToken(t[1], values) + Rendered(v, values);
  }

  function RenderedToken(t: Token, values: map<Key, string>): string
    requires forall j: Key :: j in values
  {
    if t.Lit? then t.text else values[t.key]
  }

  lemma HoleTexts()
    ensures Placeholder(InstanceId) == "{instance_id}" && Placeholder(Name) == "{name}"
    ensures Placeholder(ListenPort) == "{listen_port}"
    ensures Placeholder(PoolCidr) == "{pool_cidr}" && Placeholder(TunnelCidr) == "{tunnel_cidr}"
  {
  }

  lemma AnyOrderRenders(command: string, out: string, order: seq<Key>, values: map<Key, string>)
    requires BraceFree(values) && Members(order) == KEYS && out == ReplaceInOrder(command, order, values)
    ensures RendersTo(command, out, values)
  {
    forall t: Template | WellFormed(t) && command == CommandText(t)
      ensures out == Rendered(t, values) && NoBrace(out)
    {
      OrderDoesNotMatter(t, order, values);
    }
  }

  // --- Why whole placeholders matter ---

  lemma MissAt(c: char, s: string, from: string, to: string, i: nat)
    requires i < |from| && i < |s| + 1 && from[i] != ([c] + s)[i]
    ensures ReplaceAll([c] + s, from, to) == [c] + ReplaceAll(s, from, to)
  {
    ReplaceMiss(c, s, from, to);
  }

  lemma NothingToReplace(from: string, to: string)
    requires from != ""
    ensures ReplaceAll("", from, to) == ""
  {
  }

  lemma NestedName(inner: string)
    requires inner == Placeholder(Name) + "}"
    ensures ReplaceAll(['{'] + ("instance_" + inner), Placeholder(Name), "id") == "{instance_id}"
  {
    var from := Placeholder(Name);
    assert from[0] == '{' && from[1] == 'n' && from[5] == '}';
    hide ReplaceAll, Placeholder;
    MissAt('{', "instance_" + inner, from, "id", 1);
    SkipPlain("instance_", inner, from, "id");
    ReplaceMatch(from, "}", "id");
    ReplaceMiss('}', "", from, "id");
    NothingToReplace(from, "id");
    assert ['}'] + "" == "}";
  }

  lemma NestedInstance(inner: string)
    requires inner == Placeholder(Name) + "}"
    ensures ReplaceAll(['{'] + ("instance_" + inner), Placeholder(InstanceId), "7") == ['{'] + ("instance_" + inner)
  {
    var from := Placeholder(InstanceId);
    assert from[0] == '{' && from[1] == 'i' && from[10] == 'i' && inner[0] == '{';
    hide ReplaceAll, Placeholder;
    assert (['{'] + ("instance_" + inner))[10] == inner[0];
    MissAt('{', "instance_" + inner, from, "7", 10);
    SkipPlain("instance_", inner, from, "7");
    NestedRest(inner);
  }

  lemma NestedRest(inner: string)
    requires inner == Placeholder(Name) + "}"
    ensures ReplaceAll(inner, Placeholder(InstanceId), "7") == inner
  {
    var from := Placeholder(InstanceId);
    hide ReplaceAll;
    ReplaceHole(Name, InstanceId, "}", "7");
    ReplaceMiss('}', "", from, "7");
    NothingToReplace(from, "7");
    assert ['}'] + "" == "}";
  }

  /** Braces elsewhere would break this: in "{instance_{name}}" the order decides. */
  lemma NestedBracesDependOnOrder(values: map<Key, string>, s: string)
    requires (forall k: Key :: k in values) && values[Name] == "id" && values[InstanceId] == "7"
    requires s == "{instance_" + Placeholder(Name) + "}"
    ensures ReplaceInOrder(s, [Name, InstanceId], values) == "7"
    ensures ReplaceInOrder(s, [InstanceId, Name], values) == "{instance_id}"
  {
    var inner := Placeholder(Name) + "}";
    assert s == ['{'] + ("instance_" + inner);
    assert "{instance_id}" == Placeholder(InstanceId) + "";
    NestedName(inner);
    NestedInstance(inner);
    hide ReplaceAll, Placeholder;
    ReplaceMatch(Placeholder(InstanceId), "", "7");
    NothingToReplace(Placeholder(InstanceId), "7");
    var one, two := [Name, InstanceId], [InstanceId, Name];
    assert one[..1] == [Name] && two[..1] == [InstanceId] && [Name][..0] == [] && [InstanceId][..0] == [];
    assert ReplaceInOrder(s, [Name], values) == "{instance_id}";
    assert ReplaceInOrder(s, [InstanceId], values) == s;
  }
}
