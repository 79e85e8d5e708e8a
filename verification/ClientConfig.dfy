/** The client configuration: printed on the server, taken apart again in the browser. */
module ClientConfig {
  import opened Text

  datatype Server = Server(publicKey: string, endpoint: string, listenPort: nat, dns: string, mtu: int)

  datatype Client = Client(
    privateKey: string,
    presharedKey: string,
    assignedIp: string,
    allowedIps: string,
    keepalive: int)

  const PLACEHOLDER := "<your-private-key>"

  // --- Printing ---

  datatype Name = PrivateKey | Address | Dns | Mtu | PublicKey | PresharedKey | Endpoint | AllowedIps | Keepalive

  function NameText(n: Name): string {
    match n
    case PrivateKey => "PrivateKey"
    case Address => "Address"
    case Dns => "DNS"
    case Mtu => "MTU"
    case PublicKey => "PublicKey"
    case PresharedKey => "PresharedKey"
    case Endpoint => "Endpoint"
    case AllowedIps => "AllowedIPs"
    case Keepalive => "PersistentKeepalive"
  }

  /** A line of the file: a section header or blank line, or a named value. */
  datatype Entry = Header(text: string) | Field(name: Name, value: string)

  function Line(e: Entry): string {
    match e
    case Header(text) => text
    case Field(name, value) => NameText(name) + " = " + value
  }

  /** Every line ends in a line break. */
  function FileText(es: seq<Entry>): string {
    if es == [] then "" else Line(es[0]) + "\n" + FileText(es[1..])
  }

  function When(present: bool, e: Entry): seq<Entry> {
    if present then [e] else []
  }

  /** The value the file gives a name, or the empty string where the name is left out. */
  function Shown(s: Server, c: Client, n: Name): string {
    match n
    case PrivateKey => if c.privateKey != "" then c.privateKey else PLACEHOLDER
    case Address => c.assignedIp + "/32"
    case Dns => s.dns
    case Mtu => if s.mtu > 0 then Decimal(s.mtu) else ""
    case PublicKey => s.publicKey
    case PresharedKey => c.presharedKey
    case Endpoint => s.endpoint + ":" + Decimal(s.listenPort)
    case AllowedIps => c.allowedIps
    case Keepalive => if c.keepalive > 0 then Decimal(c.keepalive) else ""
  }

  function FieldFor(s: Server, c: Client, n: Name): Entry {
    Field(n, Shown(s, c, n))
  }

  function InterfaceEntries(s: Server, c: Client): seq<Entry> {
    [Header("[Interface]")] + [FieldFor(s, c, PrivateKey)] + [FieldFor(s, c, Address)]
    + When(s.dns != "", FieldFor(s, c, Dns)) + When(s.mtu > 0, FieldFor(s, c, Mtu)) + [Header("")]
  }

  function PeerEntries(s: Server, c: Client): seq<Entry> {
    [Header("[Peer]")] + [FieldFor(s, c, PublicKey)] + When(c.presharedKey != "", FieldFor(s, c, PresharedKey))
    + [FieldFor(s, c, Endpoint)] + [FieldFor(s, c, AllowedIps)] + When(c.keepalive > 0, FieldFor(s, c, Keepalive))
  }

  function Entries(s: Server, c: Client): seq<Entry> {
    InterfaceEntries(s, c) + PeerEntries(s, c)
  }

  lemma {:induction false} FileTextConcat(a: seq<Entry>, b: seq<Entry>)
    ensures FileText(a + b) == FileText(a) + FileText(b)
  {
    hide Line;
    if a == [] {
      assert a + b == b;
    } else {
      assert (a + b)[1..] == a[1..] + b;
      FileTextConcat(a[1..], b);
    }
  }

  lemma FileTextOne(e: Entry)
    ensures FileText([e]) == Line(e) + "\n"
  {
    assert [e][1..] == [];
  }

  /** One more line, if it is present. */
  lemma FileTextMore(es: seq<Entry>, present: bool, e: Entry)
    ensures FileText(es + When(present, e)) == if present then FileText(es) + Line(e) + "\n" else FileText(es)
  {
    hide Line;
    FileTextConcat(es, When(present, e));
    FileTextOne(e);
  }

  /** The interface half of BuildClientConfig. */
  method WriteInterface(s: Server, c: Client) returns (text: string)
    ensures text == FileText(InterfaceEntries(s, c))
  {
    ghost var a := [Header("[Interface]")];
    ghost var b := a + [FieldFor(s, c, PrivateKey)];
    ghost var d := b + [FieldFor(s, c, Address)];
    ghost var e := d + When(s.dns != "", FieldFor(s, c, Dns));
    ghost var f := e + When(s.mtu > 0, FieldFor(s, c, Mtu));
    FileTextOne(Header("[Interface]"));
    FileTextMore(a, true, FieldFor(s, c, PrivateKey));
    FileTextMore(b, true, FieldFor(s, c, Address));
    FileTextMore(d, s.dns != "", FieldFor(s, c, Dns));
    FileTextMore(e, s.mtu > 0, FieldFor(s, c, Mtu));
    FileTextMore(f, true, Header(""));
    hide FileText, NameText, Decimal;
    text := "[Interface]" + "\n";
    if c.privateKey != "" {
      text := text + (NameText(PrivateKey) + " = " + c.privateKey) + "\n";
    } else {
      text := text + (NameText(PrivateKey) + " = " + PLACEHOLDER) + "\n";
    }
    text := text + (NameText(Address) + " = " + (c.assignedIp + "/32")) + "\n";
    if s.dns != "" {
      text := text + (NameText(Dns) + " = " + s.dns) + "\n";
    }
    if s.mtu > 0 {
      text := text + (NameText(Mtu) + " = " + Decimal(s.mtu)) + "\n";
    }
    text := text + "" + "\n";
  }

  /** The peer half. */
  method WritePeer(s: Server, c: Client) returns (text: string)
    ensures text == FileText(PeerEntries(s, c))
  {
    ghost var a := [Header("[Peer]")];
    ghost var b := a + [FieldFor(s, c, PublicKey)];
    ghost var d := b + When(c.presharedKey != "", FieldFor(s, c, PresharedKey));
    ghost var e := d + [FieldFor(s, c, Endpoint)];
    ghost var f := e + [FieldFor(s, c, AllowedIps)];
    FileTextOne(Header("[Peer]"));
    FileTextMore(a, true, FieldFor(s, c, PublicKey));
    FileTextMore(b, c.presharedKey != "", FieldFor(s, c, PresharedKey));
    FileTextMore(d, true, FieldFor(s, c, Endpoint));
    FileTextMore(e, true, FieldFor(s, c, AllowedIps));
    FileTextMore(f, c.keepalive > 0, FieldFor(s, c, Keepalive));
    hide FileText, NameText, Decimal;
    text := "[Peer]" + "\n";
    text := text + (NameText(PublicKey) + " = " + s.publicKey) + "\n";
    if c.presharedKey != "" {
      text := text + (NameText(PresharedKey) + " = " + c.presharedKey) + "\n";
    }
    text := text + (NameText(Endpoint) + " = " + (s.endpoint + ":" + Decimal(s.listenPort))) + "\n";
    text := text + (NameText(AllowedIps) + " = " + c.allowedIps) + "\n";
    if c.keepalive > 0 {
      text := text + (NameText(Keepalive) + " = " + Decimal(c.keepalive)) + "\n";
    }
  }

  method BuildClientConfig(s: Server, c: Client) returns (text: string)
    ensures text == FileText(Entries(s, c))
  {
    hide FileText, InterfaceEntries, PeerEntries;
    var interfacePart := WriteInterface(s, c);
    var peerPart := WritePeer(s, c);
    FileTextConcat(InterfaceEntries(s, c), PeerEntries(s, c));
    text := interfacePart + peerPart;
  }

  // --- Parsing ---

  /** The test configValue puts to a line. */
  predicate Matches(line: string, key: string) {
    Lower(key) + " =" <= Lower(Trim(line))
  }

  function FirstMatch(lines: seq<string>, key: string): Option<string> {
    if lines == [] then None
    else if Matches(lines[0], key) then Some(lines[0])
    else FirstMatch(lines[1..], key)
  }

  /** Everything after the first equals sign. */
  function AfterEquals(line: string): string {
    var parts := Split(line, '=');
    if |parts| == 1 then "" else Join(parts[1..], '=')
  }

  function ConfigValue(config: string, key: string): string {
    match FirstMatch(Split(config, '\n'), key)
    case Some(line) => Trim(AfterEquals(line))
    case None => ""
  }

  // --- One line ---

  /** The names in the file and the keys asked for are words of letters. */
  predicate Word(w: string) {
    w != "" && forall i :: 0 <= i < |w| ==> 'a' <= LowerChar(w[i]) <= 'z'
  }

  lemma {:induction false} TrimRightConcat(a: string, b: string)
    requires a != "" && !IsSpace(a[|a| - 1])
    ensures TrimRight(a + b) == a + TrimRight(b)
  {
    if b == "" {
      assert a + b == a;
    } else {
      var s := a + b;
      assert s[|s| - 1] == b[|b| - 1] && s[..|s| - 1] == a + b[..|b| - 1];
      if IsSpace(b[|b| - 1]) {
        TrimRightConcat(a, b[..|b| - 1]);
      }
    }
  }

  /** Trimming a named value leaves its name and equals sign in front. */
  lemma TrimField(name: string, value: string)
    requires Word(name)
    ensures Trim(name + " = " + value) == name + " =" + TrimRight(" " + value)
  {
    var head, line := name + " =", name + " = " + value;
    assert line == head + (" " + value);
    assert line[0] == name[0] && !IsSpace(name[0]);
    assert TrimLeft(line) == line;
    assert head[|head| - 1] == '=' && !IsSpace('=');
    TrimRightConcat(head, " " + value);
  }

  lemma LowerConcat(a: string, b: string)
    ensures Lower(a + b) == Lower(a) + Lower(b)
  {
  }

  /** A field's line matches a key exactly when the names agree up to case. */
  lemma FieldMatchesIff(name: string, value: string, key: string)
    requires Word(name) && Word(key)
    ensures Matches(name + " = " + value, key) <==> Lower(name) == Lower(key)
  {
    var rest := TrimRight(" " + value);
    TrimField(name, value);
    LowerConcat(name + " =", rest);
    LowerConcat(name, " =");
    assert Lower(" =") == " =";
    var l, k := Lower(name), Lower(key);
    var all := l + " =" + Lower(rest);
    assert Lower(Trim(name + " = " + value)) == all;
    if k + " =" <= all {
      EndsOfWords(k, l, all);
    }
    if k == l {
      assert all == (k + " =") + Lower(rest);
    }
  }

  lemma EndsOfWords(k: string, l: string, all: string)
    requires k + " =" <= all && l + " =" <= all && ' ' !in k && ' ' !in l
    ensures k == l
  {
    assert all[|k|] == (k + " =")[|k|] == ' ' && all[|l|] == (l + " =")[|l|] == ' ';
    assert forall i :: 0 <= i < |k| ==> all[i] == (k + " =")[i] == k[i];
    assert forall i :: 0 <= i < |l| ==> all[i] == (l + " =")[i] == l[i];
    assert |k| == |l|;
  }

  lemma HeaderDoesNotMatch(text: string, key: string)
    requires (text == "" || text[0] == '[') && Word(key)
    ensures !Matches(text, key)
  {
    var prefix := Lower(key) + " =";
    if text != "" {
      assert TrimLeft(text) == text;
      TrimRightFacts(text);
      var t := Trim(text);
      assert t != "" ==> t[0] == '[' && Lower(t)[0] == '[';
      assert prefix[0] == LowerChar(key[0]) != '[';
    }
  }

  /** What stands after the first equals sign, equals signs in the value included. */
  lemma FieldValue(name: string, value: string)
    requires Word(name) && Trimmed(value)
    ensures Trim(AfterEquals(name + " = " + value)) == value
  {
    var head, rest := name + " ", " " + value;
    assert '=' !in name by {
      assert forall i :: 0 <= i < |name| ==> name[i] != '=';
    }
    assert name + " = " + value == head + ['='] + rest;
    SplitHead(head, '=', rest);
    assert ([head] + Split(rest, '='))[1..] == Split(rest, '=');
    JoinSplit(rest, '=');
    assert rest[1..] == value;
    TrimFixes(value);
    assert TrimLeft(rest) == TrimLeft(value);
  }

  // --- The whole file ---

  lemma NamesAreWords(n: Name)
    ensures Word(NameText(n)) && '\n' !in NameText(n)
  {
    var w := NameText(n);
    assert Word(w);
    assert forall i :: 0 <= i < |w| ==> w[i] != '\n';
  }

  lemma NamesDiffer(m: Name, n: Name)
    requires Lower(NameText(m)) == Lower(NameText(n))
    ensures m == n
  {
    assert |NameText(m)| == |NameText(n)|;
    assert Lower(NameText(m))[0] == LowerChar(NameText(m)[0]) == LowerChar(NameText(n)[0]);
  }

  /** No line breaks inside a line, and headers that no key can match. */
  predicate Clean(e: Entry) {
    '\n' !in Line(e) && (e.Header? ==> e.text == "" || e.text[0] == '[')
  }

  predicate AllClean(es: seq<Entry>) {
    forall i :: 0 <= i < |es| ==> Clean(es[i])
  }

  function Lines(es: seq<Entry>): seq<string> {
    if es == [] then [] else [Line(es[0])] + Lines(es[1..])
  }

  lemma {:induction false} SplitFile(es: seq<Entry>)
    requires AllClean(es)
    ensures Split(FileText(es), '\n') == Lines(es) + [""]
  {
    if es != [] {
      SplitFile(es[1..]);
      SplitHead(Line(es[0]), '\n', FileText(es[1..]));
    }
  }

  function FirstField(es: seq<Entry>, n: Name): Option<string> {
    if es == [] then None
    else if es[0].Field? && es[0].name == n then Some(es[0].value)
    else FirstField(es[1..], n)
  }

  lemma LineMatchesIff(e: Entry, n: Name)
    requires Clean(e)
    ensures Matches(Line(e), NameText(n)) <==> e.Field? && e.name == n
  {
    NamesAreWords(n);
    match e
    case Header(text) => HeaderDoesNotMatch(text, NameText(n));
    case Field(name, value) =>
      NamesAreWords(name);
      FieldMatchesIff(NameText(name), value, NameText(n));
      if Lower(NameText(name)) == Lower(NameText(n)) {
        NamesDiffer(name, n);
      }
  }

  /** configValue finds the first field of that name. */
  lemma {:induction false} FirstMatchIs(es: seq<Entry>, n: Name)
    requires AllClean(es)
    ensures FirstMatch(Lines(es) + [""], NameText(n)) ==
            (match FirstField(es, n) case Some(value) => Some(Line(Field(n, value))) case None => None)
  {
    hide Matches, Line, NameText, Clean;
    var lines := Lines(es) + [""];
    if es == [] {
      NamesAreWords(n);
      HeaderDoesNotMatch("", NameText(n));
      assert lines[0] == "" && lines[1..] == [];
    } else {
      LineMatchesIff(es[0], n);
      FirstMatchIs(es[1..], n);
      assert lines[0] == Line(es[0]) && lines[1..] == Lines(es[1..]) + [""];
    }
  }

  lemma {:induction false} FirstFieldConcat(a: seq<Entry>, b: seq<Entry>, n: Name)
    ensures FirstField(a + b, n) == if FirstField(a, n).Some? then FirstField(a, n) else FirstField(b, n)
  {
    if a == [] {
      assert a + b == b;
    } else {
      assert (a + b)[1..] == a[1..] + b;
      FirstFieldConcat(a[1..], b, n);
    }
  }

  lemma FirstFieldMore(a: seq<Entry>, present: bool, e: Entry, n: Name)
    ensures FirstField(a + When(present, e), n) ==
            if FirstField(a, n).Some? then FirstField(a, n)
            else if present && e.Field? && e.name == n then Some(e.value) else None
  {
    FirstFieldConcat(a, When(present, e), n);
    if present {
      assert [e][1..] == [];
    }
  }

  /** Which names the file leaves out. */
  predicate Present(s: Server, c: Client, n: Name) {
    match n
    case Dns => s.dns != ""
    case Mtu => s.mtu > 0
    case PresharedKey => c.presharedKey != ""
    case Keepalive => c.keepalive > 0
    case _ => true
  }

  lemma InterfaceField(s: Server, c: Client, n: Name)
    ensures FirstField(InterfaceEntries(s, c), n) ==
            if n in {PrivateKey, Address, Dns, Mtu} && Present(s, c, n) then Some(Shown(s, c, n)) else None
  {
    hide Shown, FirstField;
    var a := [Header("[Interface]")];
    var b := a + [FieldFor(s, c, PrivateKey)];
    var d := b + [FieldFor(s, c, Address)];
    var e := d + When(s.dns != "", FieldFor(s, c, Dns));
    var f := e + When(s.mtu > 0, FieldFor(s, c, Mtu));
    NoField("[Interface]", n);
    FirstFieldMore(a, true, FieldFor(s, c, PrivateKey), n);
    FirstFieldMore(b, true, FieldFor(s, c, Address), n);
    FirstFieldMore(d, s.dns != "", FieldFor(s, c, Dns), n);
    FirstFieldMore(e, s.mtu > 0, FieldFor(s, c, Mtu), n);
    FirstFieldMore(f, true, Header(""), n);
  }

  lemma NoField(text: string, n: Name)
    ensures FirstField([Header(text)], n) == None
  {
  }

  lemma PeerField(s: Server, c: Client, n: Name)
    ensures FirstField(PeerEntries(s, c), n) ==
            if n in {PublicKey, PresharedKey, Endpoint, AllowedIps, Keepalive} && Present(s, c, n)
            then Some(Shown(s, c, n)) else None
  {
    hide Shown, FirstField;
    var a := [Header("[Peer]")];
    var b := a + [FieldFor(s, c, PublicKey)];
    var d := b + When(c.presharedKey != "", FieldFor(s, c, PresharedKey));
    var e := d + [FieldFor(s, c, Endpoint)];
    var f := e + [FieldFor(s, c, AllowedIps)];
    NoField("[Peer]", n);
    FirstFieldMore(a, true, FieldFor(s, c, PublicKey), n);
    FirstFieldMore(b, c.presharedKey != "", FieldFor(s, c, PresharedKey), n);
    FirstFieldMore(d, true, FieldFor(s, c, Endpoint), n);
    FirstFieldMore(e, true, FieldFor(s, c, AllowedIps), n);
    FirstFieldMore(f, c.keepalive > 0, FieldFor(s, c, Keepalive), n);
  }

  /** The values have no line breaks. */
  predicate NoBreaks(s: Server, c: Client) {
    forall n: Name :: '\n' !in Shown(s, c, n)
  }

  lemma FieldIsClean(s: Server, c: Client, n: Name)
    requires NoBreaks(s, c)
    ensures Clean(FieldFor(s, c, n))
  {
    NamesAreWords(n);
    hide Shown, NameText;
    assert '\n' !in " = ";
  }

  lemma CleanMore(a: seq<Entry>, b: seq<Entry>)
    requires AllClean(a) && AllClean(b)
    ensures AllClean(a + b)
  {
  }

  lemma InterfaceIsClean(s: Server, c: Client)
    requires NoBreaks(s, c)
    ensures AllClean(InterfaceEntries(s, c))
  {
    FieldIsClean(s, c, PrivateKey);
    FieldIsClean(s, c, Address);
    FieldIsClean(s, c, Dns);
    FieldIsClean(s, c, Mtu);
    assert Clean(Header("[Interface]")) && Clean(Header(""));
    hide Shown, Clean;
    var a := [Header("[Interface]")];
    var b := a + [FieldFor(s, c, PrivateKey)] + [FieldFor(s, c, Address)];
    CleanMore(b, When(s.dns != "", FieldFor(s, c, Dns)));
    CleanMore(b + When(s.dns != "", FieldFor(s, c, Dns)), When(s.mtu > 0, FieldFor(s, c, Mtu)));
    CleanMore(b + When(s.dns != "", FieldFor(s, c, Dns)) + When(s.mtu > 0, FieldFor(s, c, Mtu)), [Header("")]);
  }

  lemma PeerIsClean(s: Server, c: Client)
    requires NoBreaks(s, c)
    ensures AllClean(PeerEntries(s, c))
  {
    FieldIsClean(s, c, PublicKey);
    FieldIsClean(s, c, PresharedKey);
    FieldIsClean(s, c, Endpoint);
    FieldIsClean(s, c, AllowedIps);
    FieldIsClean(s, c, Keepalive);
    assert Clean(Header("[Peer]"));
    hide Shown, Clean;
    var a := [Header("[Peer]")] + [FieldFor(s, c, PublicKey)];
    CleanMore(a, When(c.presharedKey != "", FieldFor(s, c, PresharedKey)));
    CleanMore(a + When(c.presharedKey != "", FieldFor(s, c, PresharedKey)), [FieldFor(s, c, Endpoint)]);
    CleanMore(a + When(c.presharedKey != "", FieldFor(s, c, PresharedKey)) + [FieldFor(s, c, Endpoint)],
              [FieldFor(s, c, AllowedIps)]);
    CleanMore(a + When(c.presharedKey != "", FieldFor(s, c, PresharedKey)) + [FieldFor(s, c, Endpoint)]
              + [FieldFor(s, c, AllowedIps)], When(c.keepalive > 0, FieldFor(s, c, Keepalive)));
  }

  /** Reading a name back from the printed configuration gives the value printed for it, or
      the empty string where it was left out: the private key or its placeholder, the
      preshared key or nothing, and every other name alike. */
  lemma ReadsBack(s: Server, c: Client, n: Name)
    requires NoBreaks(s, c) && Trimmed(Shown(s, c, n))
    ensures ConfigValue(FileText(Entries(s, c)), NameText(n)) == Shown(s, c, n)
  {
    var es := Entries(s, c);
    InterfaceIsClean(s, c);
    PeerIsClean(s, c);
    CleanMore(InterfaceEntries(s, c), PeerEntries(s, c));
    SplitFile(es);
    FirstMatchIs(es, n);
    FirstFieldConcat(InterfaceEntries(s, c), PeerEntries(s, c), n);
    InterfaceField(s, c, n);
    PeerField(s, c, n);
    NamesAreWords(n);
    FieldValue(NameText(n), Shown(s, c, n));
    hide FileText, InterfaceEntries, PeerEntries, FirstField, NameText, AllClean, AfterEquals, FirstMatch;
    if !Present(s, c, n) {
      assert Shown(s, c, n) == "";
    }
  }

  /** One line of text, without white space at its ends. */
  predicate Plain(v: string) {
    Trimmed(v) && '\n' !in v
  }

  predicate AllPlain(s: Server, c: Client) {
    && Plain(c.privateKey) && Plain(c.presharedKey) && Plain(c.assignedIp) && Plain(c.allowedIps)
    && Plain(s.publicKey) && Plain(s.endpoint) && Plain(s.dns)
  }

  lemma PlainNumber(n: nat)
    ensures Plain(Decimal(n))
  {
    var d := Decimal(n);
    assert IsDigit(d[0]) && IsDigit(d[|d| - 1]);
    assert forall i :: 0 <= i < |d| ==> IsDigit(d[i]);
  }

  lemma PlainWith(a: string, b: string)
    requires Plain(a) && Plain(b) && b != ""
    ensures Plain(a + b)
  {
  }

  lemma ShownIsPlain(s: Server, c: Client, n: Name)
    requires AllPlain(s, c)
    ensures Plain(Shown(s, c, n))
  {
    PlainNumber(s.listenPort);
    if s.mtu > 0 {
      PlainNumber(s.mtu);
    }
    if c.keepalive > 0 {
      PlainNumber(c.keepalive);
    }
    PlainWith(":", Decimal(s.listenPort));
    PlainWith(c.assignedIp, "/32");
    PlainWith(s.endpoint, ":" + Decimal(s.listenPort));
    assert s.endpoint + ":" + Decimal(s.listenPort) == s.endpoint + (":" + Decimal(s.listenPort));
    assert Plain(PLACEHOLDER);
    hide Decimal;
  }

  /** What the browser reads from the printed configuration, key by key, in terms of the server's
      and the client's fields. */
  lemma ConfigReads(s: Server, c: Client)
    requires AllPlain(s, c)
    ensures var text := FileText(Entries(s, c));
            && ConfigValue(text, "PrivateKey") == (if c.privateKey == "" then "<your-private-key>" else c.privateKey)
            && ConfigValue(text, "Address") == c.assignedIp + "/32"
            && ConfigValue(text, "DNS") == s.dns
            && ConfigValue(text, "MTU") == (if s.mtu > 0 then Decimal(s.mtu) else "")
            && ConfigValue(text, "PublicKey") == s.publicKey
            && ConfigValue(text, "PresharedKey") == c.presharedKey
            && ConfigValue(text, "Endpoint") == s.endpoint + ":" + Decimal(s.listenPort)
            && ConfigValue(text, "AllowedIPs") == c.allowedIps
            && ConfigValue(text, "PersistentKeepalive") == (if c.keepalive > 0 then Decimal(c.keepalive) else "")
  {
    hide ConfigValue, FileText, Entries, Decimal, NameText, AllPlain;
    forall n: Name
      ensures ConfigValue(FileText(Entries(s, c)), NameText(n)) == Shown(s, c, n)
    {
      forall m: Name
        ensures Plain(Shown(s, c, m))
      {
        ShownIsPlain(s, c, m);
      }
      ReadsBack(s, c, n);
    }
    NameTexts();
  }

  lemma NameTexts()
    ensures NameText(PrivateKey) == "PrivateKey" && NameText(Address) == "Address" && NameText(Dns) == "DNS"
    ensures NameText(Mtu) == "MTU" && NameText(PublicKey) == "PublicKey" && NameText(PresharedKey) == "PresharedKey"
    ensures NameText(Endpoint) == "Endpoint" && NameText(AllowedIps) == "AllowedIPs"
    ensures NameText(Keepalive) == "PersistentKeepalive"
  {
  }
}
