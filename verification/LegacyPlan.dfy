/** The plan of a legacy protocol: the firewall and runtime commands it runs on the host, told as
    texts and read back from them. */
module LegacyPlan {
  import opened Text
  import opened Ipv4
  import opened Models
  import opened Placeholders

  // --- The templates ---

  /** A rule with the program's comment. */
  function Commented(rule: Template, tag: string, rest: string): Template {
    rule + [Lit(" -m comment"), Lit(" --comment 'vpn-manager "), Lit(tag), Hole(Name), Lit(rest)]
  }

  /** The firewall commands of a legacy protocol's plan; the other protocols' are not modelled. */
  function LegacyFirewallCommands(p: Protocol): seq<Template> {
    match p
    case L2tpIpsec => [
      Commented(
        [Lit("iptables -A INPUT -p udp"), Lit(" -m multiport --dports 500,4500")], "l2tp-ipsec ", "' -j ACCEPT"),
      Commented([Lit("iptables -A INPUT -p udp"), Lit(" --dport 1701"), Lit(" -m policy --dir in --pol ipsec")],
                "l2tp-ipsec ", "' -j ACCEPT"),
      Commented([Lit("iptables -t nat -A POSTROUTING -s "), Hole(PoolCidr)], "l2tp-ipsec ", "' -j MASQUERADE")]
    case Sstp => [
      Commented([Lit("iptables -A INPUT -p tcp --dport "), Hole(ListenPort)], "sstp ", "' -j ACCEPT"),
      Commented([Lit("iptables -A FORWARD -s "), Hole(PoolCidr)], "sstp ", "' -j ACCEPT"),
      Commented([Lit("iptables -t nat -A POSTROUTING -s "), Hole(PoolCidr)], "sstp ", "' -j MASQUERADE")]
    case Pptp => [
      Commented([Lit("iptables -A INPUT -p tcp --dport "), Lit("1723")], "pptp ", "' -j ACCEPT"),
      Commented([Lit("iptables -A INPUT -p 47")], "pptp ", " GRE' -j ACCEPT"),
      Commented([Lit("iptables -t nat -A POSTROUTING -s "), Hole(PoolCidr)], "pptp ", "' -j MASQUERADE")]
    case _ => []
  }

  /** The runtime commands of a legacy protocol's plan. */
  function LegacyRuntimeCommands(p: Protocol): seq<Template> {
    match p
    case L2tpIpsec => [
      [Lit("systemctl enable --now ipsec"), Lit(" || systemctl enable --now strongswan")],
      [Lit("systemctl enable --now xl2tpd")],
      [Lit("systemctl restart ipsec"), Lit(" || systemctl restart strongswan")],
      [Lit("systemctl restart xl2tpd")]]
    case Sstp => [
      [Lit("install -d -m 0700 "), Lit("/var/lib/vpn-manager/sstp/"), Hole(InstanceId)],
      [Lit("systemctl enable --now sstpd")],
      [Lit("systemctl restart sstpd")]]
    case Pptp => [
      [Lit("systemctl enable --now pptpd")],
      [Lit("systemctl restart pptpd")],
      [Lit("modprobe nf_conntrack_pptp || true")]]
    case _ => []
  }

  predicate AllWellFormed(ts: seq<Template>) {
    forall i :: 0 <= i < |ts| ==> WellFormed(ts[i])
  }

  lemma RuleLiterals()
    ensures NoBrace("iptables -A INPUT -p udp") && NoBrace("iptables -A INPUT -p tcp --dport ")
    ensures NoBrace("iptables -A FORWARD -s ") && NoBrace("iptables -t nat -A POSTROUTING -s ")
  {
  }

  lemma MatchLiterals()
    ensures NoBrace(" -m multiport --dports 500,4500") && NoBrace(" --dport 1701")
            && NoBrace(" -m policy --dir in --pol ipsec")
    ensures NoBrace("iptables -A INPUT -p 47") && NoBrace("1723")
  {
  }

  lemma EndLiterals()
    ensures NoBrace("l2tp-ipsec ") && NoBrace("sstp ") && NoBrace("pptp ")
    ensures NoBrace("' -j ACCEPT") && NoBrace(" GRE' -j ACCEPT") && NoBrace("' -j MASQUERADE")
  {
  }

  lemma CommentLiterals()
    ensures NoBrace(" -m comment") && NoBrace(" --comment 'vpn-manager ")
  {
  }

  lemma FirewallWellFormed(p: Protocol)
    ensures AllWellFormed(LegacyFirewallCommands(p))
  {
    RuleLiterals();
    MatchLiterals();
    EndLiterals();
    CommentLiterals();
    hide NoBrace;
    match p
    case L2tpIpsec =>
      assert WellFormed(LegacyFirewallCommands(p)[0]);
      assert WellFormed(LegacyFirewallCommands(p)[1]);
      assert WellFormed(LegacyFirewallCommands(p)[2]);
    case Sstp =>
      assert WellFormed(LegacyFirewallCommands(p)[0]);
      assert WellFormed(LegacyFirewallCommands(p)[1]);
      assert WellFormed(LegacyFirewallCommands(p)[2]);
    case Pptp =>
      assert WellFormed(LegacyFirewallCommands(p)[0]);
      assert WellFormed(LegacyFirewallCommands(p)[1]);
      assert WellFormed(LegacyFirewallCommands(p)[2]);
    case _ =>
  }

  lemma ServiceLiterals()
    ensures NoBrace("systemctl enable --now ipsec") && NoBrace(" || systemctl enable --now strongswan")
    ensures NoBrace("systemctl enable --now xl2tpd") && NoBrace("systemctl restart ipsec")
  {
  }

  lemma RestartLiterals()
    ensures NoBrace(" || systemctl restart strongswan") && NoBrace("systemctl restart xl2tpd")
    ensures NoBrace("install -d -m 0700 ") && NoBrace("/var/lib/vpn-manager/sstp/")
  {
  }

  lemma DaemonLiterals()
    ensures NoBrace("systemctl enable --now sstpd") && NoBrace("systemctl restart sstpd")
    ensures NoBrace("systemctl enable --now pptpd") && NoBrace("systemctl restart pptpd")
    ensures NoBrace("modprobe nf_conntrack_pptp || true")
  {
  }

  lemma RuntimeWellFormed(p: Protocol)
    ensures AllWellFormed(LegacyRuntimeCommands(p))
  {
    ServiceLiterals();
    RestartLiterals();
    DaemonLiterals();
    hide NoBrace;
    if IsLegacy(p) {
      var cs := LegacyRuntimeCommands(p);
      assert WellFormed(cs[0]);
      assert WellFormed(cs[1]);
      assert WellFormed(cs[2]);
      assert |cs| == 4 ==> WellFormed(cs[3]);
    }
  }

  function PlanCommands(p: Protocol): seq<Template> {
    LegacyFirewallCommands(p) + LegacyRuntimeCommands(p)
  }

  lemma PlanIsWellFormed(p: Protocol)
    ensures AllWellFormed(PlanCommands(p))
  {
    FirewallWellFormed(p);
    RuntimeWellFormed(p);
    hide LegacyFirewallCommands, LegacyRuntimeCommands, WellFormed;
  }

  // --- The commands ---

  /** A rule's text with the program's comment. */
  function RuleText(rule: string, tag: string, name: string, rest: string): string {
    rule + (" -m comment" + " --comment 'vpn-manager " + tag + name + rest)
  }

  /** The commands of a plan, with what is filled in at its place. */
  function PlanTexts(p: Protocol, id: string, name: string, port: string, pool: string): seq<string> {
    match p
    case L2tpIpsec => [
      RuleText("iptables -A INPUT -p udp" + " -m multiport --dports 500,4500", "l2tp-ipsec ", name, "' -j ACCEPT"),
      RuleText("iptables -A INPUT -p udp" + " --dport 1701" + " -m policy --dir in --pol ipsec",
               "l2tp-ipsec ", name, "' -j ACCEPT"),
      RuleText("iptables -t nat -A POSTROUTING -s " + pool, "l2tp-ipsec ", name, "' -j MASQUERADE"),
      "systemctl enable --now ipsec" + " || systemctl enable --now strongswan",
      "systemctl enable --now xl2tpd",
      "systemctl restart ipsec" + " || systemctl restart strongswan",
      "systemctl restart xl2tpd"]
    case Sstp => [
      RuleText("iptables -A INPUT -p tcp --dport " + port, "sstp ", name, "' -j ACCEPT"),
      RuleText("iptables -A FORWARD -s " + pool, "sstp ", name, "' -j ACCEPT"),
      RuleText("iptables -t nat -A POSTROUTING -s " + pool, "sstp ", name, "' -j MASQUERADE"),
      "install -d -m 0700 " + "/var/lib/vpn-manager/sstp/" + id,
      "systemctl enable --now sstpd",
      "systemctl restart sstpd"]
    case Pptp => [
      RuleText("iptables -A INPUT -p tcp --dport " + "1723", "pptp ", name, "' -j ACCEPT"),
      RuleText("iptables -A INPUT -p 47", "pptp ", name, " GRE' -j ACCEPT"),
      RuleText("iptables -t nat -A POSTROUTING -s " + pool, "pptp ", name, "' -j MASQUERADE"),
      "systemctl enable --now pptpd",
      "systemctl restart pptpd",
      "modprobe nf_conntrack_pptp || true"]
    case _ => []
  }

  lemma OneToken(t: Template, values: map<Placeholders.Key, string>)
    requires (forall k: Placeholders.Key :: k in values) && |t| == 1
    ensures Rendered(t, values) == RenderedToken(t[0], values)
  {
    assert t[1..] == [];
  }

  lemma TwoTokens(t: Template, values: map<Placeholders.Key, string>)
    requires (forall k: Placeholders.Key :: k in values) && |t| == 2
    ensures Rendered(t, values) == RenderedToken(t[0], values) + RenderedToken(t[1], values)
  {
    OneToken(t[1..], values);
  }

  lemma RenderedFirst(t: Template, values: map<Placeholders.Key, string>)
    requires (forall k: Placeholders.Key :: k in values) && t != []
    ensures Rendered(t, values) == RenderedToken(t[0], values) + Rendered(t[1..], values)
  {
  }

  lemma RenderedNone(values: map<Placeholders.Key, string>)
    requires forall k: Placeholders.Key :: k in values
    ensures Rendered([], values) == ""
  {
  }

  lemma {:induction false} RenderedTogether(a: Template, b: Template, values: map<Placeholders.Key, string>)
    requires forall k: Placeholders.Key :: k in values
    ensures Rendered(a + b, values) == Rendered(a, values) + Rendered(b, values)
  {
    hide Rendered, RenderedToken;
    if a == [] {
      assert a + b == b;
      RenderedNone(values);
    } else {
      RenderedTogether(a[1..], b, values);
      assert (a + b)[1..] == a[1..] + b;
      RenderedFirst(a, values);
      RenderedFirst(a + b, values);
      Regrouped(RenderedToken(a[0], values), Rendered(a[1..], values), Rendered(b, values));
    }
  }

  lemma FiveTokens(t: Template, values: map<Placeholders.Key, string>)
    requires (forall k: Placeholders.Key :: k in values) && |t| == 5
    ensures Rendered(t, values) == RenderedToken(t[0], values) + RenderedToken(t[1], values)
                                   + RenderedToken(t[2], values) + RenderedToken(t[3], values)
                                   + RenderedToken(t[4], values)
  {
    hide Rendered, RenderedToken;
    TwoTokens(t[..2], values);
    ThreeTokens(t[2..], values);
    RenderedTogether(t[..2], t[2..], values);
    assert t[..2] + t[2..] == t;
    Associate(RenderedToken(t[0], values), RenderedToken(t[1], values), RenderedToken(t[2], values),
              RenderedToken(t[3], values), RenderedToken(t[4], values));
  }

  lemma Associate(a: string, b: string, c: string, d: string, e: string)
    ensures (a + b) + (c + d + e) == a + b + c + d + e
  {
  }

  lemma CommentedText(rule: Template, tag: string, rest: string, values: map<Placeholders.Key, string>)
    requires forall k: Placeholders.Key :: k in values
    ensures Rendered(Commented(rule, tag, rest), values) == RuleText(Rendered(rule, values), tag, values[Name], rest)
  {
    var comment := [Lit(" -m comment"), Lit(" --comment 'vpn-manager "), Lit(tag), Hole(Name), Lit(rest)];
    hide Rendered;
    RenderedTogether(rule, comment, values);
    FiveTokens(comment, values);
  }

  lemma L2tpTexts(values: map<Placeholders.Key, string>)
    requires forall k: Placeholders.Key :: k in values
    ensures var cs := LegacyFirewallCommands(L2tpIpsec);
            var texts := PlanTexts(L2tpIpsec, values[InstanceId], values[Name], values[ListenPort], values[PoolCidr]);
            |texts| == 7 && forall i :: 0 <= i < 3 ==> Rendered(cs[i], values) == texts[i]
  {
    var a := [Lit("iptables -A INPUT -p udp"), Lit(" -m multiport --dports 500,4500")];
    var b := [Lit("iptables -A INPUT -p udp"), Lit(" --dport 1701"), Lit(" -m policy --dir in --pol ipsec")];
    var c := [Lit("iptables -t nat -A POSTROUTING -s "), Hole(PoolCidr)];
    hide Rendered, RuleText, Commented;
    TwoTokens(a, values);
    ThreeTokens(b, values);
    TwoTokens(c, values);
    CommentedText(a, "l2tp-ipsec ", "' -j ACCEPT", values);
    CommentedText(b, "l2tp-ipsec ", "' -j ACCEPT", values);
    CommentedText(c, "l2tp-ipsec ", "' -j MASQUERADE", values);
  }

  lemma SstpTexts(values: map<Placeholders.Key, string>)
    requires forall k: Placeholders.Key :: k in values
    ensures var cs := LegacyFirewallCommands(Sstp);
            var texts := PlanTexts(Sstp, values[InstanceId], values[Name], values[ListenPort], values[PoolCidr]);
            |texts| == 6 && forall i :: 0 <= i < 3 ==> Rendered(cs[i], values) == texts[i]
  {
    var a := [Lit("iptables -A INPUT -p tcp --dport "), Hole(ListenPort)];
    var b := [Lit("iptables -A FORWARD -s "), Hole(PoolCidr)];
    var c := [Lit("iptables -t nat -A POSTROUTING -s "), Hole(PoolCidr)];
    hide Rendered, RuleText, Commented;
    TwoTokens(a, values);
    TwoTokens(b, values);
    TwoTokens(c, values);
    CommentedText(a, "sstp ", "' -j ACCEPT", values);
    CommentedText(b, "sstp ", "' -j ACCEPT", values);
    CommentedText(c, "sstp ", "' -j MASQUERADE", values);
  }

  lemma PptpTexts(values: map<Placeholders.Key, string>)
    requires forall k: Placeholders.Key :: k in values
    ensures var cs := LegacyFirewallCommands(Pptp);
            var texts := PlanTexts(Pptp, values[InstanceId], values[Name], values[ListenPort], values[PoolCidr]);
            |texts| == 6 && forall i :: 0 <= i < 3 ==> Rendered(cs[i], values) == texts[i]
  {
    var a := [Lit("iptables -A INPUT -p tcp --dport "), Lit("1723")];
    var b := [Lit("iptables -A INPUT -p 47")];
    var c := [Lit("iptables -t nat -A POSTROUTING -s "), Hole(PoolCidr)];
    hide Rendered, RuleText, Commented;
    TwoTokens(a, values);
    OneToken(b, values);
    TwoTokens(c, values);
    CommentedText(a, "pptp ", "' -j ACCEPT", values);
    CommentedText(b, "pptp ", " GRE' -j ACCEPT", values);
    CommentedText(c, "pptp ", "' -j MASQUERADE", values);
  }

  lemma ShortCommand(t: Template, values: map<Placeholders.Key, string>)
    requires (forall k: Placeholders.Key :: k in values) && 1 <= |t| <= 3
    ensures |t| == 1 ==> Rendered(t, values) == RenderedToken(t[0], values)
    ensures |t| == 2 ==> Rendered(t, values) == RenderedToken(t[0], values) + RenderedToken(t[1], values)
    ensures |t| == 3 ==>
              Rendered(t, values)
              == RenderedToken(t[0], values) + RenderedToken(t[1], values) + RenderedToken(t[2], values)
  {
    if |t| == 1 {
      OneToken(t, values);
    } else if |t| == 2 {
      TwoTokens(t, values);
    } else {
      ThreeTokens(t, values);
    }
  }

  lemma RuntimeTexts(p: Protocol, values: map<Placeholders.Key, string>)
    requires (forall k: Placeholders.Key :: k in values) && IsLegacy(p)
    ensures var cs := LegacyRuntimeCommands(p);
            var texts := PlanTexts(p, values[InstanceId], values[Name], values[ListenPort], values[PoolCidr]);
            |texts| == 3 + |cs| && forall i :: 0 <= i < |cs| ==> Rendered(cs[i], values) == texts[3 + i]
  {
    hide Rendered, RuleText;
    var cs := LegacyRuntimeCommands(p);
    if p.L2tpIpsec? {
      L2tpRuntime(values);
    } else {
      ShortCommand(cs[0], values);
      ShortCommand(cs[1], values);
      ShortCommand(cs[2], values);
    }
  }

  lemma L2tpRuntime(values: map<Placeholders.Key, string>)
    requires forall k: Placeholders.Key :: k in values
    ensures var cs := LegacyRuntimeCommands(L2tpIpsec);
            var texts := PlanTexts(L2tpIpsec, values[InstanceId], values[Name], values[ListenPort], values[PoolCidr]);
            |texts| == 7 && |cs| == 4 && forall i :: 0 <= i < 4 ==> Rendered(cs[i], values) == texts[3 + i]
  {
    hide Rendered, RuleText;
    var cs := LegacyRuntimeCommands(L2tpIpsec);
    ShortCommand(cs[0], values);
    ShortCommand(cs[1], values);
    ShortCommand(cs[2], values);
    ShortCommand(cs[3], values);
  }

  // --- Reading a command back ---

  /** The text after the first place where the marker stands. */
  function After(s: string, marker: string): Option<string> {
    if |s| < |marker| then None
    else if s[..|marker|] == marker then Some(s[|marker|..])
    else if s == "" then None
    else After(s[1..], marker)
  }

  /** The text between the marker and the next stop, or the end. */
  function Between(s: string, marker: string, stop: char): Option<string> {
    var rest := After(s, marker);
    if rest.Some? then Some(Split(rest.value, stop)[0]) else None
  }

  /** The number a numeral stands for. */
  function IntOf(s: Option<string>): Option<int> {
    if s.None? then None
    else if s.value != "" && s.value[0] == '-' && AllDigits(s.value[1..]) then Some(0 - NumeralValue(s.value[1..]))
    else if AllDigits(s.value) then Some(NumeralValue(s.value))
    else None
  }

  lemma SignedReads(n: int)
    ensures IntOf(Some(Signed(n))) == Some(n)
    ensures ' ' !in Signed(n) && '\'' !in Signed(n)
  {
    var m := if n < 0 then -n else n;
    DecimalRoundTrip(m);
    if n < 0 {
      assert Signed(n)[1..] == Decimal(m);
    } else {
      assert IsDigit(Signed(n)[0]);
    }
  }

  lemma CidrIsPlain(c: Cidr)
    ensures ' ' !in CidrText(c) && '\'' !in CidrText(c)
  {
    DottedText(c.ip);
  }

  /** The marker stands nowhere in the text, nor does it begin there. */
  predicate Clear(p: string, marker: string) {
    && |marker| >= 2 && (p != "" ==> p[|p| - 1] != marker[0])
    && forall i :: 0 <= i < |p| - 1 ==> p[i] != marker[0] || p[i + 1] != marker[1]
  }

  lemma {:induction false} AfterMarker(p: string, marker: string, rest: string)
    requires Clear(p, marker)
    ensures After(p + (marker + rest), marker) == Some(rest)
  {
    var s := p + (marker + rest);
    if p == "" {
      assert s == marker + rest && s[..|marker|] == marker && s[|marker|..] == rest;
    } else {
      assert s[1..] == p[1..] + (marker + rest);
      AfterMarker(p[1..], marker, rest);
      assert s[..|marker|][0] == p[0] && s[..|marker|][1] == s[1];
    }
  }

  /** What stands after the marker, up to a stop that comes next or to the end, is read back. */
  lemma ReadsBack(p: string, marker: string, v: string, stop: char, rest: string)
    requires Clear(p, marker) && stop !in v && (rest == "" || rest[0] == stop)
    ensures Between(p + marker + v + rest, marker, stop) == Some(v)
  {
    AfterMarker(p, marker, v + rest);
    assert p + marker + v + rest == p + (marker + (v + rest));
    if rest == "" {
      SplitWhole(v, stop);
      assert v + rest == v;
    } else {
      SplitHead(v, stop, rest[1..]);
      assert v + rest == v + [stop] + rest[1..];
    }
  }

  lemma RuleReads(p: string, marker: string, v: string, tag: string, name: string, end: string)
    requires Clear(p, marker) && ' ' !in v
    ensures Between(RuleText(p + marker + v, tag, name, end), marker, ' ') == Some(v)
  {
    hide Clear, Between;
    ReadsBack(p, marker, v, ' ', " -m comment" + " --comment 'vpn-manager " + tag + name + end);
  }

  lemma NameReads(rule: string, tag: string, marker: string, name: string, end: string, stop: char)
    requires '\'' !in rule && stop !in name && end != "" && end[0] == stop && |marker| >= 2 && marker[0] == '\''
    requires " --comment 'vpn-manager " + tag == " --comment " + marker
    ensures Between(RuleText(rule, tag, name, end), marker, stop) == Some(name)
  {
    var p := rule + (" -m comment" + " --comment ");
    assert '\'' !in p by {
      assert '\'' !in " -m comment" && '\'' !in " --comment ";
    }
    Regroup(rule, " -m comment", " --comment 'vpn-manager ", tag, " --comment ", marker, name + end);
    assert " -m comment" + " --comment 'vpn-manager " + tag + name + end
           == " -m comment" + " --comment 'vpn-manager " + tag + (name + end);
    assert p + marker + name + end == p + marker + (name + end);
    ReadsBack(p, marker, name, stop, end);
  }

  lemma Regroup(rule: string, a: string, b: string, c: string, d: string, e: string, rest: string)
    requires b + c == d + e
    ensures rule + (a + b + c + rest) == rule + (a + d) + e + rest
  {
    assert a + b + c == a + (b + c) && a + d + e == a + (d + e);
    assert rule + (a + b + c + rest) == rule + (a + b + c) + rest;
    assert rule + (a + d + e) == rule + (a + d) + e;
  }

  /** What can be read off the commands of a plan. */
  predicate PlanReads(p: Protocol, id: nat, name: string, port: int, pool: Cidr, out: seq<string>) {
    match p
    case L2tpIpsec =>
      && |out| == 7 && Between(out[2], "-s ", ' ') == Some(CidrText(pool))
      && forall i :: 0 <= i < 3 ==> Between(out[i], "'vpn-manager l2tp-ipsec ", '\'') == Some(name)
    case Sstp =>
      && |out| == 6 && IntOf(Between(out[0], "--dport ", ' ')) == Some(port)
      && Between(out[1], "-s ", ' ') == Some(CidrText(pool)) && Between(out[2], "-s ", ' ') == Some(CidrText(pool))
      && IntOf(Between(out[3], "/sstp/", ' ')) == Some(id)
      && forall i :: 0 <= i < 3 ==> Between(out[i], "'vpn-manager sstp ", '\'') == Some(name)
    case Pptp =>
      && |out| == 6 && Between(out[2], "-s ", ' ') == Some(CidrText(pool))
      && Between(out[0], "'vpn-manager pptp ", '\'') == Some(name)
      && Between(out[1], "'vpn-manager pptp ", ' ') == Some(name)
      && Between(out[2], "'vpn-manager pptp ", '\'') == Some(name)
    case _ => true
  }

  lemma HeadLiterals()
    ensures "iptables -A INPUT -p tcp --dport " == "iptables -A INPUT -p tcp " + "--dport "
    ensures "iptables -A FORWARD -s " == "iptables -A FORWARD " + "-s "
    ensures "iptables -t nat -A POSTROUTING -s " == "iptables -t nat -A POSTROUTING " + "-s "
    ensures "/var/lib/vpn-manager/sstp/" == "/var/lib/vpn-manager" + "/sstp/"
  {
  }

  lemma HeadsAreClear()
    ensures Clear("iptables -A INPUT -p tcp ", "--dport ")
    ensures Clear("iptables -A FORWARD ", "-s ")
    ensures Clear("iptables -t nat -A POSTROUTING ", "-s ")
  {
  }

  lemma PathIsClear()
    ensures Clear("install -d -m 0700 " + "/var/lib/vpn-manager", "/sstp/")
  {
  }

  lemma CommentMarks()
    ensures " --comment 'vpn-manager " + "l2tp-ipsec " == " --comment " + "'vpn-manager l2tp-ipsec "
    ensures " --comment 'vpn-manager " + "sstp " == " --comment " + "'vpn-manager sstp "
    ensures " --comment 'vpn-manager " + "pptp " == " --comment " + "'vpn-manager pptp "
  {
  }

  lemma SstpReads(id: nat, name: string, port: int, pool: Cidr)
    requires CleanName(name)
    ensures PlanReads(Sstp, id, name, port, pool, PlanTexts(Sstp, Decimal(id), name, Signed(port), CidrText(pool)))
  {
    NameIsPlain(name);
    hide Between, PlanTexts, Signed, CidrText, Decimal, IntOf, CleanName;
    SstpRules(id, name, port, pool);
    SstpNames(id, name, port, pool);
  }

  lemma SstpRules(id: nat, name: string, port: int, pool: Cidr)
    ensures var t := PlanTexts(Sstp, Decimal(id), name, Signed(port), CidrText(pool));
            && |t| == 6 && IntOf(Between(t[0], "--dport ", ' ')) == Some(port)
            && Between(t[1], "-s ", ' ') == Between(t[2], "-s ", ' ') == Some(CidrText(pool))
            && IntOf(Between(t[3], "/sstp/", ' ')) == Some(id)
  {
    SignedReads(port);
    hide Between, RuleText, Signed, CidrText, Decimal, IntOf;
    PortReads(name, port);
    ForwardReads(name, pool);
    PostroutingReads("sstp ", name, pool);
    PathReads(id);
  }

  lemma PortReads(name: string, port: int)
    ensures Between(RuleText("iptables -A INPUT -p tcp --dport " + Signed(port), "sstp ", name, "' -j ACCEPT"),
                    "--dport ", ' ') == Some(Signed(port))
  {
    HeadLiterals();
    HeadsAreClear();
    SignedReads(port);
    hide Clear, Between, RuleText, Signed;
    RuleReads("iptables -A INPUT -p tcp ", "--dport ", Signed(port), "sstp ", name, "' -j ACCEPT");
  }

  lemma ForwardReads(name: string, pool: Cidr)
    ensures Between(RuleText("iptables -A FORWARD -s " + CidrText(pool), "sstp ", name, "' -j ACCEPT"),
                    "-s ", ' ') == Some(CidrText(pool))
  {
    HeadLiterals();
    HeadsAreClear();
    CidrIsPlain(pool);
    hide Clear, Between, RuleText, CidrText;
    RuleReads("iptables -A FORWARD ", "-s ", CidrText(pool), "sstp ", name, "' -j ACCEPT");
  }

  lemma PostroutingReads(tag: string, name: string, pool: Cidr)
    ensures Between(RuleText("iptables -t nat -A POSTROUTING -s " + CidrText(pool), tag, name, "' -j MASQUERADE"),
                    "-s ", ' ') == Some(CidrText(pool))
  {
    HeadLiterals();
    HeadsAreClear();
    CidrIsPlain(pool);
    hide Clear, Between, RuleText, CidrText;
    RuleReads("iptables -t nat -A POSTROUTING ", "-s ", CidrText(pool), tag, name, "' -j MASQUERADE");
  }

  lemma PathReads(id: nat)
    ensures IntOf(Between("install -d -m 0700 " + "/var/lib/vpn-manager/sstp/" + Decimal(id), "/sstp/", ' '))
            == Some(id)
  {
    HeadLiterals();
    PathIsClear();
    DecimalRoundTrip(id);
    var d := Decimal(id);
    assert ' ' !in d && d[0] != '-';
    hide Clear, Between, Decimal;
    ReadsBack("install -d -m 0700 " + "/var/lib/vpn-manager", "/sstp/", d, ' ', "");
    assert "install -d -m 0700 " + "/var/lib/vpn-manager/sstp/" + d
           == "install -d -m 0700 " + "/var/lib/vpn-manager" + "/sstp/" + d + "";
  }

  lemma NameIsPlain(name: string)
    requires CleanName(name)
    ensures ' ' !in name && '\'' !in name
  {
  }

  lemma RulesArePlain(port: int, pool: Cidr)
    ensures '\'' !in "iptables -A INPUT -p tcp --dport " + Signed(port)
    ensures '\'' !in "iptables -A FORWARD -s " + CidrText(pool)
  {
    SignedReads(port);
    CidrIsPlain(pool);
    hide Signed, CidrText;
  }

  lemma PostroutingIsPlain(pool: Cidr)
    ensures '\'' !in "iptables -t nat -A POSTROUTING -s " + CidrText(pool)
  {
    CidrIsPlain(pool);
    hide CidrText;
  }

  lemma SstpNames(id: nat, name: string, port: int, pool: Cidr)
    requires '\'' !in name
    ensures var t := PlanTexts(Sstp, Decimal(id), name, Signed(port), CidrText(pool));
            && |t| == 6
            && forall i :: 0 <= i < 3 ==> Between(t[i], "'vpn-manager sstp ", '\'') == Some(name)
  {
    var mark := "'vpn-manager sstp ";
    RulesArePlain(port, pool);
    PostroutingIsPlain(pool);
    CommentMarks();
    hide Between, RuleText, Signed, CidrText, Decimal;
    NameReads("iptables -A INPUT -p tcp --dport " + Signed(port), "sstp ", mark, name, "' -j ACCEPT", '\'');
    NameReads("iptables -A FORWARD -s " + CidrText(pool), "sstp ", mark, name, "' -j ACCEPT", '\'');
    NameReads("iptables -t nat -A POSTROUTING -s " + CidrText(pool), "sstp ", mark, name, "' -j MASQUERADE", '\'');
  }

  lemma L2tpReads(id: nat, name: string, port: int, pool: Cidr)
    requires CleanName(name)
    ensures PlanReads(L2tpIpsec, id, name, port, pool,
                      PlanTexts(L2tpIpsec, Decimal(id), name, Signed(port), CidrText(pool)))
  {
    var rule := "iptables -t nat -A POSTROUTING -s " + CidrText(pool);
    NameIsPlain(name);
    PostroutingIsPlain(pool);
    L2tpNames(name);
    CommentMarks();
    hide Between, RuleText, Signed, CidrText;
    PostroutingReads("l2tp-ipsec ", name, pool);
    NameReads(rule, "l2tp-ipsec ", "'vpn-manager l2tp-ipsec ", name, "' -j MASQUERADE", '\'');
  }

  lemma L2tpNames(name: string)
    requires '\'' !in name
    ensures var mark := "'vpn-manager l2tp-ipsec ";
            && Between(RuleText("iptables -A INPUT -p udp" + " -m multiport --dports 500,4500", "l2tp-ipsec ", name,
                                "' -j ACCEPT"), mark, '\'') == Some(name)
            && Between(RuleText("iptables -A INPUT -p udp" + " --dport 1701" + " -m policy --dir in --pol ipsec",
                                "l2tp-ipsec ", name, "' -j ACCEPT"), mark, '\'') == Some(name)
  {
    var mark := "'vpn-manager l2tp-ipsec ";
    var a, b := "iptables -A INPUT -p udp", " -m multiport --dports 500,4500";
    var c, d := " --dport 1701", " -m policy --dir in --pol ipsec";
    assert '\'' !in a && '\'' !in b && '\'' !in c && '\'' !in d;
    CommentMarks();
    hide Between, RuleText;
    NameReads(a + b, "l2tp-ipsec ", mark, name, "' -j ACCEPT", '\'');
    NameReads(a + c + d, "l2tp-ipsec ", mark, name, "' -j ACCEPT", '\'');
  }

  lemma PptpReads(id: nat, name: string, port: int, pool: Cidr)
    requires CleanName(name)
    ensures PlanReads(Pptp, id, name, port, pool, PlanTexts(Pptp, Decimal(id), name, Signed(port), CidrText(pool)))
  {
    var rule := "iptables -t nat -A POSTROUTING -s " + CidrText(pool);
    NameIsPlain(name);
    PostroutingIsPlain(pool);
    PptpNames(name);
    CommentMarks();
    hide Between, RuleText, Signed, CidrText;
    PostroutingReads("pptp ", name, pool);
    NameReads(rule, "pptp ", "'vpn-manager pptp ", name, "' -j MASQUERADE", '\'');
  }

  lemma PptpNames(name: string)
    requires '\'' !in name && ' ' !in name
    ensures var mark := "'vpn-manager pptp ";
            && Between(RuleText("iptables -A INPUT -p tcp --dport " + "1723", "pptp ", name, "' -j ACCEPT"),
                       mark, '\'') == Some(name)
            && Between(RuleText("iptables -A INPUT -p 47", "pptp ", name, " GRE' -j ACCEPT"), mark, ' ') == Some(name)
  {
    var mark := "'vpn-manager pptp ";
    var a, b, c := "iptables -A INPUT -p tcp --dport ", "1723", "iptables -A INPUT -p 47";
    assert '\'' !in a && '\'' !in b && '\'' !in c;
    CommentMarks();
    hide Between, RuleText;
    NameReads(a + b, "pptp ", mark, name, "' -j ACCEPT", '\'');
    NameReads(c, "pptp ", mark, name, " GRE' -j ACCEPT", ' ');
  }

  lemma PlanIsRead(p: Protocol, id: nat, name: string, port: int, pool: Cidr)
    requires CleanName(name)
    ensures PlanReads(p, id, name, port, pool, PlanTexts(p, Decimal(id), name, Signed(port), CidrText(pool)))
  {
    hide PlanTexts, Decimal, Signed, CidrText;
    match p
    case L2tpIpsec => L2tpReads(id, name, port, pool);
    case Sstp => SstpReads(id, name, port, pool);
    case Pptp => PptpReads(id, name, port, pool);
    case _ =>
  }

  // --- Building the plan ---

  function Texts(ts: seq<Template>): seq<string> {
    seq(|ts|, i requires 0 <= i < |ts| => CommandText(ts[i]))
  }

  predicate AllRendered(ts: seq<Template>, out: seq<string>, values: map<Placeholders.Key, string>)
    requires forall k: Placeholders.Key :: k in values
  {
    |out| == |ts| && forall i :: 0 <= i < |ts| ==> out[i] == Rendered(ts[i], values) && NoBrace(out[i])
  }

  lemma PlanTextsAre(input: ConfigInput, instanceId: nat, out: seq<string>)
    requires IsLegacy(input.protocol) && input.pool.Some?
    requires AllRendered(PlanCommands(input.protocol), out, Values(input, instanceId))
    ensures out == PlanTexts(input.protocol, Decimal(instanceId), Sanitized(input.name),
                             Signed(input.listenPort), CidrText(input.pool.value))
  {
    ValuesAre(input, instanceId);
    PlanRendered(input.protocol, Values(input, instanceId));
    hide *;
    assert out == PlanTexts(input.protocol, Decimal(instanceId), Sanitized(input.name),
                            Signed(input.listenPort), CidrText(input.pool.value));
  }

  lemma PlanRendered(p: Protocol, values: map<Placeholders.Key, string>)
    requires (forall k: Placeholders.Key :: k in values) && IsLegacy(p)
    ensures var texts := PlanTexts(p, values[InstanceId], values[Name], values[ListenPort], values[PoolCidr]);
            && |texts| == |PlanCommands(p)|
            && forall i :: 0 <= i < |texts| ==> Rendered(PlanCommands(p)[i], values) == texts[i]
  {
    assert |LegacyFirewallCommands(p)| == 3;
    hide LegacyFirewallCommands, LegacyRuntimeCommands, PlanTexts, Rendered;
    RuntimeTexts(p, values);
    match p
    case L2tpIpsec => L2tpTexts(values);
    case Sstp => SstpTexts(values);
    case Pptp => PptpTexts(values);
  }

  /** BuildLegacyRuntimeApplyPlan: refused exactly for another protocol, an empty name or an
      unparsable pool; otherwise the commands have no braces, and the port, the instance id, the
      pool and the name can be read off them. */
  method BuildLegacyRuntimeApplyPlan(input: ConfigInput, instanceId: nat) returns (commands: Option<seq<string>>)
    ensures commands.None? <==> !IsLegacy(input.protocol) || Sanitized(input.name) == "" || input.pool.None?
    ensures commands.Some? ==>
              commands.value == PlanTexts(input.protocol, Decimal(instanceId), Sanitized(input.name),
                                          Signed(input.listenPort), CidrText(input.pool.value))
    ensures commands.Some? ==>
              && (forall i :: 0 <= i < |commands.value| ==> NoBrace(commands.value[i]))
              && PlanReads(input.protocol, instanceId, Sanitized(input.name), input.listenPort, input.pool.value,
                           commands.value)
  {
    if !IsLegacy(input.protocol) {
      return None;
    }
    var name := SanitizeConfigName(input.name);
    if name == "" || input.pool.None? {
      return None;
    }
    PlanIsWellFormed(input.protocol);
    hide LegacyFirewallCommands, LegacyRuntimeCommands, WellFormed, CommandText, Rendered, NoBrace, Sanitized, Values,
         PlanTexts, PlanReads, Fills, AllRender;
    var templates := PlanCommands(input.protocol);
    var out := ReplaceRuntimePlaceholders(Texts(templates), input, instanceId);
    forall i | 0 <= i < |out|
      ensures out[i] == Rendered(templates[i], Values(input, instanceId)) && NoBrace(out[i])
    {
      assert Texts(templates)[i] == CommandText(templates[i]);
    }
    PlanTextsAre(input, instanceId, out);
    SanitizedIsClean(input.name);
    PlanIsRead(input.protocol, instanceId, Sanitized(input.name), input.listenPort, input.pool.value);
    return Some(out);
  }
}
