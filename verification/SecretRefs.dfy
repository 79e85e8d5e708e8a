/** References to encrypted OpenVPN material: how they are built, and why no two that are
    ever stored coincide. */
module SecretRefs {
  import opened Text

  // --- Building a reference ---

  predicate SafeChar(c: char) {
    'a' <= c <= 'z' || '0' <= c <= '9' || c == '-'
  }

  function Dashed(s: string): (r: string)
    ensures |r| == |s|
  {
    seq(|s|, i requires 0 <= i < |s| => if s[i] == '_' then '-' else s[i])
  }

  /** Every maximal run of unsafe characters becomes one dash. */
  function Collapsed(s: string, inRun: bool): string {
    if s == "" then ""
    else if SafeChar(s[0]) then [s[0]] + Collapsed(s[1..], false)
    else (if inRun then "" else "-") + Collapsed(s[1..], true)
  }

  function SanitizePart(value: string): string {
    TrimChars(Collapsed(Dashed(Lower(Trim(value))), false), {'-'})
  }

  function BuildRef(scope: string, ownerId: nat, name: string): string {
    Join([SanitizePart(scope), Decimal(ownerId), SanitizePart(name)], '/')
  }

  lemma {:induction false} CollapsedIsSafe(s: string, inRun: bool)
    ensures forall c :: c in Collapsed(s, inRun) ==> SafeChar(c)
  {
    if s != "" {
      CollapsedIsSafe(s[1..], !SafeChar(s[0]));
    }
  }

  /** A name made of safe characters without dashes at its ends. */
  predicate CleanPart(s: string) {
    (forall i :: 0 <= i < |s| ==> SafeChar(s[i])) && (s != "" ==> s[0] != '-' && s[|s| - 1] != '-')
  }

  lemma PartIsSafe(value: string)
    ensures (forall c :: c in SanitizePart(value) ==> SafeChar(c)) && CleanPart(SanitizePart(value))
  {
    CollapsedIsSafe(Dashed(Lower(Trim(value))), false);
    TrimCharsFacts(Collapsed(Dashed(Lower(Trim(value))), false), {'-'});
  }

  lemma {:induction false} CollapsedFixes(s: string)
    requires forall i :: 0 <= i < |s| ==> SafeChar(s[i])
    ensures Collapsed(s, false) == s
  {
    if s != "" {
      CollapsedFixes(s[1..]);
    }
  }

  lemma SafeIsUnchanged(s: string)
    requires forall i :: 0 <= i < |s| ==> SafeChar(s[i])
    ensures Lower(s) == s && Dashed(s) == s && Trimmed(s)
  {
    forall i | 0 <= i < |s|
      ensures LowerChar(s[i]) == s[i] && s[i] != '_' && !IsSpace(s[i])
    {
      assert SafeChar(s[i]);
    }
  }

  lemma CleanPartIsFixed(s: string)
    requires CleanPart(s)
    ensures SanitizePart(s) == s
  {
    SafeIsUnchanged(s);
    TrimFixes(s);
    CollapsedFixes(s);
    hide Lower, Dashed, Trim, Collapsed, SafeChar;
  }

  predicate LetterOrDigit(c: char) {
    'a' <= c <= 'z' || 'A' <= c <= 'Z' || '0' <= c <= '9'
  }

  lemma {:induction false} CollapsedAfter(a: string, s: string, inRun: bool)
    requires a != "" && forall i :: 0 <= i < |a| ==> SafeChar(a[i])
    ensures Collapsed(a + s, inRun) == a + Collapsed(s, false)
  {
    assert (a + s)[1..] == a[1..] + s;
    if |a| == 1 {
      assert a[1..] + s == s;
    } else {
      CollapsedAfter(a[1..], s, false);
    }
  }

  lemma {:induction false} CollapsedRun(u: string, s: string, inRun: bool)
    requires u != "" && forall i :: 0 <= i < |u| ==> !SafeChar(u[i])
    ensures Collapsed(u + s, inRun) == (if inRun then "" else "-") + Collapsed(s, true)
  {
    assert (u + s)[1..] == u[1..] + s;
    if |u| == 1 {
      assert u[1..] + s == s;
    } else {
      CollapsedRun(u[1..], s, true);
    }
  }

  /** Characters that are not kept and not turned into dashes one by one. */
  predicate Foreign(u: string) {
    forall i :: 0 <= i < |u| ==> !LetterOrDigit(u[i]) && u[i] != '-' && u[i] != '_'
  }

  lemma PreparedIs(a: string, u: string, b: string)
    requires CleanPart(a) && CleanPart(b) && a != "" && b != "" && (u == "_" || Foreign(u))
    ensures Trim(a + u + b) == a + u + b
    ensures Dashed(Lower(a + u + b)) == a + (if u == "_" then "-" else u) + b
  {
    var s := a + u + b;
    SafeIsUnchanged(a);
    SafeIsUnchanged(b);
    assert s[0] == a[0] && s[|s| - 1] == b[|b| - 1];
    TrimFixes(s);
    LowerSafe(u);
    hide SafeChar, LetterOrDigit, Trim;
    assert Lower(s) == Lower(a) + Lower(u) + Lower(b);
    assert Dashed(Lower(s)) == Dashed(Lower(a)) + Dashed(Lower(u)) + Dashed(Lower(b));
  }

  lemma LowerSafe(u: string)
    requires u == "_" || Foreign(u)
    ensures Lower(u) == u && Dashed(u) == (if u == "_" then "-" else u)
  {
  }

  lemma CollapsedBetween(a: string, v: string, b: string)
    requires a != "" && b != "" && (forall i :: 0 <= i < |a| ==> SafeChar(a[i]))
    requires forall i :: 0 <= i < |b| ==> SafeChar(b[i])
    requires v != "" && (v == "-" || Foreign(v))
    ensures Collapsed(a + v + b, false) == a + "-" + b
  {
    hide Collapsed, Foreign;
    CollapsedTail(v, b);
    CollapsedAfter(a, v + b, false);
    assert a + v + b == a + (v + b) && a + "-" + b == a + ("-" + b);
  }

  lemma CollapsedTail(v: string, b: string)
    requires b != "" && (forall i :: 0 <= i < |b| ==> SafeChar(b[i])) && v != "" && (v == "-" || Foreign(v))
    ensures Collapsed(v + b, false) == "-" + b
  {
    CollapsedFixes(b);
    assert v != "-" ==> forall i :: 0 <= i < |v| ==> !SafeChar(v[i]);
    hide Collapsed, Foreign;
    if v == "-" {
      CollapsedAfter(v, b, false);
    } else {
      CollapsedRun(v, b, false);
      CollapsedInRun(b);
    }
  }

  /** Between two clean parts, any run of other characters becomes one dash, and so does an
      underscore. */
  lemma RunBecomesDash(a: string, u: string, b: string)
    requires CleanPart(a) && CleanPart(b) && a != "" && b != "" && u != "" && (u == "_" || Foreign(u))
    ensures SanitizePart(a + u + b) == a + "-" + b
  {
    hide Collapsed, Dashed, Lower, Trim, Foreign, SafeChar, TrimChars;
    PreparedIs(a, u, b);
    CollapsedBetween(a, if u == "_" then "-" else u, b);
    NothingToCut(a, "-", b);
  }

  lemma NothingToCut(a: string, v: string, b: string)
    requires CleanPart(a) && CleanPart(b) && a != "" && b != ""
    ensures TrimChars(a + v + b, {'-'}) == a + v + b
  {
    var r := a + v + b;
    assert r[0] == a[0] && r[|r| - 1] == b[|b| - 1];
  }

  lemma CollapsedInRun(b: string)
    requires b != "" && SafeChar(b[0])
    ensures Collapsed(b, true) == Collapsed(b, false)
  {
  }

  /** White space around it and upper case do not matter. */
  lemma SanitizeIsLoose(value: string)
    ensures SanitizePart(Lower(Trim(value))) == SanitizePart(value)
  {
    TrimIsTrimmed(value);
    var t := Trim(value);
    assert Trimmed(Lower(t));
    TrimFixes(Lower(t));
    assert Lower(Lower(t)) == Lower(t);
  }

  lemma DecimalNoSlash(n: nat)
    ensures '/' !in Decimal(n)
  {
    var d := Decimal(n);
    forall i | 0 <= i < |d|
      ensures d[i] != '/'
    {
      assert IsDigit(d[i]);
    }
  }

  lemma RefSplits(scope: string, ownerId: nat, name: string)
    ensures Split(BuildRef(scope, ownerId, name), '/') == [SanitizePart(scope), Decimal(ownerId), SanitizePart(name)]
  {
    PartIsSafe(scope);
    PartIsSafe(name);
    DecimalNoSlash(ownerId);
    var parts := [SanitizePart(scope), Decimal(ownerId), SanitizePart(name)];
    hide SanitizePart, Decimal;
    assert '/' !in parts[0] && '/' !in parts[2];
    SplitJoin(parts, '/');
  }

  /** A reference determines the owner id and the sanitised secret name, whatever the scopes. */
  lemma RefDetermines(s1: string, id1: nat, n1: string, s2: string, id2: nat, n2: string)
    requires BuildRef(s1, id1, n1) == BuildRef(s2, id2, n2)
    ensures id1 == id2 && SanitizePart(n1) == SanitizePart(n2)
  {
    RefSplits(s1, id1, n1);
    RefSplits(s2, id2, n2);
    hide SanitizePart, BuildRef;
    var a, b := [SanitizePart(s1), Decimal(id1), SanitizePart(n1)], [SanitizePart(s2), Decimal(id2), SanitizePart(n2)];
    assert a[1] == b[1] && a[2] == b[2];
    DecimalInjective(id1, id2);
  }

  // --- The secrets an owner has ---

  datatype Owner = Instance | ClientUser

  datatype Part = CaCert | ServerCert | ServerKey | TlsCrypt | ClientCert | ClientKey

  function PartName(p: Part): string {
    match p
    case CaCert => "ca-cert-pem"
    case ServerCert => "server-cert-pem"
    case ServerKey => "server-key-pem"
    case TlsCrypt => "tls-crypt-pem"
    case ClientCert => "client-cert-pem"
    case ClientKey => "client-key-pem"
  }

  /** Whose secret a part is. */
  function OwnerOf(p: Part): Owner {
    if p.ClientCert? || p.ClientKey? then ClientUser else Instance
  }

  lemma PartNamesAreClean(p: Part)
    ensures CleanPart(PartName(p))
  {
  }

  lemma PartNamesDiffer(p: Part, q: Part)
    requires PartName(p) == PartName(q)
    ensures p == q
  {
    assert |PartName(p)| == |PartName(q)|;
    assert PartName(p)[0] == PartName(q)[0] && PartName(p)[7] == PartName(q)[7];
  }

  datatype Secret = Secret(ownerId: nat, part: Part, ref: string)

  /** Stored references of different owners or parts are different. */
  lemma RefsDiffer(s1: string, id1: nat, p: Part, s2: string, id2: nat, q: Part)
    requires BuildRef(s1, id1, PartName(p)) == BuildRef(s2, id2, PartName(q))
    ensures id1 == id2 && p == q
  {
    RefDetermines(s1, id1, PartName(p), s2, id2, PartName(q));
    PartNamesAreClean(p);
    PartNamesAreClean(q);
    CleanPartIsFixed(PartName(p));
    CleanPartIsFixed(PartName(q));
    PartNamesDiffer(p, q);
  }

  // --- Storing drafts ---

  /** A reference read apart: what it is for, whose it is, and which secret. */
  predicate RefParts(ref: string, scope: string, ownerId: nat, secret: string) {
    Split(ref, '/') == [SanitizePart(scope), Decimal(ownerId), secret]
  }

  lemma RefPartsOf(scope: string, ownerId: nat, p: Part)
    ensures RefParts(BuildRef(scope, ownerId, PartName(p)), scope, ownerId, PartName(p))
  {
    RefSplits(scope, ownerId, PartName(p));
    PartNamesAreClean(p);
    CleanPartIsFixed(PartName(p));
  }

  datatype InstanceRow = InstanceRow(name: string, caRef: string, serverCertRef: string, serverKeyRef: string,
                                     tlsCryptRef: string)

  datatype UserRow = UserRow(instanceId: nat, name: string, certRef: string, keyRef: string)

  /** The rows written by the drafts. Ids come from one sequence per table. */
  datatype Rows = Rows(instances: map<nat, InstanceRow>, users: map<nat, UserRow>, secrets: seq<Secret>,
                       nextInstance: nat, nextUser: nat)

  function NextId(rows: Rows, owner: Owner): nat {
    if owner.Instance? then rows.nextInstance else rows.nextUser
  }

  /** A secret's reference was built for its owner and part, under some scope. */
  ghost predicate Built(s: Secret) {
    exists scope: string :: s.ref == BuildRef(scope, s.ownerId, PartName(s.part))
  }

  predicate SameSecret(a: Secret, b: Secret) {
    a.ownerId == b.ownerId && a.part == b.part
  }

  /** Every stored secret is its owner's only one of its part, and the unique index on the
      references holds. */
  ghost predicate Valid(rows: Rows) {
    && (forall i :: 0 <= i < |rows.secrets| ==>
          Built(rows.secrets[i]) && rows.secrets[i].ownerId < NextId(rows, OwnerOf(rows.secrets[i].part)))
    && (forall i, j :: 0 <= i < j < |rows.secrets| ==> !SameSecret(rows.secrets[i], rows.secrets[j]))
    && (forall i, j :: 0 <= i < j < |rows.secrets| ==> rows.secrets[i].ref != rows.secrets[j].ref)
    && (forall i :: i in rows.instances ==> i < rows.nextInstance)
    && (forall u :: u in rows.users ==> u < rows.nextUser)
  }

  predicate RefTaken(rows: Rows, ref: string) {
    exists i :: 0 <= i < |rows.secrets| && rows.secrets[i].ref == ref
  }

  lemma BuiltDiffer(a: Secret, b: Secret)
    requires Built(a) && Built(b) && a.ref == b.ref
    ensures SameSecret(a, b)
  {
    var s1: string :| a.ref == BuildRef(s1, a.ownerId, PartName(a.part));
    var s2: string :| b.ref == BuildRef(s2, b.ownerId, PartName(b.part));
    RefsDiffer(s1, a.ownerId, a.part, s2, b.ownerId, b.part);
  }

  /** So the unique index never refuses a secret that its owner does not have yet. */
  lemma NewRefIsFree(rows: Rows, s: Secret)
    requires Valid(rows) && Built(s) && forall i :: 0 <= i < |rows.secrets| ==> !SameSecret(rows.secrets[i], s)
    ensures !RefTaken(rows, s.ref)
  {
    if i :| 0 <= i < |rows.secrets| && rows.secrets[i].ref == s.ref {
      BuiltDiffer(rows.secrets[i], s);
    }
  }

  datatype Outcome = Stored | RefDuplicate | Failed

  datatype Reply = Created | Conflict | ServerError

  function InstanceParts(tls: bool): seq<Part> {
    [CaCert, ServerCert, ServerKey] + (if tls then [TlsCrypt] else [])
  }

  /** The secrets of one new owner, in order. */
  function SecretsOf(scope: string, ownerId: nat, parts: seq<Part>): (secrets: seq<Secret>)
    ensures |secrets| == |parts|
  {
    seq(|parts|, i requires 0 <= i < |parts| => Secret(ownerId, parts[i], BuildRef(scope, ownerId, PartName(parts[i]))))
  }

  predicate DistinctParts(parts: seq<Part>) {
    forall i, j :: 0 <= i < j < |parts| ==> parts[i] != parts[j]
  }

  class SecretStore {
    var rows: Rows
    /** Number of database calls that have failed. */
    var failures: nat

    constructor ()
      ensures Valid(rows) && rows == Rows(map[], map[], [], 1, 1) && failures == 0
    {
      rows, failures := Rows(map[], map[], [], 1, 1), 0;
    }

    /** The outcome of one database call. */
    method Attempt() returns (ok: bool)
      modifies this`failures
      ensures failures == if ok then old(failures) else old(failures) + 1
    {
      ok := *;
      if !ok {
        failures := failures + 1;
      }
    }

    /** The loop over a draft's secrets, inside the transaction that created their owner. The
        only failure is the database's: the references are never taken. */
    method StoreSecrets(scope: string, ownerId: nat, parts: seq<Part>) returns (out: Outcome)
      requires Valid(rows) && DistinctParts(parts) && Without(rows, ownerId, parts)
      modifies this
      ensures Valid(rows) && !out.RefDuplicate?
      ensures if out.Failed? then failures > old(failures) else failures == old(failures)
      ensures out.Stored? ==> rows == old(rows).(secrets := old(rows.secrets) + SecretsOf(scope, ownerId, parts))
    {
      ghost var before := rows;
      NothingStored(before, scope, ownerId, parts);
      hide Valid, Built, BuildRef, SecretsOf, StoredUpTo, RefTaken;
      for k := 0 to |parts|
        invariant Valid(rows) && StoredUpTo(before, rows, scope, ownerId, parts, k) && failures == old(failures)
      {
        var secret := Secret(ownerId, parts[k], BuildRef(scope, ownerId, PartName(parts[k])));
        NewSecretIsFree(before, rows, scope, ownerId, parts, k);
        if RefTaken(rows, secret.ref) {
          return RefDuplicate;
        }
        var ok := Attempt();
        if !ok {
          return Failed;
        }
        OneMoreStored(before, rows, scope, ownerId, parts, k);
        rows := rows.(secrets := rows.secrets + [secret]);
      }
      AllStored(before, rows, scope, ownerId, parts);
      out := Stored;
    }

    /** CreateInstanceDraft from its transaction on. A failure rolls everything back. */
    method CreateInstanceDraft(name: string, tls: bool) returns (reply: Reply)
      requires Valid(rows)
      modifies this
      ensures Valid(rows)
      ensures if reply.ServerError? then failures > old(failures) else failures == old(failures)
      ensures !reply.Created? ==> rows == old(rows)
      ensures reply.Conflict? <==> exists i :: i in old(rows.instances) && old(rows.instances)[i].name == name
      ensures reply.Created? ==>
        var id := old(rows.nextInstance);
        && id !in old(rows.instances) && id in rows.instances && InstanceReads(rows.instances[id], name, id, tls)
      ensures reply.Created? ==>
        && rows.secrets == old(rows.secrets)
                           + SecretsOf("openvpn-" + name, old(rows.nextInstance),
                                       [CaCert, ServerCert, ServerKey] + (if tls then [TlsCrypt] else []))
        && rows.instances
           == old(rows.instances)[old(rows.nextInstance) := InstanceRefs(name, old(rows.nextInstance), tls)]
    {
      hide BuildRef, Valid, SecretsOf, RefOf, Without, InstanceReads;
      if exists i :: i in rows.instances && rows.instances[i].name == name {
        return Conflict;
      }
      var before, id, parts := rows, rows.nextInstance, InstanceParts(tls);
      var ok := Attempt();
      if !ok {
        return ServerError;
      }
      rows := rows.(instances := rows.instances[id := InstanceRow(name, "", "", "", "")], nextInstance := id + 1);
      IdsBelow(before);
      FreshOwner(before, rows, id, parts);
      var out := StoreSecrets("openvpn-" + name, id, parts);
      ok := false;
      if out.Stored? {
        ok := Attempt();
      }
      if !ok {
        rows := before;
        return ServerError;
      }
      var row := AssignInstanceRefs(name, rows.secrets[|before.secrets|..]);
      assert rows.secrets[|before.secrets|..] == SecretsOf("openvpn-" + name, id, parts);
      InstanceRefsAssigned(name, id, tls);
      InstanceRefsRead(name, id, tls);
      RowsMayChange(rows, rows.(instances := rows.instances[id := row]));
      rows := rows.(instances := rows.instances[id := row]);
      return Created;
    }

    /** CreateUserDraft from its transaction on; instanceId is an existing instance. */
    method CreateUserDraft(instanceId: nat, name: string) returns (reply: Reply)
      requires Valid(rows)
      modifies this
      ensures Valid(rows) && !reply.Conflict?
      ensures if reply.ServerError? then failures > old(failures) else failures == old(failures)
      ensures !reply.Created? ==> rows == old(rows)
      ensures reply.Created? ==>
        var id := old(rows.nextUser);
        && id !in old(rows.users) && id in rows.users && UserReads(rows.users[id], instanceId, name, id)
      ensures reply.Created? ==>
        && rows.secrets
           == old(rows.secrets) + SecretsOf(UserScope(instanceId, name), old(rows.nextUser), [ClientCert, ClientKey])
        && rows.users == old(rows.users)[old(rows.nextUser) := UserRefs(instanceId, name, old(rows.nextUser))]
    {
      hide BuildRef, Valid, SecretsOf, RefOf, UserScope, Without, UserReads;
      var before, id, parts := rows, rows.nextUser, [ClientCert, ClientKey];
      var ok := Attempt();
      if !ok {
        return ServerError;
      }
      rows := rows.(users := rows.users[id := UserRow(instanceId, name, "", "")], nextUser := id + 1);
      IdsBelow(before);
      FreshOwner(before, rows, id, parts);
      var out := StoreSecrets(UserScope(instanceId, name), id, parts);
      ok := false;
      if out.Stored? {
        ok := Attempt();
      }
      if !ok {
        rows := before;
        return ServerError;
      }
      var row := AssignUserRefs(instanceId, name, rows.secrets[|before.secrets|..]);
      assert rows.secrets[|before.secrets|..] == SecretsOf(UserScope(instanceId, name), id, parts);
      RefOfSecrets(UserScope(instanceId, name), id, parts, ClientCert);
      RefOfSecrets(UserScope(instanceId, name), id, parts, ClientKey);
      UserRefsRead(instanceId, name, id);
      RowsMayChange(rows, rows.(users := rows.users[id := row]));
      rows := rows.(users := rows.users[id := row]);
      return Created;
    }
  }

  function UserScope(instanceId: nat, name: string): string {
    "openvpn-client-" + Decimal(instanceId) + "-" + name
  }

  /** The instance row with the references its secrets were stored under. */
  function InstanceRefs(name: string, id: nat, tls: bool): InstanceRow {
    var scope := "openvpn-" + name;
    InstanceRow(name, BuildRef(scope, id, PartName(CaCert)), BuildRef(scope, id, PartName(ServerCert)),
                BuildRef(scope, id, PartName(ServerKey)), if tls then BuildRef(scope, id, PartName(TlsCrypt)) else "")
  }

  function UserRefs(instanceId: nat, name: string, id: nat): UserRow {
    var scope := UserScope(instanceId, name);
    UserRow(instanceId, name, BuildRef(scope, id, PartName(ClientCert)), BuildRef(scope, id, PartName(ClientKey)))
  }

  /** What the new instance's references say. */
  predicate InstanceReads(row: InstanceRow, name: string, id: nat, tls: bool) {
    && row.name == name
    && RefParts(row.caRef, "openvpn-" + name, id, "ca-cert-pem")
    && RefParts(row.serverCertRef, "openvpn-" + name, id, "server-cert-pem")
    && RefParts(row.serverKeyRef, "openvpn-" + name, id, "server-key-pem")
    && if tls then RefParts(row.tlsCryptRef, "openvpn-" + name, id, "tls-crypt-pem") else row.tlsCryptRef == ""
  }

  predicate UserReads(row: UserRow, instanceId: nat, name: string, id: nat) {
    && row.instanceId == instanceId && row.name == name
    && RefParts(row.certRef, "openvpn-client-" + Decimal(instanceId) + "-" + name, id, "client-cert-pem")
    && RefParts(row.keyRef, "openvpn-client-" + Decimal(instanceId) + "-" + name, id, "client-key-pem")
  }

  lemma InstanceRefsRead(name: string, id: nat, tls: bool)
    ensures InstanceReads(InstanceRefs(name, id, tls), name, id, tls)
  {
    hide BuildRef, RefParts;
    RefPartsOf("openvpn-" + name, id, CaCert);
    RefPartsOf("openvpn-" + name, id, ServerCert);
    RefPartsOf("openvpn-" + name, id, ServerKey);
    RefPartsOf("openvpn-" + name, id, TlsCrypt);
  }

  lemma UserRefsRead(instanceId: nat, name: string, id: nat)
    ensures UserReads(UserRefs(instanceId, name, id), instanceId, name, id)
  {
    hide BuildRef, RefParts;
    RefPartsOf(UserScope(instanceId, name), id, ClientCert);
    RefPartsOf(UserScope(instanceId, name), id, ClientKey);
  }

  lemma IdsBelow(rows: Rows)
    requires Valid(rows)
    ensures forall i :: i in rows.instances ==> i < rows.nextInstance
    ensures forall u :: u in rows.users ==> u < rows.nextUser
  {
  }

  lemma RowsMayChange(a: Rows, b: Rows)
    requires Valid(a) && b.secrets == a.secrets && b.nextInstance == a.nextInstance && b.nextUser == a.nextUser
    requires b.instances.Keys == a.instances.Keys && b.users.Keys == a.users.Keys
    ensures Valid(b)
  {
    hide Built;
  }

  /** An owner just created has no secrets yet. */
  lemma FreshOwner(before: Rows, rows: Rows, id: nat, parts: seq<Part>)
    requires Valid(before) && rows.secrets == before.secrets
    requires rows.nextInstance >= before.nextInstance && rows.nextUser >= before.nextUser
    requires forall i :: i in rows.instances ==> i < rows.nextInstance
    requires forall u :: u in rows.users ==> u < rows.nextUser
    requires forall i :: 0 <= i < |parts| ==> id == NextId(before, OwnerOf(parts[i])) < NextId(rows, OwnerOf(parts[i]))
    ensures Valid(rows) && Without(rows, id, parts)
  {
    hide Built, BuildRef;
  }

  /** The first k secrets of the owner have been added to the rows. */
  predicate StoredUpTo(before: Rows, rows: Rows, scope: string, ownerId: nat, parts: seq<Part>, k: nat) {
    k <= |parts| && rows == before.(secrets := before.secrets + SecretsOf(scope, ownerId, parts)[..k])
  }

  /** The owner has no secret of these parts, and its id has been given out. */
  predicate Without(rows: Rows, ownerId: nat, parts: seq<Part>) {
    && (forall i :: 0 <= i < |parts| ==> ownerId < NextId(rows, OwnerOf(parts[i])))
    && (forall i, j :: 0 <= i < |parts| && 0 <= j < |rows.secrets| ==>
          !(rows.secrets[j].ownerId == ownerId && rows.secrets[j].part == parts[i]))
  }

  lemma NothingStored(rows: Rows, scope: string, ownerId: nat, parts: seq<Part>)
    ensures StoredUpTo(rows, rows, scope, ownerId, parts, 0)
  {
    assert SecretsOf(scope, ownerId, parts)[..0] == [];
    assert rows.secrets + [] == rows.secrets;
  }

  lemma AllStored(before: Rows, rows: Rows, scope: string, ownerId: nat, parts: seq<Part>)
    requires StoredUpTo(before, rows, scope, ownerId, parts, |parts|)
    ensures rows == before.(secrets := before.secrets + SecretsOf(scope, ownerId, parts))
  {
    hide SecretsOf;
    assert SecretsOf(scope, ownerId, parts)[..|parts|] == SecretsOf(scope, ownerId, parts);
  }

  lemma SecretAt(scope: string, ownerId: nat, parts: seq<Part>, k: nat)
    requires k < |parts|
    ensures SecretsOf(scope, ownerId, parts)[k]
            == Secret(ownerId, parts[k], BuildRef(scope, ownerId, PartName(parts[k])))
    ensures Built(SecretsOf(scope, ownerId, parts)[k])
  {
  }

  lemma NotYetStored(before: Rows, rows: Rows, scope: string, ownerId: nat, parts: seq<Part>, k: nat, i: nat)
    requires Without(before, ownerId, parts) && DistinctParts(parts) && k < |parts|
    requires StoredUpTo(before, rows, scope, ownerId, parts, k) && i < |rows.secrets|
    ensures !SameSecret(rows.secrets[i], SecretsOf(scope, ownerId, parts)[k])
  {
    SecretAt(scope, ownerId, parts, k);
    var all, n := SecretsOf(scope, ownerId, parts), |before.secrets|;
    AppendedAt(before.secrets, all, k, i);
    if i >= n {
      SecretAt(scope, ownerId, parts, i - n);
    }
    hide SecretsOf, BuildRef, Built;
  }

  lemma AppendedAt(a: seq<Secret>, b: seq<Secret>, k: nat, i: nat)
    requires k <= |b| && i < |a| + k
    ensures (a + b[..k])[i] == if i < |a| then a[i] else b[i - |a|]
  {
  }

  lemma AppendedMore(a: seq<Secret>, b: seq<Secret>, k: nat)
    requires k < |b|
    ensures a + b[..k] + [b[k]] == a + b[..k + 1]
  {
  }

  lemma NewSecretIsFree(before: Rows, rows: Rows, scope: string, ownerId: nat, parts: seq<Part>, k: nat)
    requires Valid(rows) && Without(before, ownerId, parts) && DistinctParts(parts) && k < |parts|
    requires StoredUpTo(before, rows, scope, ownerId, parts, k)
    ensures !RefTaken(rows, BuildRef(scope, ownerId, PartName(parts[k])))
  {
    var s := SecretsOf(scope, ownerId, parts)[k];
    SecretAt(scope, ownerId, parts, k);
    hide BuildRef, SecretsOf, Valid, Built, StoredUpTo, Without, RefTaken;
    forall i | 0 <= i < |rows.secrets|
      ensures !SameSecret(rows.secrets[i], s)
    {
      NotYetStored(before, rows, scope, ownerId, parts, k, i);
    }
    NewRefIsFree(rows, s);
  }

  lemma OwnerIdGiven(before: Rows, rows: Rows, scope: string, ownerId: nat, parts: seq<Part>, k: nat)
    requires Without(before, ownerId, parts) && k < |parts| && StoredUpTo(before, rows, scope, ownerId, parts, k)
    ensures ownerId < NextId(rows, OwnerOf(parts[k]))
  {
    hide SecretsOf, BuildRef;
  }

  lemma OneMoreStored(before: Rows, rows: Rows, scope: string, ownerId: nat, parts: seq<Part>, k: nat)
    requires Valid(rows) && Without(before, ownerId, parts) && DistinctParts(parts) && k < |parts|
    requires StoredUpTo(before, rows, scope, ownerId, parts, k)
    ensures var s := Secret(ownerId, parts[k], BuildRef(scope, ownerId, PartName(parts[k])));
            var longer := rows.(secrets := rows.secrets + [s]);
            Valid(longer) && StoredUpTo(before, longer, scope, ownerId, parts, k + 1)
  {
    var all := SecretsOf(scope, ownerId, parts);
    var s := all[k];
    SecretAt(scope, ownerId, parts, k);
    NewSecretIsFree(before, rows, scope, ownerId, parts, k);
    OwnerIdGiven(before, rows, scope, ownerId, parts, k);
    hide BuildRef, SecretsOf, Valid, Built, RefTaken, Without, SameSecret;
    forall i | 0 <= i < |rows.secrets|
      ensures !SameSecret(rows.secrets[i], s)
    {
      NotYetStored(before, rows, scope, ownerId, parts, k, i);
    }
    StoredIsValid(rows, s);
    AppendedMore(before.secrets, all, k);
  }

  lemma StoredIsValid(rows: Rows, s: Secret)
    requires Valid(rows) && Built(s) && !RefTaken(rows, s.ref) && s.ownerId < NextId(rows, OwnerOf(s.part))
    requires forall i :: 0 <= i < |rows.secrets| ==> !SameSecret(rows.secrets[i], s)
    ensures Valid(rows.(secrets := rows.secrets + [s]))
  {
    hide Built, BuildRef;
  }

  // --- The references copied into the owner's row ---

  /** The reference assigned last for a part, or none. */
  function RefOf(secrets: seq<Secret>, p: Part): string {
    if secrets == [] then ""
    else
      var last := secrets[|secrets| - 1];
      if last.part == p then last.ref else RefOf(secrets[..|secrets| - 1], p)
  }

  /** The switch in the instance draft's loop. */
  method AssignInstanceRefs(name: string, secrets: seq<Secret>) returns (row: InstanceRow)
    ensures row == InstanceRow(name, RefOf(secrets, CaCert), RefOf(secrets, ServerCert), RefOf(secrets, ServerKey),
                               RefOf(secrets, TlsCrypt))
  {
    row := InstanceRow(name, "", "", "", "");
    for k := 0 to |secrets|
      invariant row == InstanceRow(name, RefOf(secrets[..k], CaCert), RefOf(secrets[..k], ServerCert),
                                   RefOf(secrets[..k], ServerKey), RefOf(secrets[..k], TlsCrypt))
    {
      assert secrets[..k + 1][..k] == secrets[..k];
      match secrets[k].part {
        case CaCert => row := row.(caRef := secrets[k].ref);
        case ServerCert => row := row.(serverCertRef := secrets[k].ref);
        case ServerKey => row := row.(serverKeyRef := secrets[k].ref);
        case TlsCrypt => row := row.(tlsCryptRef := secrets[k].ref);
        case _ =>
      }
    }
    assert secrets[..|secrets|] == secrets;
  }

  /** The switch in the client draft's loop. */
  method AssignUserRefs(instanceId: nat, name: string, secrets: seq<Secret>) returns (row: UserRow)
    ensures row == UserRow(instanceId, name, RefOf(secrets, ClientCert), RefOf(secrets, ClientKey))
  {
    row := UserRow(instanceId, name, "", "");
    for k := 0 to |secrets|
      invariant row == UserRow(instanceId, name, RefOf(secrets[..k], ClientCert), RefOf(secrets[..k], ClientKey))
    {
      assert secrets[..k + 1][..k] == secrets[..k];
      match secrets[k].part {
        case ClientCert => row := row.(certRef := secrets[k].ref);
        case ClientKey => row := row.(keyRef := secrets[k].ref);
        case _ =>
      }
    }
    assert secrets[..|secrets|] == secrets;
  }

  lemma SecretsOfMore(scope: string, id: nat, parts: seq<Part>)
    requires parts != []
    ensures var n := |parts| - 1;
            SecretsOf(scope, id, parts)[..n] == SecretsOf(scope, id, parts[..n])
            && SecretsOf(scope, id, parts)[n] == Secret(id, parts[n], BuildRef(scope, id, PartName(parts[n])))
  {
    hide BuildRef, PartName;
  }

  lemma DistinctInit(parts: seq<Part>, p: Part)
    requires parts != [] && DistinctParts(parts)
    ensures var n := |parts| - 1;
            DistinctParts(parts[..n]) && (p in parts <==> p in parts[..n] || p == parts[n])
            && (p == parts[n] ==> p !in parts[..n])
  {
    assert parts == parts[..|parts| - 1] + [parts[|parts| - 1]];
  }

  /** Each part's reference ends up under its own name. */
  lemma {:induction false} RefOfSecrets(scope: string, id: nat, parts: seq<Part>, p: Part)
    requires DistinctParts(parts)
    ensures RefOf(SecretsOf(scope, id, parts), p) == if p in parts then BuildRef(scope, id, PartName(p)) else ""
  {
    if parts != [] {
      var n := |parts| - 1;
      SecretsOfMore(scope, id, parts);
      DistinctInit(parts, p);
      hide BuildRef, SecretsOf, DistinctParts, PartName;
      RefOfSecrets(scope, id, parts[..n], p);
    }
  }

  lemma InstanceRefsAssigned(name: string, id: nat, tls: bool)
    ensures var secrets := SecretsOf("openvpn-" + name, id, InstanceParts(tls));
            InstanceRefs(name, id, tls) ==
              InstanceRow(name, RefOf(secrets, CaCert), RefOf(secrets, ServerCert), RefOf(secrets, ServerKey),
                          RefOf(secrets, TlsCrypt))
  {
    hide BuildRef, RefOf;
    var scope, parts := "openvpn-" + name, InstanceParts(tls);
    RefOfSecrets(scope, id, parts, CaCert);
    RefOfSecrets(scope, id, parts, ServerCert);
    RefOfSecrets(scope, id, parts, ServerKey);
    RefOfSecrets(scope, id, parts, TlsCrypt);
  }
}
