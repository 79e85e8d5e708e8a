/** Seeding at every start: the permission catalog, the default roles, and the first super
    admin on an empty user table, as the list of writes it makes. */
module Seeding {
  import opened Text
  import opened Rbac

  datatype RoleDef = RoleDef(name: string, perms: seq<string>)

  function ViewNames(): seq<string> {
    ["interfaces.view", "peers.view", "portforwards.view", "vpn.view", "openvpn.view"]
  }

  function ManageNames(): seq<string> {
    ["interfaces.view", "interfaces.create", "interfaces.update", "interfaces.delete", "interfaces.sync",
     "peers.view", "peers.create", "peers.update", "peers.delete",
     "portforwards.view", "portforwards.manage",
     "vpn.view", "vpn.create", "vpn.apply",
     "openvpn.view", "openvpn.create", "openvpn.apply"]
  }

  function AllPermissions(): seq<string> {
    [WILDCARD, "users.view", "users.create", "users.update", "users.delete",
     "roles.view", "roles.manage", "permissions.view"]
    + ManageNames()
  }

  function DefaultRoles(): (defs: seq<RoleDef>)
    ensures |defs| == 3
  {
    [RoleDef(SUPER_ADMIN, [WILDCARD]), RoleDef("operator", ManageNames()), RoleDef("viewer", ViewNames())]
  }

  /** Different names, and the wildcard for the super-admin role alone. */
  predicate WellDefined(defs: seq<RoleDef>) {
    && (forall i, j :: 0 <= i < |defs| && 0 <= j < |defs| && defs[i].name == defs[j].name ==> i == j)
    && (forall i :: 0 <= i < |defs| ==> (WILDCARD in defs[i].perms <==> defs[i].name == SUPER_ADMIN))
  }

  predicate NoWildcard(names: seq<string>) {
    forall i :: 0 <= i < |names| ==> names[i] != WILDCARD
  }

  lemma NamesAreTame()
    ensures NoWildcard(ViewNames()) && NoWildcard(ManageNames())
  {
    forall i | 0 <= i < 5
      ensures ViewNames()[i] != WILDCARD
    {
      assert |ViewNames()[i]| > 1;
    }
    forall i | 0 <= i < 17
      ensures ManageNames()[i] != WILDCARD
    {
      assert |ManageNames()[i]| > 1;
    }
  }

  lemma DefaultsAreWellDefined()
    ensures WellDefined(DefaultRoles()) && DefaultRoles()[0].name == SUPER_ADMIN
  {
    NamesAreTame();
    hide ViewNames, ManageNames;
    var defs := DefaultRoles();
    assert defs[0].name[0] == 's' && defs[1].name[0] == 'o' && defs[2].name[0] == 'v';
    assert defs[0].perms[0] == WILDCARD;
  }

  lemma CatalogHasWildcard()
    ensures WILDCARD in AllPermissions()
  {
    hide ManageNames;
    assert AllPermissions()[0] == WILDCARD;
  }

  // --- The writes ---

  datatype Write =
    | UpsertPermission(name: string)
    | UpsertRole(name: string)
    | WidenRole(def: RoleDef)
    | NarrowRole(def: RoleDef)
    | CreateAdmin(username: string)
    | GrantSuper(username: string)

  predicate PermissionExists(s: State, name: string) {
    exists p :: p in s.perms && s.perms[p] == name
  }

  predicate RoleExists(s: State, name: string) {
    exists r :: r in s.roles && s.roles[r].name == name
  }

  function IdsOf(s: State, names: seq<string>): set<nat> {
    set p | p in s.perms && s.perms[p] in names
  }

  function RolesNamed(s: State, name: string): set<nat> {
    set r | r in s.roles && s.roles[r].name == name
  }

  /** One write; a role's permissions are replaced by widening and then narrowing them. */
  function Perform(s: State, w: Write): State {
    match w
    case UpsertPermission(name) =>
      if PermissionExists(s, name) then s else s.(perms := s.perms[s.nextId := name], nextId := s.nextId + 1)
    case UpsertRole(name) => if RoleExists(s, name) then s else AddRole(s, Role(name, {}))
    case WidenRole(def) =>
      s.(roles := map r | r in s.roles ::
           if s.roles[r].name == def.name then s.roles[r].(perms := s.roles[r].perms + IdsOf(s, def.perms))
           else s.roles[r])
    case NarrowRole(def) =>
      s.(roles := map r | r in s.roles ::
           if s.roles[r].name == def.name then s.roles[r].(perms := s.roles[r].perms * IdsOf(s, def.perms))
           else s.roles[r])
    case CreateAdmin(username) => AddUser(s, User(username, true, {}, {}))
    case GrantSuper(username) =>
      s.(users := map u | u in s.users :: if s.users[u].username == username
                                         then s.users[u].(roles := s.users[u].roles + RolesNamed(s, SUPER_ADMIN))
                                         else s.users[u])
  }

  function PerformAll(s: State, ws: seq<Write>): State {
    if ws == [] then s else Perform(PerformAll(s, ws[..|ws| - 1]), ws[|ws| - 1])
  }

  function PermissionWrites(names: seq<string>): seq<Write> {
    seq(|names|, i requires 0 <= i < |names| => UpsertPermission(names[i]))
  }

  function RoleWrites(defs: seq<RoleDef>): seq<Write> {
    if defs == [] then []
    else
      var def := defs[|defs| - 1];
      RoleWrites(defs[..|defs| - 1]) + [UpsertRole(def.name), WidenRole(def), NarrowRole(def)]
  }

  function AdminName(username: string): string {
    if Trim(username) == "" then "admin" else Trim(username)
  }

  function AdminWrites(empty: bool, username: string, password: string): seq<Write> {
    if empty && Trim(password) != "" then [CreateAdmin(AdminName(username)), GrantSuper(AdminName(username))] else []
  }

  function SeedWrites(s: State, username: string, password: string): seq<Write> {
    PermissionWrites(AllPermissions()) + RoleWrites(DefaultRoles()) + AdminWrites(s.users == map[], username, password)
  }

  function Seeded(s: State, username: string, password: string): State {
    PerformAll(s, SeedWrites(s, username, password))
  }

  lemma {:induction false} PerformConcat(s: State, a: seq<Write>, b: seq<Write>)
    ensures PerformAll(s, a + b) == PerformAll(PerformAll(s, a), b)
  {
    if b == [] {
      assert a + b == a;
    } else {
      var n := |b| - 1;
      assert (a + b)[..|a + b| - 1] == a + b[..n];
      PerformConcat(s, a, b[..n]);
    }
  }

  // --- What every write keeps ---

  /** A write that brings permissions and roles up to date; only the super-admin role may
      be given the wildcard. */
  predicate Upkeep(w: Write) {
    match w
    case WidenRole(def) => WILDCARD in def.perms <==> def.name == SUPER_ADMIN
    case NarrowRole(def) => WILDCARD in def.perms <==> def.name == SUPER_ADMIN
    case CreateAdmin(_) => false
    case GrantSuper(_) => false
    case _ => true
  }

  lemma UpsertKeepsIntegrity(s: State, w: Write)
    requires Integrity(s) && (w.UpsertPermission? || w.UpsertRole?)
    ensures Integrity(Perform(s, w))
  {
    if w.UpsertRole? && !RoleExists(s, w.name) {
      AddRoleKeeps(s, Role(w.name, {}));
    }
  }

  lemma RoleKeepsIntegrity(s: State, w: Write)
    requires Integrity(s) && (w.WidenRole? || w.NarrowRole?)
    ensures Integrity(Perform(s, w))
  {
    var t := Perform(s, w);
    assert forall r :: r in t.roles ==> t.roles[r].name == s.roles[r].name && t.roles[r].perms <= s.perms.Keys;
  }

  lemma UpkeepKeepsIntegrity(s: State, w: Write)
    requires Integrity(s) && Upkeep(w)
    ensures Integrity(Perform(s, w)) && Perform(s, w).users == s.users
  {
    hide Integrity;
    if w.UpsertPermission? || w.UpsertRole? {
      UpsertKeepsIntegrity(s, w);
    } else {
      RoleKeepsIntegrity(s, w);
    }
  }

  lemma PermissionsStay(s: State, w: Write)
    requires Integrity(s)
    ensures forall p :: p in s.perms ==> p in Perform(s, w).perms && Perform(s, w).perms[p] == s.perms[p]
  {
    FreshId(s);
  }

  lemma UpkeepKeepsTame(s: State, w: Write)
    requires Integrity(s) && OnlySeededWild(s) && Upkeep(w)
    ensures OnlySeededWild(Perform(s, w))
  {
    FreshId(s);
    var t := Perform(s, w);
    forall r | r in t.roles && RoleWild(t, r)
      ensures t.roles[r].name == SUPER_ADMIN
    {
      var p :| p in t.roles[r].perms && p in t.perms && t.perms[p] == WILDCARD;
      assert r in s.roles ==> (p in s.roles[r].perms && RoleWild(s, r)) || t.roles[r].name == SUPER_ADMIN;
    }
  }

  predicate AllUpkeep(ws: seq<Write>) {
    forall i :: 0 <= i < |ws| ==> Upkeep(ws[i])
  }

  lemma {:induction false} UpkeepKeeps(s: State, ws: seq<Write>)
    requires Integrity(s) && AllUpkeep(ws)
    ensures var t := PerformAll(s, ws);
            Integrity(t) && t.users == s.users && (OnlySeededWild(s) ==> OnlySeededWild(t))
  {
    hide Integrity, OnlySeededWild, Upkeep, Perform;
    if ws != [] {
      var n := |ws| - 1;
      var m := PerformAll(s, ws[..n]);
      UpkeepKeeps(s, ws[..n]);
      UpkeepKeepsIntegrity(m, ws[n]);
      if OnlySeededWild(s) {
        UpkeepKeepsTame(m, ws[n]);
      }
    }
  }

  lemma {:induction false} RoleWritesAreUpkeep(defs: seq<RoleDef>)
    requires WellDefined(defs)
    ensures AllUpkeep(RoleWrites(defs))
  {
    if defs != [] {
      RoleWritesAreUpkeep(defs[..|defs| - 1]);
    }
  }

  function UpkeepWrites(): seq<Write> {
    PermissionWrites(AllPermissions()) + RoleWrites(DefaultRoles())
  }

  lemma SeedIsUpkeep()
    ensures AllUpkeep(UpkeepWrites())
  {
    DefaultsAreWellDefined();
    RoleWritesAreUpkeep(DefaultRoles());
    hide AllPermissions, DefaultRoles, WellDefined;
  }

  // --- What a complete seed leaves ---

  predicate RoleSettled(s: State, def: RoleDef) {
    && RoleExists(s, def.name)
    && forall r :: r in s.roles && s.roles[r].name == def.name ==> s.roles[r].perms == IdsOf(s, def.perms)
  }

  predicate Settled(s: State, names: seq<string>, defs: seq<RoleDef>) {
    && (forall i :: 0 <= i < |names| ==> PermissionExists(s, names[i]))
    && (forall i :: 0 <= i < |defs| ==> RoleSettled(s, defs[i]))
  }

  lemma UpsertedExists(s: State, name: string)
    ensures PermissionExists(Perform(s, UpsertPermission(name)), name)
  {
    var t := Perform(s, UpsertPermission(name));
    if !PermissionExists(s, name) {
      assert t.perms[s.nextId] == name;
    }
  }

  lemma ExistsStays(a: State, b: State, name: string)
    requires PermissionExists(a, name) && forall p :: p in a.perms ==> p in b.perms && b.perms[p] == a.perms[p]
    ensures PermissionExists(b, name)
  {
  }

  lemma {:induction false} PermissionsSettle(s: State, names: seq<string>)
    requires Integrity(s)
    ensures var t := PerformAll(s, PermissionWrites(names));
            Integrity(t) && forall i :: 0 <= i < |names| ==> PermissionExists(t, names[i])
  {
    hide Integrity, Perform, PermissionExists;
    if names != [] {
      var n := |names| - 1;
      var ws := PermissionWrites(names);
      var m := PerformAll(s, ws[..n]);
      assert ws[..n] == PermissionWrites(names[..n]);
      PermissionsSettle(s, names[..n]);
      UpkeepKeepsIntegrity(m, ws[n]);
      PermissionsStay(m, ws[n]);
      UpsertedExists(m, names[n]);
      forall i | 0 <= i < n
        ensures PermissionExists(Perform(m, ws[n]), names[i])
      {
        assert names[i] == names[..n][i];
        ExistsStays(m, Perform(m, ws[n]), names[i]);
      }
    }
  }

  function Refresh(def: RoleDef): seq<Write> {
    [UpsertRole(def.name), WidenRole(def), NarrowRole(def)]
  }

  function Refreshed(s: State, def: RoleDef): State {
    Perform(Perform(Perform(s, UpsertRole(def.name)), WidenRole(def)), NarrowRole(def))
  }

  lemma RefreshedIs(s: State, def: RoleDef)
    ensures PerformAll(s, Refresh(def)) == Refreshed(s, def)
  {
    var ws := Refresh(def);
    assert ws[..2][..1] == ws[..1] && ws[..1][..0] == [];
    assert PerformAll(s, ws[..1]) == Perform(s, ws[0]);
    assert PerformAll(s, ws[..2]) == Perform(PerformAll(s, ws[..1]), ws[1]);
  }

  /** Widening and narrowing an existing role leaves it with exactly the listed permissions. */
  lemma ReplaceSettles(s: State, def: RoleDef)
    requires RoleExists(s, def.name)
    ensures RoleSettled(Perform(Perform(s, WidenRole(def)), NarrowRole(def)), def)
  {
    var m := Perform(s, WidenRole(def));
    var t := Perform(m, NarrowRole(def));
    var r :| r in s.roles && s.roles[r].name == def.name;
    assert r in t.roles && t.roles[r].name == def.name;
    assert IdsOf(m, def.perms) == IdsOf(s, def.perms) == IdsOf(t, def.perms);
    forall q | q in t.roles && t.roles[q].name == def.name
      ensures t.roles[q].perms == IdsOf(t, def.perms)
    {
      assert t.roles[q].perms == (s.roles[q].perms + IdsOf(s, def.perms)) * IdsOf(s, def.perms);
    }
  }

  lemma RefreshSettles(s: State, def: RoleDef)
    ensures var t := Refreshed(s, def);
            RoleSettled(t, def) && t.perms == s.perms && t.users == s.users
  {
    var a := Perform(s, UpsertRole(def.name));
    assert RoleExists(a, def.name) by {
      if !RoleExists(s, def.name) {
        assert a.roles[s.nextId].name == def.name;
      }
    }
    ReplaceSettles(a, def);
  }

  lemma RefreshKeepsOthers(s: State, def: RoleDef, other: RoleDef)
    requires Integrity(s) && RoleSettled(s, other) && def.name != other.name
    ensures RoleSettled(Refreshed(s, def), other)
  {
    FreshId(s);
    hide Integrity;
    var r :| r in s.roles && s.roles[r].name == other.name;
    var t := Refreshed(s, def);
    assert r in t.roles && t.roles[r].name == other.name;
    assert IdsOf(t, other.perms) == IdsOf(s, other.perms);
  }

  lemma {:induction false} RolesSettle(s: State, defs: seq<RoleDef>)
    requires Integrity(s) && WellDefined(defs)
    ensures var t := PerformAll(s, RoleWrites(defs));
            Integrity(t) && t.perms == s.perms && t.users == s.users
            && forall i :: 0 <= i < |defs| ==> RoleSettled(t, defs[i])
  {
    RoleWritesAreUpkeep(defs);
    hide Integrity, RoleSettled, Perform;
    UpkeepKeeps(s, RoleWrites(defs));
    if defs != [] {
      var n := |defs| - 1;
      var m := PerformAll(s, RoleWrites(defs[..n]));
      RolesSettle(s, defs[..n]);
      PerformConcat(s, RoleWrites(defs[..n]), Refresh(defs[n]));
      RefreshedIs(m, defs[n]);
      RefreshSettles(m, defs[n]);
      forall i | 0 <= i < n
        ensures RoleSettled(Refreshed(m, defs[n]), defs[i])
      {
        assert defs[i] == defs[..n][i];
        RefreshKeepsOthers(m, defs[n], defs[i]);
      }
    }
  }

  lemma UpkeepSettles(s: State)
    requires Integrity(s)
    ensures var t := PerformAll(s, UpkeepWrites());
            Integrity(t) && t.users == s.users && Settled(t, AllPermissions(), DefaultRoles())
  {
    DefaultsAreWellDefined();
    SeedIsUpkeep();
    hide Integrity, Perform, AllPermissions, DefaultRoles, WellDefined, PermissionExists, RoleSettled, AllUpkeep,
         PerformAll;
    var m := PerformAll(s, PermissionWrites(AllPermissions()));
    PermissionsSettle(s, AllPermissions());
    RolesSettle(m, DefaultRoles());
    PerformConcat(s, PermissionWrites(AllPermissions()), RoleWrites(DefaultRoles()));
    UpkeepKeeps(s, UpkeepWrites());
    SettledMoves(m, PerformAll(s, UpkeepWrites()), AllPermissions());
  }

  lemma SettledMoves(a: State, b: State, names: seq<string>)
    requires a.perms == b.perms && forall i :: 0 <= i < |names| ==> PermissionExists(a, names[i])
    ensures forall i :: 0 <= i < |names| ==> PermissionExists(b, names[i])
  {
  }

  lemma {:induction false} RefreshNothing(s: State, defs: seq<RoleDef>)
    requires forall i :: 0 <= i < |defs| ==> RoleSettled(s, defs[i])
    ensures PerformAll(s, RoleWrites(defs)) == s
  {
    if defs != [] {
      var n := |defs| - 1;
      RefreshNothing(s, defs[..n]);
      PerformConcat(s, RoleWrites(defs[..n]), Refresh(defs[n]));
      RefreshedIs(s, defs[n]);
      SettledRole(s, defs[n]);
    }
  }

  lemma SettledRole(s: State, def: RoleDef)
    requires RoleSettled(s, def)
    ensures Refreshed(s, def) == s
  {
    var ids := IdsOf(s, def.perms);
    assert ids + ids == ids && ids * ids == ids;
    forall r | r in s.roles && s.roles[r].name == def.name
      ensures s.roles[r].(perms := s.roles[r].perms + ids) == s.roles[r] == s.roles[r].(perms := s.roles[r].perms * ids)
    {
      assert s.roles[r].perms == ids;
    }
    assert Perform(s, WidenRole(def)).roles == s.roles;
    assert Perform(s, NarrowRole(def)).roles == s.roles;
  }

  lemma {:induction false} UpsertNothing(s: State, names: seq<string>)
    requires forall i :: 0 <= i < |names| ==> PermissionExists(s, names[i])
    ensures PerformAll(s, PermissionWrites(names)) == s
  {
    if names != [] {
      var n := |names| - 1;
      assert PermissionWrites(names)[..n] == PermissionWrites(names[..n]);
      UpsertNothing(s, names[..n]);
      assert PermissionExists(s, names[n]);
    }
  }

  /** The administrator's two writes. */
  function WithAdmin(s: State, username: string): State {
    Perform(Perform(s, CreateAdmin(username)), GrantSuper(username))
  }

  lemma AdminAdded(s: State, username: string)
    ensures PerformAll(s, [CreateAdmin(username), GrantSuper(username)]) == WithAdmin(s, username)
    ensures PerformAll(s, [CreateAdmin(username)]) == Perform(s, CreateAdmin(username))
  {
    var ws := [CreateAdmin(username), GrantSuper(username)];
    assert ws[..1] == [CreateAdmin(username)] && ws[..1][..0] == [];
    assert PerformAll(s, ws[..1]) == Perform(s, CreateAdmin(username));
  }

  lemma SeededIs(s: State, username: string, password: string)
    ensures var m := PerformAll(s, UpkeepWrites());
            Seeded(s, username, password) ==
              if s.users == map[] && Trim(password) != "" then WithAdmin(m, AdminName(username)) else m
  {
    var extra := AdminWrites(s.users == map[], username, password);
    hide AllPermissions, DefaultRoles, Perform;
    PerformConcat(s, UpkeepWrites(), extra);
    AdminAdded(PerformAll(s, UpkeepWrites()), AdminName(username));
  }

  /** On an empty user table a complete seed creates one active super admin, with the trimmed
      name or "admin", exactly when a password is given. */
  lemma SeedCreatesAdmin(s: State, username: string, password: string)
    requires Integrity(s) && s.users == map[]
    ensures HasSuper(Seeded(s, username, password)) <==> Trim(password) != ""
    ensures Seeded(s, username, password).users == map[] <==> Trim(password) == ""
    ensures Trim(password) != "" ==>
              exists u ::
                && Seeded(s, username, password).users.Keys == {u} && ActiveSuper(Seeded(s, username, password), u)
                && Seeded(s, username, password).users[u].username ==
                     (if Trim(username) == "" then "admin" else Trim(username))
  {
    var m, t := PerformAll(s, UpkeepWrites()), Seeded(s, username, password);
    UpkeepSettles(s);
    SeededIs(s, username, password);
    CatalogHasWildcard();
    DefaultsAreWellDefined();
    hide *;
    if Trim(password) != "" {
      SuperRoleIsWild(m);
      AdminIsSuper(m, AdminName(username));
      AdminIsAlone(m, username);
      assert ActiveSuper(t, m.nextId);
    } else {
      NobodyIsSuper(t);
    }
  }

  lemma NobodyIsSuper(s: State)
    requires s.users == map[]
    ensures !HasSuper(s)
  {
  }

  lemma AdminIsAlone(s: State, username: string)
    requires s.users == map[]
    ensures var t := WithAdmin(s, AdminName(username));
            && t.users != map[] && t.users.Keys == {s.nextId}
            && t.users[s.nextId].username == if Trim(username) == "" then "admin" else Trim(username)
  {
    hide Trim;
    assert s.nextId in WithAdmin(s, AdminName(username)).users;
  }

  lemma SuperRoleIsWild(s: State)
    requires Settled(s, AllPermissions(), DefaultRoles()) && WILDCARD in AllPermissions()
    ensures SuperRoleReady(s)
  {
    hide AllPermissions, ManageNames, ViewNames;
    var def := DefaultRoles()[0];
    assert RoleSettled(s, def);
    var r :| r in s.roles && s.roles[r].name == SUPER_ADMIN;
    var i :| 0 <= i < |AllPermissions()| && AllPermissions()[i] == WILDCARD;
    assert PermissionExists(s, AllPermissions()[i]);
    var p :| p in s.perms && s.perms[p] == WILDCARD;
    assert def.perms[0] == WILDCARD;
    assert p in IdsOf(s, def.perms);
    assert RoleWild(s, r);
  }

  lemma AdminIsSuper(s: State, username: string)
    requires SuperRoleReady(s)
    ensures HasSuper(WithAdmin(s, username)) && ActiveSuper(WithAdmin(s, username), s.nextId)
  {
    var r :| r in s.roles && s.roles[r].name == SUPER_ADMIN && RoleWild(s, r);
    var t := WithAdmin(s, username);
    assert r in t.users[s.nextId].roles && RoleWild(t, r);
    assert ActiveSuper(t, s.nextId);
  }

  /** Seeding again changes nothing. */
  lemma SeedIsIdempotent(s: State, username: string, password: string)
    requires Integrity(s)
    ensures var t := Seeded(s, username, password); Seeded(t, username, password) == t
  {
    var m, t := PerformAll(s, UpkeepWrites()), Seeded(s, username, password);
    UpkeepSettles(s);
    SeededIs(s, username, password);
    SeededIs(t, username, password);
    AdminKeepsSettled(m, AdminName(username));
    hide AllPermissions, DefaultRoles, Integrity, Perform;
    UpsertNothing(t, AllPermissions());
    RefreshNothing(t, DefaultRoles());
    PerformConcat(t, PermissionWrites(AllPermissions()), RoleWrites(DefaultRoles()));
  }

  lemma AdminKeepsSettled(s: State, username: string)
    requires Settled(s, AllPermissions(), DefaultRoles())
    ensures var t := WithAdmin(s, username); Settled(t, AllPermissions(), DefaultRoles()) && t.users != map[]
  {
    var t := WithAdmin(s, username);
    hide AllPermissions, DefaultRoles;
    assert s.nextId in t.users;
    SettledMoves(s, t, AllPermissions());
    RolesSettledMove(s, t, DefaultRoles());
  }

  lemma RolesSettledMove(a: State, b: State, defs: seq<RoleDef>)
    requires a.perms == b.perms && a.roles == b.roles && forall i :: 0 <= i < |defs| ==> RoleSettled(a, defs[i])
    ensures forall i :: 0 <= i < |defs| ==> RoleSettled(b, defs[i])
  {
    assert forall names :: IdsOf(a, names) == IdsOf(b, names);
  }

  // --- Which super admins a start keeps ---

  predicate DefaultName(name: string) {
    exists i :: 0 <= i < |DefaultRoles()| && DefaultRoles()[i].name == name
  }

  /** A role that carries the wildcard after a start: the super-admin role, made wild if it
      was not, or a wild role that is none of the default ones. */
  predicate LastingRole(s: State, r: nat) {
    r in s.roles && (s.roles[r].name == SUPER_ADMIN || (RoleWild(s, r) && !DefaultName(s.roles[r].name)))
  }

  /** What can be looked up before a start about account u. */
  predicate SuperAfterStart(s: State, u: nat) {
    && u in s.users && s.users[u].active
    && (Wild(s, s.users[u].perms) || exists r :: r in s.users[u].roles && LastingRole(s, r))
  }

  predicate SuperRemains(s: State) {
    exists u :: u in s.users && SuperAfterStart(s, u)
  }

  /** An active super admin for a reason no start takes away. */
  predicate LastingSuper(s: State, u: nat) {
    && u in s.users && s.users[u].active
    && (Wild(s, s.users[u].perms) || exists r :: r in s.users[u].roles && RoleWild(s, r) && LastingRole(s, r))
  }

  /** A write that brings permissions and default roles up to date. */
  predicate OnDefaults(w: Write) {
    Upkeep(w) && (w.WidenRole? || w.NarrowRole? ==> DefaultName(w.def.name))
  }

  predicate AllOnDefaults(ws: seq<Write>) {
    forall i :: 0 <= i < |ws| ==> OnDefaults(ws[i])
  }

  lemma {:induction false} RoleWritesOnDefaults(defs: seq<RoleDef>)
    requires WellDefined(defs) && forall i :: 0 <= i < |defs| ==> DefaultName(defs[i].name)
    ensures AllOnDefaults(RoleWrites(defs))
  {
    hide DefaultName;
    if defs != [] {
      RoleWritesOnDefaults(defs[..|defs| - 1]);
    }
  }

  lemma SeedIsOnDefaults()
    ensures AllOnDefaults(UpkeepWrites())
  {
    DefaultsAreWellDefined();
    RoleWritesOnDefaults(DefaultRoles());
    hide AllPermissions, DefaultRoles, WellDefined, DefaultName;
  }

  /** Names stay, roles other than the default ones stay as they are, permissions stay. */
  predicate RowsStay(s: State, t: State) {
    && s.users == t.users
    && (forall p :: p in s.perms ==> p in t.perms && t.perms[p] == s.perms[p])
    && (forall r :: r in s.roles ==> r in t.roles && t.roles[r].name == s.roles[r].name)
    && (forall r :: r in s.roles && !DefaultName(s.roles[r].name) ==> t.roles[r] == s.roles[r])
  }

  lemma RowsStayOnce(s: State, w: Write)
    requires Integrity(s) && OnDefaults(w)
    ensures RowsStay(s, Perform(s, w))
  {
    FreshId(s);
    UpkeepKeepsIntegrity(s, w);
    hide Integrity, DefaultName;
  }

  lemma {:induction false} RowsStayThroughout(s: State, ws: seq<Write>)
    requires Integrity(s) && AllOnDefaults(ws)
    ensures Integrity(PerformAll(s, ws)) && RowsStay(s, PerformAll(s, ws))
  {
    hide Integrity, DefaultName, Perform;
    if ws != [] {
      var m := PerformAll(s, ws[..|ws| - 1]);
      RowsStayThroughout(s, ws[..|ws| - 1]);
      UpkeepKeepsIntegrity(m, ws[|ws| - 1]);
      RowsStayOnce(m, ws[|ws| - 1]);
    }
  }

  /** After a complete seed, the roles there were are wild exactly if they are lasting. */
  lemma LastingRolesAreWild(s: State, t: State, r: nat)
    requires Integrity(s) && RowsStay(s, t) && Settled(t, AllPermissions(), DefaultRoles()) && r in s.roles
    ensures RoleWild(t, r) <==> LastingRole(s, r)
  {
    DefaultsAreWellDefined();
    CatalogHasWildcard();
    hide AllPermissions, ManageNames, ViewNames;
    if DefaultName(s.roles[r].name) {
      var i :| 0 <= i < |DefaultRoles()| && DefaultRoles()[i].name == s.roles[r].name;
      assert RoleSettled(t, DefaultRoles()[i]);
      assert t.roles[r].perms == IdsOf(t, DefaultRoles()[i].perms);
      var j :| 0 <= j < |AllPermissions()| && AllPermissions()[j] == WILDCARD;
      assert PermissionExists(t, AllPermissions()[j]);
    } else {
      SuperIsDefault();
      SameWild(s, t, s.roles[r].perms);
    }
  }

  lemma SuperIsDefault()
    ensures DefaultName(SUPER_ADMIN)
  {
    assert DefaultRoles()[0].name == SUPER_ADMIN;
  }

  lemma SameWild(s: State, t: State, ids: set<nat>)
    requires RowsStay(s, t) && ids <= s.perms.Keys
    ensures Wild(t, ids) <==> Wild(s, ids)
  {
  }

  /** An account is an active super admin after a start exactly if it holds the wildcard
      directly or through the super-admin role or a wild role that is not a default one. */
  lemma SeedSuperIff(s: State, username: string, password: string, u: nat)
    requires Integrity(s) && s.users != map[]
    ensures ActiveSuper(Seeded(s, username, password), u) <==> SuperAfterStart(s, u)
  {
    var t := PerformAll(s, UpkeepWrites());
    SeededIs(s, username, password);
    SeedIsOnDefaults();
    RowsStayThroughout(s, UpkeepWrites());
    UpkeepSettles(s);
    if u in s.users {
      RowRefers(s, u);
      SameWild(s, t, s.users[u].perms);
      forall r | r in s.users[u].roles
        ensures RoleWild(t, r) <==> LastingRole(s, r)
      {
        LastingRolesAreWild(s, t, r);
      }
    }
    hide Integrity, Wild, RoleWild, LastingRole, PerformAll, Settled, AllPermissions, DefaultRoles;
  }

  lemma LastingStays(s: State, w: Write, u: nat)
    requires Integrity(s) && OnDefaults(w) && LastingSuper(s, u)
    ensures LastingSuper(Perform(s, w), u)
  {
    var t := Perform(s, w);
    RowsStayOnce(s, w);
    RowRefers(s, u);
    if Wild(s, s.users[u].perms) {
      SameWild(s, t, s.users[u].perms);
    } else {
      var r :| r in s.users[u].roles && RoleWild(s, r) && LastingRole(s, r);
      WildStaysUnlessNarrowed(s, w, r);
      hide Integrity, DefaultName, RoleWild, Perform, Upkeep;
      assert t.users[u].roles == s.users[u].roles;
      assert LastingRole(t, r);
    }
  }

  /** Only narrowing a default role other than super-admin takes the wildcard from a role. */
  lemma WildStaysUnlessNarrowed(s: State, w: Write, r: nat)
    requires Integrity(s) && OnDefaults(w) && RoleWild(s, r)
    requires w.NarrowRole? ==> s.roles[r].name == SUPER_ADMIN || !DefaultName(s.roles[r].name)
    ensures RoleWild(Perform(s, w), r)
  {
    FreshId(s);
    hide Integrity, DefaultName;
    var t := Perform(s, w);
    var p :| p in s.roles[r].perms && p in s.perms && s.perms[p] == WILDCARD;
    assert r in t.roles && p in t.roles[r].perms && p in t.perms && t.perms[p] == WILDCARD;
  }

  lemma {:induction false} LastingStaysThroughout(s: State, ws: seq<Write>, u: nat)
    requires Integrity(s) && AllOnDefaults(ws) && LastingSuper(s, u)
    ensures LastingSuper(PerformAll(s, ws), u)
  {
    hide Integrity, DefaultName, Perform, LastingSuper;
    if ws != [] {
      LastingStaysThroughout(s, ws[..|ws| - 1], u);
      RowsStayThroughout(s, ws[..|ws| - 1]);
      LastingStays(PerformAll(s, ws[..|ws| - 1]), ws[|ws| - 1], u);
    }
  }

  lemma {:induction false} SuperStaysUnlessNarrowed(s: State, ws: seq<Write>, u: nat)
    requires Integrity(s) && AllOnDefaults(ws) && ActiveSuper(s, u)
    requires forall i :: 0 <= i < |ws| ==> !ws[i].NarrowRole?
    ensures ActiveSuper(PerformAll(s, ws), u)
  {
    hide Integrity, DefaultName, Perform, Wild, RoleWild;
    if ws != [] {
      var m, w := PerformAll(s, ws[..|ws| - 1]), ws[|ws| - 1];
      SuperStaysUnlessNarrowed(s, ws[..|ws| - 1], u);
      RowsStayThroughout(s, ws[..|ws| - 1]);
      RowsStayOnce(m, w);
      RowRefers(m, u);
      SameWild(m, Perform(m, w), m.users[u].perms);
      if AnyRoleWild(m, m.users[u].roles) {
        var r :| r in m.users[u].roles && RoleWild(m, r);
        WildStaysUnlessNarrowed(m, w, r);
        assert AnyRoleWild(Perform(m, w), m.users[u].roles);
      }
    }
  }

  /** The writes before the super-admin role is widened, and those up to then. */
  function Upserts(): seq<Write> {
    PermissionWrites(AllPermissions()) + [UpsertRole(SUPER_ADMIN)]
  }

  function EarlyWrites(): seq<Write> {
    Upserts() + [WidenRole(DefaultRoles()[0])]
  }

  lemma EarlyWritesComeFirst()
    ensures EarlyWrites() <= UpkeepWrites() && AllOnDefaults(EarlyWrites()) && AllOnDefaults(Upserts())
    ensures forall i :: 0 <= i < |EarlyWrites()| ==> !EarlyWrites()[i].NarrowRole?
  {
    SeedIsOnDefaults();
    var defs := DefaultRoles();
    assert defs[..2][..1] == defs[..1] && defs[..1][..0] == [];
    assert RoleWrites(defs[..1]) == Refresh(defs[0]);
    assert RoleWrites(defs[..2]) == Refresh(defs[0]) + Refresh(defs[1]);
    assert RoleWrites(defs) == Refresh(defs[0]) + Refresh(defs[1]) + Refresh(defs[2]);
    assert RoleWrites(defs)[..2] == [UpsertRole(SUPER_ADMIN), WidenRole(defs[0])];
    hide AllPermissions, OnDefaults, RoleWrites;
    assert forall i :: 0 <= i < |EarlyWrites()| ==> EarlyWrites()[i] == UpkeepWrites()[i];
    assert forall i :: 0 <= i < |Upserts()| ==> Upserts()[i] == UpkeepWrites()[i];
  }

  /** Widening the super-admin role makes it wild, the others stay as they were. */
  lemma EarlyWritesWiden(s: State, r: nat)
    requires Integrity(s) && (exists p :: p in s.perms && s.perms[p] == WILDCARD) && LastingRole(s, r)
    ensures RoleWild(PerformAll(s, EarlyWrites()), r) && LastingRole(PerformAll(s, EarlyWrites()), r)
  {
    var m, t := PerformAll(s, Upserts()), PerformAll(s, EarlyWrites());
    var def := DefaultRoles()[0];
    EarlyWritesComeFirst();
    RowRefers(s, r);
    assert t == Perform(m, WidenRole(def)) by {
      assert EarlyWrites()[..|EarlyWrites()| - 1] == Upserts();
    }
    hide PerformAll, EarlyWrites, Upserts, Integrity, DefaultName, DefaultRoles, UpkeepWrites, OnDefaults;
    RowsStayThroughout(s, Upserts());
    RowsStayThroughout(s, EarlyWrites());
    if s.roles[r].name == SUPER_ADMIN {
      var p :| p in s.perms && s.perms[p] == WILDCARD;
      FirstDefault();
      assert p in IdsOf(m, def.perms) && p in t.roles[r].perms;
    } else {
      SameWild(s, t, s.roles[r].perms);
    }
  }

  lemma FirstDefault()
    ensures DefaultRoles()[0].name == SUPER_ADMIN && WILDCARD in DefaultRoles()[0].perms
  {
    DefaultsAreWellDefined();
  }

  /** From then on who is to stay a super admin is one for good. */
  lemma EarlyWritesSettleIt(s: State, u: nat)
    requires Integrity(s) && (exists p :: p in s.perms && s.perms[p] == WILDCARD) && SuperAfterStart(s, u)
    ensures LastingSuper(PerformAll(s, EarlyWrites()), u)
  {
    var t := PerformAll(s, EarlyWrites());
    EarlyWritesComeFirst();
    hide Integrity, PerformAll, EarlyWrites, LastingRole, RoleWild, UpkeepWrites;
    RowsStayThroughout(s, EarlyWrites());
    RowRefers(s, u);
    SameWild(s, t, s.users[u].perms);
    if !Wild(s, s.users[u].perms) {
      var r :| r in s.users[u].roles && LastingRole(s, r);
      EarlyWritesWiden(s, r);
    }
  }

  /** With an account in the table a start makes no account. */
  lemma StartWrites(s: State, username: string, password: string)
    requires s.users != map[]
    ensures SeedWrites(s, username, password) == UpkeepWrites()
  {
    hide AllPermissions, DefaultRoles;
  }

  /** A start, wherever it stops, leaves an active super admin exactly if there is one before
      it and one that its last write would leave. */
  lemma SeedKeepsSuperIff(s: State, username: string, password: string)
    requires Integrity(s) && s.users != map[]
    ensures var ws := SeedWrites(s, username, password);
            (forall done: nat :: done <= |ws| ==> HasSuper(PerformAll(s, ws[..done])))
            <==> HasSuper(s) && SuperRemains(s)
  {
    var ws := SeedWrites(s, username, password);
    assert PerformAll(s, []) == s && ws[..0] == [] && ws[..|ws|] == ws;
    hide Integrity, SuperAfterStart, SeedWrites, PerformAll;
    if forall done: nat :: done <= |ws| ==> HasSuper(PerformAll(s, ws[..done])) {
      assert HasSuper(PerformAll(s, ws[..0]));
      assert HasSuper(PerformAll(s, ws[..|ws|]));
      var u :| ActiveSuper(PerformAll(s, ws), u);
      SeedSuperIff(s, username, password, u);
    }
    if HasSuper(s) && SuperRemains(s) {
      forall done: nat | done <= |ws|
        ensures HasSuper(PerformAll(s, ws[..done]))
      {
        SeedKeepsSuper(s, username, password, done);
      }
    }
  }

  /** In particular a start that fails part-way leaves one then. */
  lemma SeedKeepsSuper(s: State, username: string, password: string, done: nat)
    requires Integrity(s) && HasSuper(s) && SuperRemains(s)
    requires done <= |SeedWrites(s, username, password)|
    ensures var t := PerformAll(s, SeedWrites(s, username, password)[..done]);
            Integrity(t) && HasSuper(t) && (OnlySeededWild(s) ==> OnlySeededWild(t))
  {
    StartWrites(s, username, password);
    SeedIsUpkeep();
    SeedIsOnDefaults();
    UpkeepKeeps(s, UpkeepWrites()[..done]);
    EarlyWritesComeFirst();
    hide *;
    FirstWrites(EarlyWrites(), UpkeepWrites(), done);
    if done <= |EarlyWrites()| {
      SuperBeforeNarrowing(s, EarlyWrites()[..done]);
    } else {
      SuperAfterWidening(s, UpkeepWrites()[|EarlyWrites()|..done]);
    }
  }

  lemma FirstWrites(early: seq<Write>, ws: seq<Write>, done: nat)
    requires early <= ws && done <= |ws| && AllOnDefaults(ws)
    ensures done <= |early| ==> ws[..done] == early[..done] && AllOnDefaults(early[..done])
    ensures done > |early| ==> ws[..done] == early + ws[|early|..done] && AllOnDefaults(ws[|early|..done])
  {
    hide OnDefaults;
  }

  lemma SuperBeforeNarrowing(s: State, ws: seq<Write>)
    requires Integrity(s) && HasSuper(s) && AllOnDefaults(ws) && forall i :: 0 <= i < |ws| ==> !ws[i].NarrowRole?
    ensures HasSuper(PerformAll(s, ws))
  {
    hide Integrity, ActiveSuper, PerformAll, OnDefaults;
    var u :| u in s.users && ActiveSuper(s, u);
    SuperStaysUnlessNarrowed(s, ws, u);
    SuperIsSomebody(PerformAll(s, ws), u);
  }

  lemma SuperAfterWidening(s: State, ws: seq<Write>)
    requires Integrity(s) && HasSuper(s) && SuperRemains(s) && AllOnDefaults(ws)
    ensures HasSuper(PerformAll(s, EarlyWrites() + ws))
  {
    hide Integrity, PerformAll, OnDefaults, SuperAfterStart, LastingSuper, EarlyWrites, UpkeepWrites;
    var u :| SuperAfterStart(s, u);
    var m := PerformAll(s, EarlyWrites());
    WildcardExists(s);
    EarlyWritesSettleIt(s, u);
    EarlyWritesComeFirst();
    RowsStayThroughout(s, EarlyWrites());
    PerformConcat(s, EarlyWrites(), ws);
    LastingStaysThroughout(m, ws, u);
    LastingIsSuper(PerformAll(m, ws), u);
    SuperIsSomebody(PerformAll(m, ws), u);
  }

  lemma SuperIsSomebody(s: State, u: nat)
    requires ActiveSuper(s, u)
    ensures HasSuper(s)
  {
  }

  lemma WildcardExists(s: State)
    requires HasSuper(s)
    ensures exists p :: p in s.perms && s.perms[p] == WILDCARD
  {
  }

  lemma LastingIsSuper(s: State, u: nat)
    requires LastingSuper(s, u)
    ensures ActiveSuper(s, u)
  {
  }

  /** While no default role but super-admin is wild, every active super admin stays one. */
  predicate TameDefaults(s: State) {
    forall r :: r in s.roles && RoleWild(s, r) && DefaultName(s.roles[r].name) ==> s.roles[r].name == SUPER_ADMIN
  }

  lemma TameDefaultsLast(s: State, u: nat)
    requires TameDefaults(s) && ActiveSuper(s, u)
    ensures SuperAfterStart(s, u) && LastingSuper(s, u)
  {
    hide DefaultName;
  }

  /** Account by account: a start takes the wildcard from no active super admin then. */
  lemma SeedKeepsEachSuper(s: State, username: string, password: string, done: nat, u: nat)
    requires Integrity(s) && TameDefaults(s) && ActiveSuper(s, u) && done <= |SeedWrites(s, username, password)|
    ensures ActiveSuper(PerformAll(s, SeedWrites(s, username, password)[..done]), u)
  {
    TameDefaultsLast(s, u);
    StartWrites(s, username, password);
    SeedIsOnDefaults();
    hide Integrity, OnDefaults, SuperAfterStart, LastingSuper, TameDefaults, PerformAll, SeedWrites, UpkeepWrites;
    LastingStaysThroughout(s, UpkeepWrites()[..done], u);
    LastingIsSuper(PerformAll(s, UpkeepWrites()[..done]), u);
  }

  /** The only super admin is one through the operator role, which may be given the wildcard. */
  function ThroughOperator(): State {
    State(map[3 := User("owner", true, {2}, {})],
          map[2 := Role("operator", {1}), 4 := Role(SUPER_ADMIN, {1})], map[1 := "*"], 5)
  }

  lemma WildOperatorIsStripped(username: string, password: string)
    ensures Integrity(ThroughOperator()) && SuperRoleReady(ThroughOperator()) && HasSuper(ThroughOperator())
    ensures !HasSuper(Seeded(ThroughOperator(), username, password))
  {
    var s := ThroughOperator();
    assert "operator"[0] != SUPER_ADMIN[0];
    assert s.perms[1] == WILDCARD && RoleWild(s, 2) && RoleWild(s, 4) && 3 in s.users && ActiveSuper(s, 3);
    assert !SuperAfterStart(s, 3) by {
      assert DefaultRoles()[1].name == "operator";
    }
    forall u
      ensures !ActiveSuper(Seeded(s, username, password), u)
    {
      SeedSuperIff(s, username, password, u);
    }
  }

  /** A first seed that fails between its last two writes leaves an account without a role, and
      no later complete seed gives it one. */
  lemma InterruptedSeedStaysLocked(s: State, username: string, password: string, name: string, secret: string)
    requires Integrity(s) && s.users == map[] && Trim(password) != ""
    ensures var ws := SeedWrites(s, username, password);
            var t := PerformAll(s, ws[..|ws| - 1]);
            t.users != map[] && !HasSuper(t) && !HasSuper(Seeded(t, name, secret))
  {
    hide Integrity, HasSuper, AllPermissions, DefaultRoles, PerformAll, SeedWrites, Settled;
    var m := PerformAll(s, UpkeepWrites());
    var t := Perform(m, CreateAdmin(AdminName(username)));
    UpkeepSettles(s);
    AllButTheLast(s, username, password);
    PerformKeepsIntegrityOfAdmin(m, AdminName(username));
    SeededIs(t, name, secret);
    UpkeepSettles(t);
    assert m.nextId in t.users && t.users[m.nextId] == User(AdminName(username), true, {}, {});
    NobodyWithoutRoles(t);
    NobodyWithoutRoles(Seeded(t, name, secret));
  }

  /** A first start that stopped after some of its writes, and any complete start after it:
      only stopping between the last two of its writes cannot be made good. */
  lemma InterruptedSeedIff(s: State, username: string, password: string, done: nat, name: string, secret: string)
    requires Integrity(s) && s.users == map[] && done <= |SeedWrites(s, username, password)|
    ensures var ws := SeedWrites(s, username, password);
            HasSuper(Seeded(PerformAll(s, ws[..done]), name, secret)) <==>
              if Trim(password) != "" && done >= |ws| - 1 then done == |ws| else Trim(secret) != ""
  {
    var ws := SeedWrites(s, username, password);
    if Trim(password) != "" && done == |ws| - 1 {
      InterruptedSeedStaysLocked(s, username, password, name, secret);
    } else if Trim(password) != "" && done == |ws| {
      assert ws[..done] == ws;
      CompletedSeedStays(s, username, password, name, secret);
    } else {
      SeedIsUpkeep();
      hide Integrity, HasSuper, AllPermissions, DefaultRoles, PerformAll, UpkeepWrites, Upkeep;
      assert ws[..done] == UpkeepWrites()[..done];
      UpkeepKeeps(s, ws[..done]);
      SeedCreatesAdmin(PerformAll(s, ws[..done]), name, secret);
    }
  }

  lemma CompletedSeedStays(s: State, username: string, password: string, name: string, secret: string)
    requires Integrity(s) && s.users == map[] && Trim(password) != ""
    ensures HasSuper(Seeded(Seeded(s, username, password), name, secret))
  {
    var t := Seeded(s, username, password);
    SeedCreatesAdmin(s, username, password);
    SeedIsIdempotent(s, username, password);
    SeededIs(t, username, password);
    SeededIs(t, name, secret);
    hide Integrity, PerformAll, UpkeepWrites, Seeded;
  }

  lemma AllButTheLast(s: State, username: string, password: string)
    requires s.users == map[] && Trim(password) != ""
    ensures var ws := SeedWrites(s, username, password);
            ws != [] && PerformAll(s, ws[..|ws| - 1])
              == Perform(PerformAll(s, UpkeepWrites()), CreateAdmin(AdminName(username)))
  {
    hide AllPermissions, DefaultRoles, Perform;
    var ws := SeedWrites(s, username, password);
    assert ws[..|ws| - 1] == UpkeepWrites() + [CreateAdmin(AdminName(username))];
    PerformConcat(s, UpkeepWrites(), [CreateAdmin(AdminName(username))]);
    AdminAdded(PerformAll(s, UpkeepWrites()), AdminName(username));
  }

  lemma NobodyWithoutRoles(s: State)
    requires forall u :: u in s.users ==> s.users[u].roles == {} && s.users[u].perms == {}
    ensures !HasSuper(s)
  {
  }

  lemma PerformKeepsIntegrityOfAdmin(s: State, username: string)
    requires Integrity(s) && s.users == map[]
    ensures Integrity(Perform(s, CreateAdmin(username)))
  {
    AddUserKeeps(s, User(username, true, {}, {}));
  }

  // --- A start gives nobody the wildcard ---

  /** After any complete seed the super-admin role is there and wild. */
  lemma SeededIsReady(s: State, username: string, password: string)
    requires Integrity(s)
    ensures SuperRoleReady(Seeded(s, username, password))
  {
    var m := PerformAll(s, UpkeepWrites());
    UpkeepSettles(s);
    SeededIs(s, username, password);
    CatalogHasWildcard();
    SuperRoleIsWild(m);
    AdminKeepsReady(m, AdminName(username));
    hide AllPermissions, PerformAll, Integrity, Settled, SuperRoleReady, WithAdmin;
  }

  lemma AdminKeepsReady(s: State, username: string)
    requires SuperRoleReady(s)
    ensures SuperRoleReady(WithAdmin(s, username))
  {
    var r :| r in s.roles && s.roles[r].name == SUPER_ADMIN && RoleWild(s, r);
    assert RoleWild(WithAdmin(s, username), r);
  }

  /** No request touches the super-admin role's permissions or name. */
  lemma StepKeepsReady(s: State, actor: nat, req: Request, t: State, reply: Reply)
    requires Integrity(s) && SuperRoleReady(s) && Step(s, actor, req, t, reply)
    ensures SuperRoleReady(t)
  {
    FreshId(s);
    var r :| r in s.roles && s.roles[r].name == SUPER_ADMIN && RoleWild(s, r);
    StepShape(s, actor, req, t, reply);
    hide Integrity, Step, RolesReply, PermissionsReply, Guarded, UsernameTaken, RoleNameTaken;
    assert t.perms == s.perms && r in t.roles && t.roles[r] == s.roles[r];
    assert RoleWild(t, r);
  }

  /** Nobody is the last account to go: whoever asks stays. */
  lemma StepKeepsSomebody(s: State, actor: nat, req: Request, t: State, reply: Reply)
    requires Step(s, actor, req, t, reply) && s.users != map[]
    ensures t.users != map[]
  {
    if t != s {
      assert actor in s.users && actor in s.users.Keys;
      assert actor in t.users || s.nextId in t.users;
    }
  }

  /** With the super-admin role wild already, upkeep makes no further role wild. */
  lemma UpkeepTurnsNoneWild(s: State, w: Write, r: nat)
    requires Integrity(s) && SuperRoleReady(s) && Upkeep(w) && RoleWild(Perform(s, w), r)
    ensures RoleWild(s, r)
  {
    FreshId(s);
    var q :| q in s.roles && s.roles[q].name == SUPER_ADMIN && RoleWild(s, q);
    SuperRoleIsUnique(s, q);
    hide Integrity;
    var t := Perform(s, w);
    var p :| p in t.roles[r].perms && p in t.perms && t.perms[p] == WILDCARD;
    assert r == q || (r in s.roles && p in s.roles[r].perms);
    PermissionsWereThere(s, w, p);
  }

  lemma SuperRoleIsUnique(s: State, q: nat)
    requires Integrity(s) && q in s.roles && s.roles[q].name == SUPER_ADMIN
    ensures forall r :: r in s.roles && s.roles[r].name == SUPER_ADMIN ==> r == q
  {
  }

  /** A wild permission was there before, as the wildcard is not created twice. */
  lemma PermissionsWereThere(s: State, w: Write, p: nat)
    requires SuperRoleReady(s) && p in Perform(s, w).perms && Perform(s, w).perms[p] == WILDCARD
    ensures p in s.perms && s.perms[p] == WILDCARD
  {
  }

  lemma UpkeepKeepsReady(s: State, w: Write)
    requires Integrity(s) && SuperRoleReady(s) && Upkeep(w)
    ensures SuperRoleReady(Perform(s, w))
  {
    FreshId(s);
    hide Integrity;
    var r :| r in s.roles && s.roles[r].name == SUPER_ADMIN && RoleWild(s, r);
    var p :| p in s.roles[r].perms && p in s.perms && s.perms[p] == WILDCARD;
    var t := Perform(s, w);
    assert r in t.roles && t.roles[r].name == SUPER_ADMIN && p in t.roles[r].perms && p in t.perms
           && t.perms[p] == WILDCARD;
    assert RoleWild(t, r);
  }

  lemma UpkeepNoNewHolders(s: State, w: Write)
    requires Integrity(s) && SuperRoleReady(s) && Upkeep(w)
    ensures Holders(Perform(s, w)) <= Holders(s)
  {
    UpkeepKeepsIntegrity(s, w);
    var t := Perform(s, w);
    forall u | u in Holders(t)
      ensures u in Holders(s)
    {
      assert t.users[u] == s.users[u];
      if Wild(t, t.users[u].perms) {
        var p :| p in t.users[u].perms && p in t.perms && t.perms[p] == WILDCARD;
        PermissionsWereThere(s, w, p);
      } else {
        var r :| r in t.users[u].roles && RoleWild(t, r);
        UpkeepTurnsNoneWild(s, w, r);
      }
    }
  }

  lemma {:induction false} UpkeepAllNoNewHolders(s: State, ws: seq<Write>)
    requires Integrity(s) && SuperRoleReady(s) && AllUpkeep(ws)
    ensures var t := PerformAll(s, ws);
            Integrity(t) && SuperRoleReady(t) && Holders(t) <= Holders(s) && t.users == s.users
  {
    hide Integrity, SuperRoleReady, Upkeep, Perform, Holders;
    if ws != [] {
      var n := |ws| - 1;
      var m := PerformAll(s, ws[..n]);
      UpkeepAllNoNewHolders(s, ws[..n]);
      UpkeepKeepsIntegrity(m, ws[n]);
      UpkeepKeepsReady(m, ws[n]);
      UpkeepNoNewHolders(m, ws[n]);
    }
  }
}
