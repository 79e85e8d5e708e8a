/** Users, roles and permissions: what each administration request decides and writes, and
    what every sequence of requests keeps. The wildcard permission makes a super admin. */
module Rbac {
  import opened Text

  datatype User = User(username: string, active: bool, roles: set<nat>, perms: set<nat>)

  datatype Role = Role(name: string, perms: set<nat>)

  /** The tables with their join rows; permissions are known by id and name. */
  datatype State = State(users: map<nat, User>, roles: map<nat, Role>, perms: map<nat, string>, nextId: nat)

  const WILDCARD := "*"
  const SUPER_ADMIN := "super-admin"

  /** Join rows refer to existing rows. */
  predicate References(s: State) {
    && (forall u :: u in s.users ==> s.users[u].roles <= s.roles.Keys && s.users[u].perms <= s.perms.Keys)
    && (forall r :: r in s.roles ==> s.roles[r].perms <= s.perms.Keys)
  }

  /** The unique indexes, ids below the sequence, and the references. */
  predicate Integrity(s: State) {
    && References(s)
    && (forall u :: u in s.users ==> 0 < u < s.nextId)
    && (forall r :: r in s.roles ==> 0 < r < s.nextId)
    && (forall p :: p in s.perms ==> 0 < p < s.nextId)
    && (forall u, v :: u in s.users && v in s.users && s.users[u].username == s.users[v].username ==> u == v)
    && (forall r, q :: r in s.roles && q in s.roles && s.roles[r].name == s.roles[q].name ==> r == q)
    && (forall p, q :: p in s.perms && q in s.perms && s.perms[p] == s.perms[q] ==> p == q)
    && s.nextId > 0
  }

  // --- Who is a super admin ---

  predicate Wild(s: State, ids: set<nat>) {
    exists p :: p in ids && p in s.perms && s.perms[p] == WILDCARD
  }

  predicate RoleWild(s: State, r: nat) {
    r in s.roles && Wild(s, s.roles[r].perms)
  }

  predicate AnyRoleWild(s: State, ids: set<nat>) {
    exists r :: r in ids && RoleWild(s, r)
  }

  /** IsSuperAdmin of an account with these roles and direct permissions. */
  predicate Grants(s: State, roles: set<nat>, perms: set<nat>) {
    Wild(s, perms) || AnyRoleWild(s, roles)
  }

  predicate Super(s: State, u: nat) {
    u in s.users && Grants(s, s.users[u].roles, s.users[u].perms)
  }

  predicate ActiveSuper(s: State, u: nat) {
    Super(s, u) && s.users[u].active
  }

  predicate HasSuper(s: State) {
    exists u :: u in s.users && ActiveSuper(s, u)
  }

  predicate AnotherSuper(s: State, u: nat) {
    exists v :: v in s.users && v != u && ActiveSuper(s, v)
  }

  /** The super-admin role is there and wild, as every complete start leaves it. */
  predicate SuperRoleReady(s: State) {
    exists r :: r in s.roles && s.roles[r].name == SUPER_ADMIN && RoleWild(s, r)
  }

  function Holders(s: State): set<nat> {
    set u | u in s.users && Super(s, u)
  }

  /** The names EffectivePermissions collects. */
  function Effective(s: State, roles: set<nat>, perms: set<nat>): set<string> {
    (set p | p in perms && p in s.perms :: s.perms[p])
    + (set r, p | r in roles && r in s.roles && p in s.roles[r].perms && p in s.perms :: s.perms[p])
  }

  lemma WildcardIsEffective(s: State, roles: set<nat>, perms: set<nat>)
    ensures WILDCARD in Effective(s, roles, perms) <==> Grants(s, roles, perms)
  {
    if AnyRoleWild(s, roles) {
      var r :| r in roles && RoleWild(s, r);
    }
  }

  // --- Requests ---

  datatype Request =
    | CreateUser(username: string, activate: Option<bool>, roleIds: seq<nat>, permIds: seq<nat>)
    | UpdateUser(id: nat, activate: Option<bool>)
    | DeleteUser(id: nat)
    | SetUserRoles(id: nat, ids: seq<nat>)
    | SetUserPermissions(id: nat, ids: seq<nat>)
    | CreateRole(name: string, ids: seq<nat>)
    | RenameRole(id: nat, name: string)
    | DeleteRole(id: nat)
    | SetRolePermissions(id: nat, ids: seq<nat>)

  datatype Reply = Success | NotFound | Forbidden | Conflict | Unprocessable | ServerError

  predicate OnUser(req: Request) {
    req.CreateUser? || req.UpdateUser? || req.DeleteUser? || req.SetUserRoles? || req.SetUserPermissions?
  }

  /** The permission the route asks for. */
  function Required(req: Request): string {
    match req
    case CreateUser(_, _, _, _) => "users.create"
    case UpdateUser(_, _) => "users.update"
    case DeleteUser(_) => "users.delete"
    case SetUserRoles(_, _) => "users.update"
    case SetUserPermissions(_, _) => "users.update"
    case _ => "roles.manage"
  }

  /** Auth and RequirePermission let the request through. */
  predicate Admitted(s: State, actor: nat, req: Request) {
    && actor in s.users && s.users[actor].active
    && var names := Effective(s, s.users[actor].roles, s.users[actor].perms);
       WILDCARD in names || Required(req) in names
  }

  /** The ids a request means: zeros and repetitions do not count. */
  function Wanted(ids: seq<nat>): set<nat> {
    set i | i in ids && i != 0
  }

  /** resolveRoles: every wanted id exists, and a role with the wildcard needs a super admin. */
  function RolesReply(s: State, actor: nat, ids: seq<nat>): Reply {
    if !(Wanted(ids) <= s.roles.Keys) then Unprocessable
    else if !Super(s, actor) && AnyRoleWild(s, Wanted(ids)) then Forbidden
    else Success
  }

  function PermissionsReply(s: State, actor: nat, ids: seq<nat>): Reply {
    if !(Wanted(ids) <= s.perms.Keys) then Unprocessable
    else if !Super(s, actor) && Wild(s, Wanted(ids)) then Forbidden
    else Success
  }

  /** guardLastSuperAdmin. */
  predicate Guarded(s: State, u: nat, stillSuper: bool) {
    Super(s, u) && !stillSuper ==> AnotherSuper(s, u)
  }

  predicate UsernameTaken(s: State, username: string) {
    exists u :: u in s.users && s.users[u].username == username
  }

  predicate RoleNameTaken(s: State, name: string, except: nat) {
    exists r :: r in s.roles && r != except && s.roles[r].name == name
  }

  predicate Protected(s: State, r: nat) {
    r in s.roles && s.roles[r].name == SUPER_ADMIN
  }

  /** What the handler answers when every store call works. */
  function Decide(s: State, actor: nat, req: Request): Reply {
    match req
    case CreateUser(username, _, roleIds, permIds) =>
      if RolesReply(s, actor, roleIds) != Success then RolesReply(s, actor, roleIds)
      else if PermissionsReply(s, actor, permIds) != Success then PermissionsReply(s, actor, permIds)
      else if UsernameTaken(s, Trim(username)) then Conflict
      else Success
    case UpdateUser(id, activate) =>
      if id !in s.users then NotFound
      else if activate == Some(false) && id == actor then Conflict
      else if activate == Some(false) && !Guarded(s, id, false) then Conflict
      else Success
    case DeleteUser(id) =>
      if id !in s.users then NotFound
      else if id == actor || !Guarded(s, id, false) then Conflict
      else Success
    case SetUserRoles(id, ids) =>
      if id !in s.users then NotFound
      else if RolesReply(s, actor, ids) != Success then RolesReply(s, actor, ids)
      else if !Guarded(s, id, Grants(s, Wanted(ids), s.users[id].perms)) then Conflict
      else Success
    case SetUserPermissions(id, ids) =>
      if id !in s.users then NotFound
      else if PermissionsReply(s, actor, ids) != Success then PermissionsReply(s, actor, ids)
      else if !Guarded(s, id, Grants(s, s.users[id].roles, Wanted(ids))) then Conflict
      else Success
    case CreateRole(name, ids) =>
      if PermissionsReply(s, actor, ids) != Success then PermissionsReply(s, actor, ids)
      else if RoleNameTaken(s, Trim(name), 0) then Conflict
      else Success
    case RenameRole(id, name) =>
      if id !in s.roles then NotFound
      else if Protected(s, id) && Trim(name) != SUPER_ADMIN then Conflict
      else if RoleNameTaken(s, Trim(name), id) then Conflict
      else Success
    case DeleteRole(id) =>
      if id !in s.roles then NotFound else if Protected(s, id) then Conflict else Success
    case SetRolePermissions(id, ids) =>
      if id !in s.roles then NotFound
      else if Protected(s, id) then Conflict
      else PermissionsReply(s, actor, ids)
  }

  // --- Writes ---

  function PutUser(s: State, id: nat, u: User): State {
    s.(users := s.users[id := u])
  }

  function PutRole(s: State, id: nat, r: Role): State {
    s.(roles := s.roles[id := r])
  }

  function AddUser(s: State, u: User): State {
    s.(users := s.users[s.nextId := u], nextId := s.nextId + 1)
  }

  function AddRole(s: State, r: Role): State {
    s.(roles := s.roles[s.nextId := r], nextId := s.nextId + 1)
  }

  /** Deleting a role takes its join rows to users with it. */
  function DropRole(s: State, id: nat): State {
    s.(roles := s.roles - {id}, users := map u | u in s.users :: s.users[u].(roles := s.users[u].roles - {id}))
  }

  /** The state after an accepted request. GORM stores a new account's `active: false` as
      the column default true. */
  function Effect(s: State, req: Request): State {
    match req
    case CreateUser(username, _, roleIds, permIds) =>
      AddUser(s, User(Trim(username), true, Wanted(roleIds), Wanted(permIds)))
    case UpdateUser(id, activate) =>
      if id in s.users && activate.Some? then PutUser(s, id, s.users[id].(active := activate.value)) else s
    case DeleteUser(id) => s.(users := s.users - {id})
    case SetUserRoles(id, ids) => if id in s.users then PutUser(s, id, s.users[id].(roles := Wanted(ids))) else s
    case SetUserPermissions(id, ids) => if id in s.users then PutUser(s, id, s.users[id].(perms := Wanted(ids))) else s
    case CreateRole(name, ids) => AddRole(s, Role(Trim(name), Wanted(ids)))
    case RenameRole(id, name) => if id in s.roles then PutRole(s, id, s.roles[id].(name := Trim(name))) else s
    case DeleteRole(id) => DropRole(s, id)
    case SetRolePermissions(id, ids) => if id in s.roles then PutRole(s, id, s.roles[id].(perms := Wanted(ids))) else s
  }

  /** Replacing an association first adds the new rows and then deletes the others; this is
      the state in between. */
  function Halfway(s: State, req: Request): State {
    match req
    case SetUserRoles(id, ids) =>
      if id in s.users then PutUser(s, id, s.users[id].(roles := s.users[id].roles + Wanted(ids))) else s
    case SetUserPermissions(id, ids) =>
      if id in s.users then PutUser(s, id, s.users[id].(perms := s.users[id].perms + Wanted(ids))) else s
    case SetRolePermissions(id, ids) =>
      if id in s.roles then PutRole(s, id, s.roles[id].(perms := s.roles[id].perms + Wanted(ids))) else s
    case _ => s
  }

  /** One request: refused without effect, carried out, or stopped by a failed store call. */
  predicate Step(s: State, actor: nat, req: Request, t: State, reply: Reply) {
    if !Admitted(s, actor, req) then reply.Forbidden? && t == s
    else if Decide(s, actor, req) != Success then reply == Decide(s, actor, req) && t == s
    else if reply.Success? then t == Effect(s, req)
    else reply.ServerError? && (t == s || t == Halfway(s, req))
  }

  lemma FreshId(s: State)
    requires Integrity(s)
    ensures s.nextId !in s.users && s.nextId !in s.roles && s.nextId !in s.perms
  {
  }

  /** What a new account asks for is stored, except an inactive start: it can act at once, and
      with the wildcard it counts as an active super admin. */
  lemma NewAccountIsActive(s: State, actor: nat, username: string, activate: Option<bool>,
                           roleIds: seq<nat>, permIds: seq<nat>, t: State)
    requires Integrity(s) && Step(s, actor, CreateUser(username, activate, roleIds, permIds), t, Success)
    ensures s.nextId !in s.users && t.users.Keys == s.users.Keys + {s.nextId}
    ensures t.users[s.nextId].active == (activate.Some? ==> activate.value) <==> activate != Some(false)
    ensures ActiveSuper(t, s.nextId) <==> Grants(s, Wanted(roleIds), Wanted(permIds))
  {
    FreshId(s);
    hide Integrity, Admitted, Decide;
    SameGrants(s, t, Wanted(roleIds), Wanted(permIds));
  }

  // --- One request and the last super admin ---

  lemma SuperSurvives(s: State, t: State, v: nat)
    requires ActiveSuper(s, v) && v in t.users && t.users[v].active
    requires t.roles == s.roles && t.perms == s.perms
    requires t.users[v].roles >= s.users[v].roles && t.users[v].perms >= s.users[v].perms
    ensures HasSuper(t)
  {
    if Wild(s, s.users[v].perms) {
      var p :| p in s.users[v].perms && p in s.perms && s.perms[p] == WILDCARD;
      assert p in t.users[v].perms;
    } else {
      var r :| r in s.users[v].roles && RoleWild(s, r);
      assert r in t.users[v].roles && RoleWild(t, r);
    }
    assert ActiveSuper(t, v);
  }

  predicate Removes(req: Request, id: nat) {
    && (req.UpdateUser? || req.DeleteUser? || req.SetUserRoles? || req.SetUserPermissions?) && req.id == id
    && (req.UpdateUser? ==> req.activate == Some(false))
  }

  /** Whether the guarded account stays a super admin after the request. */
  predicate StillSuper(s: State, req: Request) {
    match req
    case SetUserRoles(id, ids) => id in s.users && Grants(s, Wanted(ids), s.users[id].perms)
    case SetUserPermissions(id, ids) => id in s.users && Grants(s, s.users[id].roles, Wanted(ids))
    case _ => false
  }

  lemma SameGrants(s: State, t: State, roles: set<nat>, perms: set<nat>)
    requires t.roles == s.roles && t.perms == s.perms
    ensures Grants(t, roles, perms) <==> Grants(s, roles, perms)
  {
    assert forall r :: RoleWild(t, r) <==> RoleWild(s, r);
  }

  /** The guard is exact: while there is an active super admin, it refuses precisely the
      requests on an account after which there would be none. */
  lemma GuardIsExact(s: State, req: Request, id: nat)
    requires Integrity(s) && HasSuper(s) && id in s.users && Removes(req, id)
    ensures HasSuper(Effect(s, req)) <==> Guarded(s, id, StillSuper(s, req))
  {
    hide Integrity, Wild, AnyRoleWild;
    var t := Effect(s, req);
    forall v
      ensures v != id ==> (ActiveSuper(t, v) <==> ActiveSuper(s, v))
    {
      if v in s.users {
        SameGrants(s, t, s.users[v].roles, s.users[v].perms);
      }
    }
    if id in t.users {
      SameGrants(s, t, t.users[id].roles, t.users[id].perms);
      assert Super(t, id) <==> Grants(s, t.users[id].roles, t.users[id].perms);
    }
    assert ActiveSuper(t, id) <==> StillSuper(s, req) && s.users[id].active;
    if AnotherSuper(s, id) {
      var v :| v != id && ActiveSuper(s, v);
      assert ActiveSuper(t, v);
    }
    if HasSuper(t) && Super(s, id) && !StillSuper(s, req) {
      var v :| ActiveSuper(t, v);
      assert v != id;
    }
    if Guarded(s, id, StillSuper(s, req)) && !AnotherSuper(s, id) {
      var v :| ActiveSuper(s, v);
      assert v == id;
      assert ActiveSuper(t, id);
    }
  }

  /** A request on an account never takes away the last active super admin. */
  lemma UserRequestKeepsSuper(s: State, actor: nat, req: Request, t: State, reply: Reply)
    requires Integrity(s) && HasSuper(s) && OnUser(req) && Step(s, actor, req, t, reply)
    ensures HasSuper(t)
  {
    FreshId(s);
    hide Integrity, Admitted, UsernameTaken, RolesReply, PermissionsReply, Wild, RoleWild, AnyRoleWild;
    if t != s {
      if t == Effect(s, req) && !req.CreateUser? && Removes(req, req.id) {
        GuardIsExact(s, req, req.id);
      } else {
        var v :| ActiveSuper(s, v);
        SuperSurvives(s, t, v);
      }
    }
  }

  /** No role but the seeded one carries the wildcard. */
  predicate OnlySeededWild(s: State) {
    forall r :: r in s.roles && RoleWild(s, r) ==> s.roles[r].name == SUPER_ADMIN
  }

  /** The request deletes or strips no role with the wildcard. */
  predicate SparesWildRoles(s: State, req: Request) {
    match req
    case DeleteRole(id) => Protected(s, id) || !RoleWild(s, id)
    case SetRolePermissions(id, ids) => Protected(s, id) || !RoleWild(s, id) || Wild(s, Wanted(ids))
    case _ => true
  }

  /** While only the seeded role is wild, there is nothing to check. */
  lemma OnlySeededWildIsSpared(s: State, req: Request)
    requires OnlySeededWild(s)
    ensures SparesWildRoles(s, req)
  {
  }

  /** The request gives no role the wildcard. */
  predicate KeepsRolesTame(s: State, req: Request) {
    req.CreateRole? || req.SetRolePermissions? ==> !Wild(s, Wanted(req.ids))
  }

  /** Then still no role but the seeded one carries it. */
  lemma TameRequestKeepsSeededWild(s: State, actor: nat, req: Request, t: State, reply: Reply)
    requires Integrity(s) && OnlySeededWild(s) && KeepsRolesTame(s, req) && Step(s, actor, req, t, reply)
    ensures OnlySeededWild(t)
  {
    FreshId(s);
    StepShape(s, actor, req, t, reply);
    if t != s {
      hide Integrity, Step, RoleNameTaken, UsernameTaken, RolesReply, PermissionsReply, Guarded;
      assert t.perms == s.perms;
      forall r | r in t.roles && RoleWild(t, r)
        ensures t.roles[r].name == SUPER_ADMIN
      {
        var p :| p in t.roles[r].perms && p in t.perms && t.perms[p] == WILDCARD;
        assert r in s.roles && p in s.roles[r].perms && RoleWild(s, r);
      }
    }
  }

  // --- The unguarded role requests ---

  /** u is an active super admin without the help of role id. */
  predicate SuperWithout(s: State, u: nat, id: nat) {
    u in s.users && s.users[u].active && Grants(s, s.users[u].roles - {id}, s.users[u].perms)
  }

  /** Deleting a role is safe exactly when somebody does not need it: the check the handler
      does not make. */
  lemma DeleteRoleIff(s: State, id: nat)
    requires Integrity(s) && id in s.roles
    ensures HasSuper(Effect(s, DeleteRole(id))) <==> exists u :: u in s.users && SuperWithout(s, u, id)
  {
    var t := DropRole(s, id);
    forall u
      ensures ActiveSuper(t, u) <==> SuperWithout(s, u, id)
    {
      if u in s.users {
        var roles, perms := s.users[u].roles - {id}, s.users[u].perms;
        assert t.users[u].roles == roles && t.users[u].perms == perms;
        assert forall r :: r in roles ==> (RoleWild(t, r) <==> RoleWild(s, r));
        assert Grants(t, roles, perms) <==> Grants(s, roles, perms);
      }
    }
  }

  /** Likewise for replacing a role's permissions. */
  lemma SetRolePermissionsIff(s: State, id: nat, ids: seq<nat>)
    requires Integrity(s) && id in s.roles
    ensures HasSuper(Effect(s, SetRolePermissions(id, ids))) <==>
      exists u :: u in s.users
        && (SuperWithout(s, u, id) || (s.users[u].active && id in s.users[u].roles && Wild(s, Wanted(ids))))
  {
    var t := Effect(s, SetRolePermissions(id, ids));
    forall u
      ensures ActiveSuper(t, u) <==>
        u in s.users
        && (SuperWithout(s, u, id) || (s.users[u].active && id in s.users[u].roles && Wild(s, Wanted(ids))))
    {
      if u in s.users {
        var roles, perms := s.users[u].roles, s.users[u].perms;
        assert forall r :: r != id ==> (RoleWild(t, r) <==> RoleWild(s, r));
        assert RoleWild(t, id) <==> Wild(s, Wanted(ids));
        assert AnyRoleWild(t, roles) <==> AnyRoleWild(s, roles - {id}) || (id in roles && Wild(s, Wanted(ids)));
      }
    }
  }

  /** The check the role handlers do not make: somebody stays an active super admin. */
  predicate KeepsSomebody(s: State, req: Request) {
    match req
    case DeleteRole(id) => id !in s.roles || Protected(s, id) || exists u :: u in s.users && SuperWithout(s, u, id)
    case SetRolePermissions(id, ids) =>
      id !in s.roles || Protected(s, id)
      || exists u ::
           u in s.users
           && (SuperWithout(s, u, id) || (s.users[u].active && id in s.users[u].roles && Wild(s, Wanted(ids))))
    case _ => true
  }

  /** Sparing the wild roles is enough. */
  lemma SparedKeepsSomebody(s: State, req: Request)
    requires HasSuper(s) && SparesWildRoles(s, req)
    ensures KeepsSomebody(s, req)
  {
    if req.DeleteRole? || req.SetRolePermissions? {
      var u :| u in s.users && ActiveSuper(s, u);
      var id := req.id;
      if !Wild(s, s.users[u].perms) {
        var r :| r in s.users[u].roles && RoleWild(s, r);
        assert r != id ==> r in s.users[u].roles - {id};
      }
      assert SuperWithout(s, u, id) || (id in s.users[u].roles && RoleWild(s, id));
    }
  }

  /** Where no role loses a permission, nobody loses the wildcard. */
  lemma GrowingRolesKeepSuper(s: State, t: State)
    requires HasSuper(s) && t.perms == s.perms && t.users == s.users
    requires forall r :: r in s.roles ==> r in t.roles && s.roles[r].perms <= t.roles[r].perms
    ensures HasSuper(t)
  {
    var u :| u in s.users && ActiveSuper(s, u);
    if !Wild(s, s.users[u].perms) {
      var r :| r in s.users[u].roles && RoleWild(s, r);
      assert RoleWild(t, r);
    }
    assert ActiveSuper(t, u);
  }

  /** With role requests in the run too, as long as they keep somebody. */
  lemma RequestKeepsSuper(s: State, actor: nat, req: Request, t: State, reply: Reply)
    requires Integrity(s) && HasSuper(s) && Step(s, actor, req, t, reply) && KeepsSomebody(s, req)
    ensures HasSuper(t)
  {
    if OnUser(req) {
      UserRequestKeepsSuper(s, actor, req, t, reply);
    } else {
      StepShape(s, actor, req, t, reply);
      if t != s {
        RoleRequestKeepsSuper(s, actor, req, t);
      }
    }
  }

  lemma RoleRequestKeepsSuper(s: State, actor: nat, req: Request, t: State)
    requires Integrity(s) && HasSuper(s) && KeepsSomebody(s, req) && !OnUser(req)
    requires Decide(s, actor, req) == Success && (t == Effect(s, req) || t == Halfway(s, req))
    ensures HasSuper(t)
  {
    FreshId(s);
    hide Integrity, HasSuper, RoleNameTaken, RolesReply, PermissionsReply, SuperWithout, Wild;
    if req.DeleteRole? && t == Effect(s, req) {
      DeleteRoleIff(s, req.id);
    } else if req.SetRolePermissions? && t == Effect(s, req) {
      SetRolePermissionsIff(s, req.id, req.ids);
    } else {
      GrowingRolesKeepSuper(s, t);
    }
  }

  /** A panel with one active super admin, through a custom role; a role manager may delete or
      strip that role. */
  function Exposed(): State {
    State(map[4 := User("owner", true, {3}, {}), 5 := User("manager", true, {}, {2})],
          map[3 := Role("owners", {1}), 6 := Role(SUPER_ADMIN, {1})], map[1 := "*", 2 := "roles.manage"], 7)
  }

  lemma ExposedNow()
    ensures var s := Exposed();
            && Integrity(s) && SuperRoleReady(s)
            && !Protected(s, 3) && !AnyRoleWild(s, {}) && !Wild(s, {}) && !Wild(s, {2}) && RoleWild(s, 3)
  {
    var s := Exposed();
    assert s.roles[3].name[0] != SUPER_ADMIN[0];
    assert s.perms[1] == WILDCARD && RoleWild(s, 6);
    assert s.perms[2] != s.perms[1] && s.users[4].username != s.users[5].username by {
      assert s.perms[2][0] != s.perms[1][0] && s.users[4].username[0] != s.users[5].username[0];
    }
  }

  lemma ManagerIsAdmitted(req: Request)
    requires Required(req) == "roles.manage"
    ensures Admitted(Exposed(), 5, req)
  {
    assert Exposed().perms[2] in Effective(Exposed(), {}, {2});
  }

  lemma ManagerIsServed(req: Request)
    requires req == DeleteRole(3) || req == SetRolePermissions(3, [])
    requires !Protected(Exposed(), 3) && !Wild(Exposed(), {})
    ensures Step(Exposed(), 5, req, Effect(Exposed(), req), Success)
  {
    ManagerIsAdmitted(req);
    hide Admitted, Protected, Wild, Effect;
    assert Wanted([]) == {};
  }

  lemma CustomWildcardRoleIsUnguarded()
    ensures var s := Exposed();
            && Integrity(s) && SuperRoleReady(s) && HasSuper(s) && !Super(s, 5)
            && Step(s, 5, DeleteRole(3), Effect(s, DeleteRole(3)), Success) && !HasSuper(Effect(s, DeleteRole(3)))
            && Step(s, 5, SetRolePermissions(3, []), Effect(s, SetRolePermissions(3, [])), Success)
            && !HasSuper(Effect(s, SetRolePermissions(3, [])))
  {
    var s := Exposed();
    ExposedNow();
    assert ActiveSuper(s, 4) && !Super(s, 5) by {
      hide Integrity, Wild, RoleWild;
    }
    hide *;
    ManagerIsServed(DeleteRole(3));
    ManagerIsServed(SetRolePermissions(3, []));
    OwnersNeedTheirRole(s);
    SomebodyIs(s, 4);
  }

  lemma OwnersNeedTheirRole(s: State)
    requires s == Exposed() && Integrity(s) && !AnyRoleWild(s, {}) && !Wild(s, {}) && !Wild(s, {2})
    ensures !HasSuper(Effect(s, DeleteRole(3))) && !HasSuper(Effect(s, SetRolePermissions(3, [])))
  {
    DeleteRoleIff(s, 3);
    SetRolePermissionsIff(s, 3, []);
    hide Integrity, Wild, AnyRoleWild, HasSuper, Effect;
    assert {3} - {3} == {} && {} - {3} == {} && Wanted([]) == {};
  }

  lemma SomebodyIs(s: State, u: nat)
    requires ActiveSuper(s, u)
    ensures HasSuper(s)
  {
  }

  // --- Nobody gains the wildcard from someone who does not have it ---

  /** A role's permissions may be widened by tame ones. */
  lemma RolesStayTame(s: State, t: State, roles: set<nat>)
    requires forall r :: RoleWild(t, r) ==> RoleWild(s, r)
    ensures AnyRoleWild(t, roles) ==> AnyRoleWild(s, roles)
  {
  }

  lemma WildStays(s: State, t: State, ids: set<nat>)
    requires t.perms == s.perms
    ensures Wild(t, ids) <==> Wild(s, ids)
  {
  }

  lemma StepShape(s: State, actor: nat, req: Request, t: State, reply: Reply)
    requires Step(s, actor, req, t, reply)
    ensures t == s || (Decide(s, actor, req) == Success && (t == Effect(s, req) || t == Halfway(s, req)))
  {
  }

  /** The roles and permissions a request assigns. */
  function AssignedRoles(req: Request): set<nat> {
    match req
    case CreateUser(_, _, roleIds, _) => Wanted(roleIds)
    case SetUserRoles(_, ids) => Wanted(ids)
    case _ => {}
  }

  function AssignedPerms(req: Request): set<nat> {
    match req
    case CreateUser(_, _, _, permIds) => Wanted(permIds)
    case SetUserPermissions(_, ids) => Wanted(ids)
    case CreateRole(_, ids) => Wanted(ids)
    case SetRolePermissions(_, ids) => Wanted(ids)
    case _ => {}
  }

  /** What someone who is not a super admin may assign is tame. */
  lemma TameAssignments(s: State, actor: nat, req: Request)
    requires !Super(s, actor) && Decide(s, actor, req) == Success
    ensures !AnyRoleWild(s, AssignedRoles(req)) && !Wild(s, AssignedPerms(req))
  {
    hide Guarded, UsernameTaken, RoleNameTaken, Protected;
  }

  /** No role turns wild at the hands of someone who is not a super admin. */
  lemma RolesDoNotEscalate(s: State, actor: nat, req: Request, t: State, reply: Reply, r: nat)
    requires Integrity(s) && !Super(s, actor) && Step(s, actor, req, t, reply) && RoleWild(t, r)
    ensures RoleWild(s, r)
  {
    FreshId(s);
    StepShape(s, actor, req, t, reply);
    if t != s {
      TameAssignments(s, actor, req);
      hide Integrity, Step, Decide, AnyRoleWild, Super;
      assert t.perms == s.perms;
      var after := t.roles[r].perms;
      assert after <= (if r in s.roles then s.roles[r].perms else {}) + AssignedPerms(req);
    }
  }

  /** Nor does an account. */
  lemma UsersDoNotEscalate(s: State, actor: nat, req: Request, t: State, reply: Reply)
    requires Integrity(s) && !Super(s, actor) && Step(s, actor, req, t, reply)
    ensures Holders(t) <= Holders(s)
  {
    forall r | RoleWild(t, r)
      ensures RoleWild(s, r)
    {
      RolesDoNotEscalate(s, actor, req, t, reply, r);
    }
    forall u | u in Holders(t)
      ensures u in Holders(s)
    {
      WildStays(s, t, t.users[u].perms);
      RolesStayTame(s, t, t.users[u].roles);
      HolderWas(s, actor, req, t, reply, u);
    }
  }

  lemma HolderWas(s: State, actor: nat, req: Request, t: State, reply: Reply, u: nat)
    requires Integrity(s) && !Super(s, actor) && Step(s, actor, req, t, reply) && u in t.users
    requires Wild(s, t.users[u].perms) || AnyRoleWild(s, t.users[u].roles)
    ensures Super(s, u)
  {
    FreshId(s);
    StepShape(s, actor, req, t, reply);
    if t != s {
      TameAssignments(s, actor, req);
      hide Integrity, Step, Decide, RoleWild;
      var after := t.users[u];
      assert after.perms <= (if u in s.users then s.users[u].perms else {}) + AssignedPerms(req);
      assert after.roles <= (if u in s.users then s.users[u].roles else {}) + AssignedRoles(req);
    }
  }

  // --- Integrity ---

  lemma AddUserKeeps(s: State, u: User)
    requires Integrity(s) && !UsernameTaken(s, u.username) && u.roles <= s.roles.Keys && u.perms <= s.perms.Keys
    ensures Integrity(AddUser(s, u))
  {
  }

  lemma AddRoleKeeps(s: State, r: Role)
    requires Integrity(s) && !RoleNameTaken(s, r.name, 0) && r.perms <= s.perms.Keys
    ensures Integrity(AddRole(s, r))
  {
  }

  lemma PutUserKeeps(s: State, id: nat, u: User)
    requires Integrity(s) && id in s.users && u.username == s.users[id].username
    requires u.roles <= s.roles.Keys && u.perms <= s.perms.Keys
    ensures Integrity(PutUser(s, id, u))
  {
  }

  lemma PutRoleKeeps(s: State, id: nat, r: Role)
    requires Integrity(s) && id in s.roles && !RoleNameTaken(s, r.name, id) && r.perms <= s.perms.Keys
    ensures Integrity(PutRole(s, id, r))
  {
  }

  lemma DropRoleKeeps(s: State, id: nat)
    requires Integrity(s)
    ensures Integrity(DropRole(s, id))
  {
    var t := DropRole(s, id);
    assert forall u :: u in t.users ==> t.users[u].username == s.users[u].username;
    assert forall r :: r in t.roles ==> r in s.roles && t.roles[r] == s.roles[r];
  }

  lemma DropUserKeeps(s: State, id: nat)
    requires Integrity(s)
    ensures Integrity(s.(users := s.users - {id}))
  {
  }

  lemma OwnName(s: State, id: nat)
    requires Integrity(s) && id in s.roles
    ensures !RoleNameTaken(s, s.roles[id].name, id)
  {
  }

  lemma RowRefers(s: State, id: nat)
    requires Integrity(s)
    ensures id in s.users ==> s.users[id].roles <= s.roles.Keys && s.users[id].perms <= s.perms.Keys
    ensures id in s.roles ==> s.roles[id].perms <= s.perms.Keys
  {
  }

  lemma StepKeepsIntegrity(s: State, actor: nat, req: Request, t: State, reply: Reply)
    requires Integrity(s) && Step(s, actor, req, t, reply)
    ensures Integrity(t)
  {
    hide Integrity, Admitted, Guarded, Grants, Protected, UsernameTaken, RoleNameTaken, Wild, AnyRoleWild, Super;
    if t != s {
      match req
      case CreateUser(username, _, roleIds, permIds) =>
        AddUserKeeps(s, User(Trim(username), true, Wanted(roleIds), Wanted(permIds)));
      case UpdateUser(id, _) =>
        RowRefers(s, id);
        PutUserKeeps(s, id, t.users[id]);
      case DeleteUser(id) => DropUserKeeps(s, id);
      case SetUserRoles(id, _) =>
        RowRefers(s, id);
        PutUserKeeps(s, id, t.users[id]);
      case SetUserPermissions(id, _) =>
        RowRefers(s, id);
        PutUserKeeps(s, id, t.users[id]);
      case CreateRole(name, ids) => AddRoleKeeps(s, Role(Trim(name), Wanted(ids)));
      case RenameRole(id, name) =>
        RowRefers(s, id);
        PutRoleKeeps(s, id, s.roles[id].(name := Trim(name)));
      case DeleteRole(id) => DropRoleKeeps(s, id);
      case SetRolePermissions(id, _) =>
        OwnName(s, id);
        RowRefers(s, id);
        PutRoleKeeps(s, id, t.roles[id]);
    }
  }
}
