/** What administration requests mean for the accounts: who may do what after each of them,
    told by the request and the accounts before. */
module Admission {
  import opened Text
  import opened Rbac
  import opened Seeding

  /** Some of these permissions has this name. */
  ghost predicate Named(s: State, ids: set<nat>, n: string) {
    exists p :: p in ids && p in s.perms && s.perms[p] == n
  }

  ghost predicate RoleNames(s: State, r: nat, n: string) {
    r in s.roles && Named(s, s.roles[r].perms, n)
  }

  ghost predicate SomeRoleNames(s: State, roles: set<nat>, n: string) {
    exists r :: r in roles && RoleNames(s, r, n)
  }

  /** The account holds this name, directly or through a role. */
  ghost predicate Holds(s: State, u: nat, n: string) {
    u in s.users && (Named(s, s.users[u].perms, n) || SomeRoleNames(s, s.users[u].roles, n))
  }

  /** The same for the roles and permissions of a request. */
  ghost predicate AskedNamed(s: State, ids: seq<nat>, n: string) {
    exists i :: i in ids && i != 0 && i in s.perms && s.perms[i] == n
  }

  ghost predicate AskedRoleNames(s: State, ids: seq<nat>, n: string) {
    exists i :: i in ids && i != 0 && RoleNames(s, i, n)
  }

  lemma HoldsIsEffective(s: State, u: nat, n: string)
    requires u in s.users
    ensures Holds(s, u, n) <==> n in Effective(s, s.users[u].roles, s.users[u].perms)
  {
    if SomeRoleNames(s, s.users[u].roles, n) {
      var r :| r in s.users[u].roles && RoleNames(s, r, n);
      var p :| p in s.roles[r].perms && p in s.perms && s.perms[p] == n;
    }
  }

  /** The account may do what this permission is for. */
  ghost predicate May(s: State, u: nat, n: string) {
    u in s.users && s.users[u].active && (Holds(s, u, "*") || Holds(s, u, n))
  }

  /** The permission each route asks for. */
  lemma AdmittedIff(s: State, u: nat)
    ensures forall name, on, roles, perms ::
              Admitted(s, u, Request.CreateUser(name, on, roles, perms)) <==> May(s, u, "users.create")
    ensures forall id, on :: Admitted(s, u, Request.UpdateUser(id, on)) <==> May(s, u, "users.update")
    ensures forall id :: Admitted(s, u, Request.DeleteUser(id)) <==> May(s, u, "users.delete")
    ensures forall id, ids :: Admitted(s, u, Request.SetUserRoles(id, ids)) <==> May(s, u, "users.update")
    ensures forall id, ids :: Admitted(s, u, Request.SetUserPermissions(id, ids)) <==> May(s, u, "users.update")
    ensures forall req :: !OnUser(req) ==> (Admitted(s, u, req) <==> May(s, u, "roles.manage"))
  {
    forall req
      ensures Admitted(s, u, req) <==> May(s, u, Required(req))
    {
      if u in s.users {
        HoldsIsEffective(s, u, WILDCARD);
        HoldsIsEffective(s, u, Required(req));
      }
    }
  }

  // --- What stays ---

  /** The account is as it was: there or not, its name, whether it may act, and what it holds. */
  ghost predicate SameAccount(s: State, t: State, u: nat) {
    && (u in s.users <==> u in t.users)
    && (u in s.users ==> t.users[u].username == s.users[u].username && t.users[u].active == s.users[u].active)
    && forall n :: Holds(s, u, n) <==> Holds(t, u, n)
  }

  /** So it is admitted to the same requests. */
  lemma SameIsAdmittedAlike(s: State, t: State, u: nat, req: Request)
    requires SameAccount(s, t, u)
    ensures Admitted(t, u, req) <==> Admitted(s, u, req)
  {
    if u in s.users {
      HoldsIsEffective(s, u, WILDCARD);
      HoldsIsEffective(t, u, WILDCARD);
      HoldsIsEffective(s, u, Required(req));
      HoldsIsEffective(t, u, Required(req));
    }
  }

  ghost predicate OthersSame(s: State, t: State, id: nat) {
    forall u :: u != id ==> SameAccount(s, t, u)
  }

  ghost predicate AllSame(s: State, t: State) {
    forall u :: SameAccount(s, t, u)
  }

  /** The role is as it was. */
  ghost predicate SameRole(s: State, t: State, r: nat) {
    && (r in s.roles <==> r in t.roles)
    && (r in s.roles ==> t.roles[r].name == s.roles[r].name)
    && forall n :: RoleNames(s, r, n) <==> RoleNames(t, r, n)
  }

  ghost predicate OtherRolesSame(s: State, t: State, id: nat) {
    forall r :: r != id ==> SameRole(s, t, r)
  }

  ghost predicate RolesSame(s: State, t: State) {
    forall r :: SameRole(s, t, r)
  }

  /** Where neither roles nor permissions changed, what was granted gives the same names. */
  lemma SameCatalog(s: State, t: State, n: string)
    requires t.roles == s.roles && t.perms == s.perms
    ensures forall ids :: Named(s, ids, n) <==> Named(t, ids, n)
    ensures forall roles :: SomeRoleNames(s, roles, n) <==> SomeRoleNames(t, roles, n)
  {
    assert forall r :: RoleNames(s, r, n) <==> RoleNames(t, r, n);
  }

  lemma OneUserChanged(s: State, t: State, id: nat)
    requires t.roles == s.roles && t.perms == s.perms && t.users - {id} == s.users - {id}
    ensures OthersSame(s, t, id) && RolesSame(s, t)
  {
    forall u | u != id
      ensures SameAccount(s, t, u)
    {
      assert u in s.users <==> u in s.users - {id};
      assert u in t.users <==> u in t.users - {id};
      if u in s.users {
        assert t.users[u] == (t.users - {id})[u] == (s.users - {id})[u] == s.users[u];
        forall n
          ensures Holds(s, u, n) <==> Holds(t, u, n)
        {
          SameCatalog(s, t, n);
        }
      }
    }
    forall r
      ensures SameRole(s, t, r)
    {
      assert forall n :: RoleNames(s, r, n) <==> RoleNames(t, r, n);
    }
  }

  lemma AskedIsWanted(s: State, ids: seq<nat>, n: string)
    ensures AskedNamed(s, ids, n) <==> Named(s, Wanted(ids), n)
    ensures AskedRoleNames(s, ids, n) <==> SomeRoleNames(s, Wanted(ids), n)
  {
    if AskedRoleNames(s, ids, n) {
      var i :| i in ids && i != 0 && RoleNames(s, i, n);
      assert i in Wanted(ids);
    }
  }

  // --- Requests on accounts ---

  /** A new account can act at once and holds what its roles and permissions name. */
  lemma CreateUserOutcome(s: State, actor: nat, username: string, activate: Option<bool>,
                          roleIds: seq<nat>, permIds: seq<nat>, t: State)
    requires Integrity(s) && Step(s, actor, Request.CreateUser(username, activate, roleIds, permIds), t, Success)
    ensures exists id ::
              && id !in s.users && id in t.users && t.users[id].username == Trim(username) && t.users[id].active
              && (forall n :: Holds(t, id, n) <==> AskedNamed(s, permIds, n) || AskedRoleNames(s, roleIds, n))
              && OthersSame(s, t, id) && RolesSame(s, t)
  {
    FreshId(s);
    hide Integrity, Admitted, Decide;
    var id := s.nextId;
    assert t.users - {id} == s.users - {id};
    OneUserChanged(s, t, id);
    forall n
      ensures Holds(t, id, n) <==> AskedNamed(s, permIds, n) || AskedRoleNames(s, roleIds, n)
    {
      SameCatalog(s, t, n);
      AskedIsWanted(s, permIds, n);
      AskedIsWanted(s, roleIds, n);
    }
  }

  /** An account switched on may do what it holds the names for, one switched off nothing, and
      without a flag it is as before. */
  lemma UpdateUserOutcome(s: State, actor: nat, id: nat, activate: Option<bool>, t: State)
    requires Step(s, actor, Request.UpdateUser(id, activate), t, Success)
    ensures id in s.users && id in t.users && t.users[id].username == s.users[id].username
    ensures t.users[id].active <==> activate == Some(true) || (activate.None? && s.users[id].active)
    ensures forall n :: Holds(t, id, n) <==> Holds(s, id, n)
    ensures forall n :: May(t, id, n) <==>
                        (activate == Some(true) || (activate.None? && s.users[id].active))
                        && (Holds(s, id, "*") || Holds(s, id, n))
    ensures OthersSame(s, t, id) && RolesSame(s, t)
  {
    hide Admitted, Guarded;
    assert t.users - {id} == s.users - {id};
    OneUserChanged(s, t, id);
    forall n
      ensures Holds(t, id, n) <==> Holds(s, id, n)
    {
      SameCatalog(s, t, n);
    }
  }

  /** A deleted account may do nothing. */
  lemma DeleteUserOutcome(s: State, actor: nat, id: nat, t: State)
    requires Step(s, actor, Request.DeleteUser(id), t, Success)
    ensures id in s.users && id !in t.users && forall req :: !Admitted(t, id, req)
    ensures OthersSame(s, t, id) && RolesSame(s, t)
  {
    hide Admitted, Guarded;
    assert t.users - {id} == s.users - {id};
    OneUserChanged(s, t, id);
    assert forall req :: !Admitted(t, id, req) by {
      forall req
        ensures !Admitted(t, id, req)
      {
        NobodyIsAdmitted(t, id, req);
      }
    }
  }

  lemma NobodyIsAdmitted(s: State, u: nat, req: Request)
    requires u !in s.users
    ensures !Admitted(s, u, req)
  {
  }

  /** The account is as before except for what it holds. */
  ghost predicate SameCard(s: State, t: State, u: nat) {
    u in s.users && u in t.users && t.users[u].username == s.users[u].username && t.users[u].active == s.users[u].active
  }

  /** Afterwards the account holds what the wanted roles name and what it holds directly; if a
      store call failed, nothing has changed or the wanted roles have come on top of its own. */
  lemma SetUserRolesOutcome(s: State, actor: nat, id: nat, ids: seq<nat>, t: State, reply: Reply)
    requires Step(s, actor, Request.SetUserRoles(id, ids), t, reply) && (reply.Success? || reply.ServerError?)
    ensures SameCard(s, t, id) && OthersSame(s, t, id) && RolesSame(s, t)
    ensures reply.Success? ==>
              forall n :: Holds(t, id, n) <==> AskedRoleNames(s, ids, n) || Named(s, s.users[id].perms, n)
    ensures reply.ServerError? ==>
              t == s || forall n :: Holds(t, id, n) <==> AskedRoleNames(s, ids, n) || Holds(s, id, n)
  {
    hide Admitted, Guarded, RolesReply, Grants;
    assert t.users - {id} == s.users - {id};
    OneUserChanged(s, t, id);
    forall n
      ensures Holds(t, id, n) <==> SomeRoleNames(s, t.users[id].roles, n) || Named(s, s.users[id].perms, n)
      ensures AskedRoleNames(s, ids, n) <==> SomeRoleNames(s, Wanted(ids), n)
      ensures SomeRoleNames(s, s.users[id].roles + Wanted(ids), n) <==>
              SomeRoleNames(s, s.users[id].roles, n) || SomeRoleNames(s, Wanted(ids), n)
    {
      SameCatalog(s, t, n);
      AskedIsWanted(s, ids, n);
      RolesTogether(s, s.users[id].roles, Wanted(ids), n);
    }
  }

  lemma RolesTogether(s: State, a: set<nat>, b: set<nat>, n: string)
    ensures SomeRoleNames(s, a + b, n) <==> SomeRoleNames(s, a, n) || SomeRoleNames(s, b, n)
    ensures Named(s, a + b, n) <==> Named(s, a, n) || Named(s, b, n)
  {
    if SomeRoleNames(s, a, n) {
      var r :| r in a && RoleNames(s, r, n);
      assert r in a + b;
    } else if SomeRoleNames(s, b, n) {
      var r :| r in b && RoleNames(s, r, n);
      assert r in a + b;
    }
    if Named(s, a, n) {
      var p :| p in a && p in s.perms && s.perms[p] == n;
      assert p in a + b;
    } else if Named(s, b, n) {
      var p :| p in b && p in s.perms && s.perms[p] == n;
      assert p in a + b;
    }
  }

  /** Likewise for its own permissions. */
  lemma SetUserPermissionsOutcome(s: State, actor: nat, id: nat, ids: seq<nat>, t: State, reply: Reply)
    requires Step(s, actor, Request.SetUserPermissions(id, ids), t, reply) && (reply.Success? || reply.ServerError?)
    ensures SameCard(s, t, id) && OthersSame(s, t, id) && RolesSame(s, t)
    ensures reply.Success? ==>
              forall n :: Holds(t, id, n) <==> AskedNamed(s, ids, n) || SomeRoleNames(s, s.users[id].roles, n)
    ensures reply.ServerError? ==>
              t == s || forall n :: Holds(t, id, n) <==> AskedNamed(s, ids, n) || Holds(s, id, n)
  {
    hide Admitted, Guarded, PermissionsReply, Grants;
    assert t.users - {id} == s.users - {id};
    OneUserChanged(s, t, id);
    forall n
      ensures Holds(t, id, n) <==> Named(s, t.users[id].perms, n) || SomeRoleNames(s, s.users[id].roles, n)
      ensures AskedNamed(s, ids, n) <==> Named(s, Wanted(ids), n)
      ensures Named(s, s.users[id].perms + Wanted(ids), n) <==>
              Named(s, s.users[id].perms, n) || Named(s, Wanted(ids), n)
    {
      SameCatalog(s, t, n);
      AskedIsWanted(s, ids, n);
      RolesTogether(s, s.users[id].perms, Wanted(ids), n);
    }
  }

  // --- Requests on roles ---

  /** A new role names what was asked for, and changes nobody yet. */
  lemma CreateRoleOutcome(s: State, actor: nat, name: string, ids: seq<nat>, t: State)
    requires Integrity(s) && Step(s, actor, Request.CreateRole(name, ids), t, Success)
    ensures AllSame(s, t)
    ensures exists id ::
              && id !in s.roles && id in t.roles && t.roles[id].name == Trim(name)
              && (forall n :: RoleNames(t, id, n) <==> AskedNamed(s, ids, n))
              && OtherRolesSame(s, t, id)
  {
    FreshId(s);
    var id := s.nextId;
    assert References(s);
    hide Integrity, Admitted, Decide;
    assert t.roles - {id} == s.roles - {id};
    OneRoleChanged(s, t, id);
    forall n
      ensures RoleNames(t, id, n) <==> AskedNamed(s, ids, n)
    {
      AskedIsWanted(s, ids, n);
    }
  }

  /** The accounts without this role hold what they held, and so do the other roles. */
  lemma OneRoleChanged(s: State, t: State, id: nat)
    requires t.users == s.users && t.perms == s.perms && t.roles - {id} == s.roles - {id}
    ensures OtherRolesSame(s, t, id)
    ensures forall u :: (u in s.users ==> id !in s.users[u].roles) ==> SameAccount(s, t, u)
    ensures forall u, n :: u in s.users ==>
              (Holds(t, u, n) <==>
               Named(s, s.users[u].perms, n) || SomeRoleNames(s, s.users[u].roles - {id}, n)
               || (id in s.users[u].roles && RoleNames(t, id, n)))
  {
    forall r, n | r != id
      ensures RoleNames(s, r, n) <==> RoleNames(t, r, n)
    {
      assert r in s.roles <==> r in s.roles - {id};
      assert r in t.roles <==> r in t.roles - {id};
      if r in s.roles {
        assert t.roles[r] == (t.roles - {id})[r] == (s.roles - {id})[r] == s.roles[r];
      }
    }
    forall r | r != id
      ensures SameRole(s, t, r)
    {
      assert r in s.roles <==> r in s.roles - {id};
      assert r in t.roles <==> r in t.roles - {id};
      if r in s.roles {
        assert t.roles[r] == (t.roles - {id})[r] == (s.roles - {id})[r] == s.roles[r];
      }
    }
    forall u, n | u in s.users
      ensures Holds(t, u, n) <==>
              Named(s, s.users[u].perms, n) || SomeRoleNames(s, s.users[u].roles - {id}, n)
              || (id in s.users[u].roles && RoleNames(t, id, n))
    {
      ThroughRoles(s, t, id, s.users[u].roles, n);
      assert Named(t, s.users[u].perms, n) <==> Named(s, s.users[u].perms, n);
    }
    forall u | u in s.users ==> id !in s.users[u].roles
      ensures SameAccount(s, t, u)
    {
      if u in s.users {
        assert s.users[u].roles - {id} == s.users[u].roles;
      }
    }
  }

  lemma ThroughRoles(s: State, t: State, id: nat, roles: set<nat>, n: string)
    requires forall r :: r != id ==> (RoleNames(s, r, n) <==> RoleNames(t, r, n))
    ensures SomeRoleNames(t, roles, n) <==>
            SomeRoleNames(s, roles - {id}, n) || (id in roles && RoleNames(t, id, n))
  {
    if SomeRoleNames(t, roles, n) {
      var r :| r in roles && RoleNames(t, r, n);
      assert r == id || r in roles - {id};
    }
    if SomeRoleNames(s, roles - {id}, n) {
      var r :| r in roles - {id} && RoleNames(s, r, n);
      assert r in roles;
    }
  }

  /** A new name for a role changes nobody. */
  lemma RenameRoleOutcome(s: State, actor: nat, id: nat, name: string, t: State)
    requires Step(s, actor, Request.RenameRole(id, name), t, Success)
    ensures AllSame(s, t) && OtherRolesSame(s, t, id)
    ensures id in s.roles && id in t.roles && t.roles[id].name == Trim(name)
    ensures forall n :: RoleNames(t, id, n) <==> RoleNames(s, id, n)
  {
    hide Admitted, RoleNameTaken, Protected;
    assert t.roles - {id} == s.roles - {id};
    OneRoleChanged(s, t, id);
    forall n
      ensures RoleNames(t, id, n) <==> RoleNames(s, id, n)
    {
    }
    forall u
      ensures SameAccount(s, t, u)
    {
      forall n
        ensures Holds(s, u, n) <==> Holds(t, u, n)
      {
        if u in s.users {
          ThroughRoles(s, s, id, s.users[u].roles, n);
        }
      }
    }
  }

  /** Everybody keeps what is held without the role. */
  lemma DeleteRoleOutcome(s: State, actor: nat, id: nat, t: State)
    requires Step(s, actor, Request.DeleteRole(id), t, Success)
    ensures id in s.roles && id !in t.roles && OtherRolesSame(s, t, id) && t.users.Keys == s.users.Keys
    ensures forall u :: u in s.users ==> SameCard(s, t, u)
    ensures forall u, n :: u in s.users ==>
              (Holds(t, u, n) <==>
               Named(s, s.users[u].perms, n) || SomeRoleNames(s, s.users[u].roles - {id}, n))
  {
    hide Admitted, Protected;
    var m := t.(users := s.users);
    assert m.roles - {id} == s.roles - {id};
    OneRoleChanged(s, m, id);
    forall r
      ensures SameRole(m, t, r)
    {
      assert forall n :: RoleNames(m, r, n) <==> RoleNames(t, r, n);
    }
    forall r | r != id
      ensures SameRole(s, t, r)
    {
      assert SameRole(s, m, r) && SameRole(m, t, r);
    }
    forall u, n | u in s.users
      ensures Holds(t, u, n) <==> Named(s, s.users[u].perms, n) || SomeRoleNames(s, s.users[u].roles - {id}, n)
    {
      SameCatalog(m, t, n);
      assert t.users[u].perms == s.users[u].perms && t.users[u].roles == s.users[u].roles - {id};
      assert Named(t, s.users[u].perms, n) <==> Named(s, s.users[u].perms, n);
      assert forall r :: r != id ==> SameRole(s, m, r);
      ThroughRoles(s, m, id, s.users[u].roles - {id}, n);
      assert s.users[u].roles - {id} - {id} == s.users[u].roles - {id};
    }
  }

  /** Everybody with the role holds what was asked for instead of what it named; if a store call
      failed, nothing has changed or it has come on top. */
  lemma SetRolePermissionsOutcome(s: State, actor: nat, id: nat, ids: seq<nat>, t: State, reply: Reply)
    requires Step(s, actor, Request.SetRolePermissions(id, ids), t, reply) && (reply.Success? || reply.ServerError?)
    ensures OtherRolesSame(s, t, id) && id in t.roles && t.roles[id].name == s.roles[id].name
    ensures t.users.Keys == s.users.Keys && forall u :: u in s.users ==> SameCard(s, t, u)
    ensures reply.Success? ==>
              forall u, n :: u in s.users ==>
                (Holds(t, u, n) <==>
                 Named(s, s.users[u].perms, n) || SomeRoleNames(s, s.users[u].roles - {id}, n)
                 || (id in s.users[u].roles && AskedNamed(s, ids, n)))
    ensures reply.ServerError? ==>
              t == s || forall u, n :: u in s.users ==>
                (Holds(t, u, n) <==> Holds(s, u, n) || (id in s.users[u].roles && AskedNamed(s, ids, n)))
  {
    hide Admitted, Protected, PermissionsReply;
    assert t.roles - {id} == s.roles - {id};
    OneRoleChanged(s, t, id);
    forall u, n | u in s.users
      ensures AskedNamed(s, ids, n) <==> Named(s, Wanted(ids), n)
      ensures Named(s, s.roles[id].perms + Wanted(ids), n) <==> RoleNames(s, id, n) || Named(s, Wanted(ids), n)
      ensures RoleNames(t, id, n) <==> Named(s, t.roles[id].perms, n)
      ensures SomeRoleNames(s, s.users[u].roles, n) <==>
              SomeRoleNames(s, s.users[u].roles - {id}, n) || (id in s.users[u].roles && RoleNames(s, id, n))
    {
      AskedIsWanted(s, ids, n);
      RolesTogether(s, s.roles[id].perms, Wanted(ids), n);
      ThroughRoles(s, s, id, s.users[u].roles, n);
    }
  }

  /** A replacement that stops halfway is possible: what was asked for has come on top. */
  lemma ReplacementMayStopHalfway(s: State, actor: nat, id: nat, ids: seq<nat>)
    ensures Decides(s, actor, Request.SetUserRoles(id, ids)) ==>
              exists t :: Step(s, actor, Request.SetUserRoles(id, ids), t, ServerError)
                          && forall n :: Holds(t, id, n) <==> AskedRoleNames(s, ids, n) || Holds(s, id, n)
    ensures Decides(s, actor, Request.SetUserPermissions(id, ids)) ==>
              exists t :: Step(s, actor, Request.SetUserPermissions(id, ids), t, ServerError)
                          && forall n :: Holds(t, id, n) <==> AskedNamed(s, ids, n) || Holds(s, id, n)
    ensures Decides(s, actor, Request.SetRolePermissions(id, ids)) ==>
              exists t :: Step(s, actor, Request.SetRolePermissions(id, ids), t, ServerError)
                          && forall n :: RoleNames(t, id, n) <==> AskedNamed(s, ids, n) || RoleNames(s, id, n)
  {
    HalfwayRoles(s, actor, id, ids);
    HalfwayPermissions(s, actor, id, ids);
    HalfwayRole(s, actor, id, ids);
  }

  ghost predicate Decides(s: State, actor: nat, req: Request) {
    Admitted(s, actor, req) && Decide(s, actor, req) == Success
  }

  lemma HalfwayRoles(s: State, actor: nat, id: nat, ids: seq<nat>)
    ensures Decides(s, actor, Request.SetUserRoles(id, ids)) ==>
              exists t :: Step(s, actor, Request.SetUserRoles(id, ids), t, ServerError)
                          && forall n :: Holds(t, id, n) <==> AskedRoleNames(s, ids, n) || Holds(s, id, n)
  {
    var req := Request.SetUserRoles(id, ids);
    if Decides(s, actor, req) {
      var t := Halfway(s, req);
      assert Step(s, actor, req, t, ServerError);
      hide Step, Decide, Admitted;
      forall n
        ensures Holds(t, id, n) <==> AskedRoleNames(s, ids, n) || Holds(s, id, n)
      {
        SameCatalog(s, t, n);
        AskedIsWanted(s, ids, n);
        RolesTogether(s, s.users[id].roles, Wanted(ids), n);
      }
    }
  }

  lemma HalfwayPermissions(s: State, actor: nat, id: nat, ids: seq<nat>)
    ensures Decides(s, actor, Request.SetUserPermissions(id, ids)) ==>
              exists t :: Step(s, actor, Request.SetUserPermissions(id, ids), t, ServerError)
                          && forall n :: Holds(t, id, n) <==> AskedNamed(s, ids, n) || Holds(s, id, n)
  {
    var req := Request.SetUserPermissions(id, ids);
    if Decides(s, actor, req) {
      var t := Halfway(s, req);
      assert Step(s, actor, req, t, ServerError);
      hide Step, Decide, Admitted;
      forall n
        ensures Holds(t, id, n) <==> AskedNamed(s, ids, n) || Holds(s, id, n)
      {
        SameCatalog(s, t, n);
        AskedIsWanted(s, ids, n);
        RolesTogether(s, s.users[id].perms, Wanted(ids), n);
      }
    }
  }

  lemma HalfwayRole(s: State, actor: nat, id: nat, ids: seq<nat>)
    ensures Decides(s, actor, Request.SetRolePermissions(id, ids)) ==>
              exists t :: Step(s, actor, Request.SetRolePermissions(id, ids), t, ServerError)
                          && forall n :: RoleNames(t, id, n) <==> AskedNamed(s, ids, n) || RoleNames(s, id, n)
  {
    var req := Request.SetRolePermissions(id, ids);
    if Decides(s, actor, req) {
      var t := Halfway(s, req);
      assert Step(s, actor, req, t, ServerError);
      hide Step, Decide, Admitted;
      forall n
        ensures RoleNames(t, id, n) <==> AskedNamed(s, ids, n) || RoleNames(s, id, n)
      {
        AskedIsWanted(s, ids, n);
        RolesTogether(s, s.roles[id].perms, Wanted(ids), n);
      }
    }
  }

  // --- The default roles ---

  /** After a complete start a default role names exactly what its list says. */
  lemma DefaultRoleNames(s: State, username: string, password: string, i: nat, r: nat)
    requires Integrity(s) && i < |DefaultRoles()|
    requires var t := Seeded(s, username, password); r in t.roles && t.roles[r].name == DefaultRoles()[i].name
    ensures forall n :: RoleNames(Seeded(s, username, password), r, n) <==> n in DefaultRoles()[i].perms
  {
    var t, def := Seeded(s, username, password), DefaultRoles()[i];
    SeededIsSettled(s, username, password);
    DefaultsAreInCatalog(i);
    hide AllPermissions, DefaultRoles, Integrity, PerformAll;
    assert RoleSettled(t, def);
    forall n
      ensures RoleNames(t, r, n) <==> n in def.perms
    {
      if n in def.perms {
        var j :| 0 <= j < |AllPermissions()| && AllPermissions()[j] == n;
        assert PermissionExists(t, AllPermissions()[j]);
        var p :| p in t.perms && t.perms[p] == n;
        assert p in IdsOf(t, def.perms);
      }
    }
  }

  lemma SeededIsSettled(s: State, username: string, password: string)
    requires Integrity(s)
    ensures Settled(Seeded(s, username, password), AllPermissions(), DefaultRoles())
  {
    UpkeepSettles(s);
    SeededIs(s, username, password);
    hide AllPermissions, DefaultRoles, Integrity, PerformAll;
    var m := PerformAll(s, UpkeepWrites());
    AdminKeepsSettled(m, AdminName(username));
  }

  lemma DefaultsAreInCatalog(i: nat)
    requires i < |DefaultRoles()|
    ensures forall n :: n in DefaultRoles()[i].perms ==> n in AllPermissions()
  {
    var first := [WILDCARD, "users.view", "users.create", "users.update", "users.delete",
                  "roles.view", "roles.manage", "permissions.view"];
    assert AllPermissions() == first + ManageNames();
    assert first[0] == WILDCARD;
    ViewIsManaged();
    hide ManageNames, ViewNames;
  }

  lemma ViewIsManaged()
    ensures forall n :: n in ViewNames() ==> n in ManageNames()
  {
    var view, all := ViewNames(), ManageNames();
    assert view[0] == all[0] && view[1] == all[5] && view[2] == all[9] && view[3] == all[11] && view[4] == all[14];
  }

  /** Every permission a route asks for exists after a start. */
  lemma RequiredExists(s: State, username: string, password: string, req: Request)
    requires Integrity(s)
    ensures PermissionExists(Seeded(s, username, password), Required(req))
  {
    SeededIsSettled(s, username, password);
    var all := AllPermissions();
    assert all[2] == "users.create" && all[3] == "users.update" && all[4] == "users.delete" && all[6] == "roles.manage";
    hide AllPermissions, DefaultRoles, Integrity, PerformAll;
    var i :| 0 <= i < |AllPermissions()| && AllPermissions()[i] == Required(req);
  }

  /** After a start whoever is active and has the super-admin role is admitted to everything. */
  lemma SuperAdminsAreAdmitted(s: State, username: string, password: string, u: nat, r: nat, req: Request)
    requires Integrity(s)
    requires var t := Seeded(s, username, password);
             && u in t.users && t.users[u].active && r in t.users[u].roles
             && r in t.roles && t.roles[r].name == "super-admin"
    ensures Admitted(Seeded(s, username, password), u, req)
  {
    var t := Seeded(s, username, password);
    DefaultsAreWellDefined();
    assert DefaultRoles()[0].perms[0] == WILDCARD;
    DefaultRoleNames(s, username, password, 0, r);
    hide AllPermissions, DefaultRoles, Integrity, Seeded;
    assert Holds(t, u, WILDCARD);
    HoldsIsEffective(t, u, WILDCARD);
  }

  /** Whoever is an operator or a viewer and nothing else is admitted to no administration. */
  lemma OperatorsAreRefused(s: State, username: string, password: string, u: nat, req: Request)
    requires Integrity(s)
    requires var t := Seeded(s, username, password);
             && u in t.users && t.users[u].perms == {}
             && forall r :: r in t.users[u].roles ==>
                  r in t.roles && (t.roles[r].name == "operator" || t.roles[r].name == "viewer")
    ensures !Admitted(Seeded(s, username, password), u, req)
  {
    var t := Seeded(s, username, password);
    forall r, n | r in t.users[u].roles && (n == WILDCARD || n == Required(req))
      ensures !RoleNames(t, r, n)
    {
      var i := if t.roles[r].name == "operator" then 1 else 2;
      DefaultRoleNames(s, username, password, i, r);
      OthersDoNotAdminister(i, req);
    }
    hide AllPermissions, DefaultRoles, Integrity, Seeded, Required;
    HoldsIsEffective(t, u, WILDCARD);
    HoldsIsEffective(t, u, Required(req));
  }

  lemma OthersDoNotAdminister(i: nat, req: Request)
    requires 0 < i < 3
    ensures Required(req) !in DefaultRoles()[i].perms && WILDCARD !in DefaultRoles()[i].perms
  {
    DefaultsAreWellDefined();
    var n := Required(req);
    forall k | 0 <= k < 17
      ensures ManageNames()[k] != n
    {
      var name := ManageNames()[k];
      assert name[0] == 'i' || name[0] == 'p' || name[0] == 'v' || name[0] == 'o';
      assert n[0] == 'u' || n[0] == 'r';
    }
    ViewIsManaged();
    assert n !in ManageNames();
    hide ManageNames, ViewNames, Required;
  }
}
