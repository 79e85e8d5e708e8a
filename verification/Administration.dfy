/** The administration handlers over the stored accounts, and what holds over every run of
    requests and starts of the program. */
module Administration {
  import opened Text
  import opened Rbac
  import opened Seeding

  // --- Runs ---

  /** A request of one account and its reply, or a start of the program that carried out
      its first writes. */
  datatype Event =
    | Asked(actor: nat, req: Request, reply: Reply)
    | Started(username: string, password: string, done: nat)

  predicate Happens(s: State, e: Event, t: State) {
    match e
    case Asked(actor, req, reply) => Step(s, actor, req, t, reply)
    case Started(username, password, done) =>
      var ws := SeedWrites(s, username, password);
      done <= |ws| && t == PerformAll(s, ws[..done])
  }

  /** What the program is asked from outside. */
  datatype Input = Ask(actor: nat, req: Request) | Start(username: string, password: string)

  predicate IsRun(run: seq<State>, events: seq<Event>) {
    |run| == |events| + 1 && forall k :: 0 <= k < |events| ==> Happens(run[k], events[k], run[k + 1])
  }

  lemma RunGrows(run: seq<State>, events: seq<Event>, e: Event, t: State)
    requires IsRun(run, events) && Happens(run[|events|], e, t)
    ensures IsRun(run + [t], events + [e])
  {
    hide Happens;
  }

  /** Requests on accounts may come at any time; a request on a role and a start must leave
      somebody a super admin, which can be looked up before either. */
  predicate SafeAt(s: State, e: Event) {
    match e
    case Asked(_, req, _) => KeepsSomebody(s, req)
    case Started(_, _, _) => SuperRemains(s)
  }

  lemma EventKeepsIntegrity(s: State, e: Event, t: State)
    requires Integrity(s) && Happens(s, e, t) && s.users != map[]
    ensures Integrity(t)
  {
    hide Integrity, Step;
    match e
    case Asked(actor, req, reply) => StepKeepsIntegrity(s, actor, req, t, reply);
    case Started(username, password, done) =>
      SeedIsUpkeep();
      hide AllPermissions, DefaultRoles, PerformAll;
      assert SeedWrites(s, username, password) == UpkeepWrites();
      UpkeepKeeps(s, UpkeepWrites()[..done]);
  }

  lemma EventKeepsSuper(s: State, e: Event, t: State)
    requires Integrity(s) && HasSuper(s) && Happens(s, e, t) && SafeAt(s, e)
    ensures Integrity(t) && HasSuper(t)
  {
    assert s.users != map[];
    EventKeepsIntegrity(s, e, t);
    hide Integrity, HasSuper, SuperRemains, KeepsSomebody, Step, SeedWrites, PerformAll;
    match e
    case Asked(actor, req, reply) => RequestKeepsSuper(s, actor, req, t, reply);
    case Started(username, password, done) => SeedKeepsSuper(s, username, password, done);
  }

  /** Once there is an active super admin there always is one. */
  lemma {:induction false} RunKeepsSuper(run: seq<State>, events: seq<Event>, n: nat)
    requires IsRun(run, events) && Integrity(run[0]) && HasSuper(run[0]) && n <= |events|
    requires forall k :: 0 <= k < |events| ==> SafeAt(run[k], events[k])
    ensures Integrity(run[n]) && HasSuper(run[n])
  {
    hide Integrity, HasSuper, SafeAt, Happens;
    if n > 0 {
      RunKeepsSuper(run, events, n - 1);
      EventKeepsSuper(run[n - 1], events[n - 1], run[n]);
    }
  }

  // --- The same from what the roles are ---

  /** The roles allow the event: it deletes or strips no role with the wildcard, or is a start
      while no default role but super-admin carries it. Who is a super admin plays no part. */
  predicate RolesAllow(s: State, e: Event) {
    match e
    case Asked(_, req, _) => SparesWildRoles(s, req)
    case Started(_, _, _) => TameDefaults(s)
  }

  lemma RolesAllowIsSafe(s: State, e: Event)
    requires HasSuper(s) && RolesAllow(s, e)
    ensures SafeAt(s, e)
  {
    match e
    case Asked(_, req, _) => SparedKeepsSomebody(s, req);
    case Started(_, _, _) =>
      var u :| ActiveSuper(s, u);
      TameDefaultsLast(s, u);
  }

  /** A run whose events the roles allow never loses its last active super admin. */
  lemma {:induction false} AllowedRunKeepsSuper(run: seq<State>, events: seq<Event>, n: nat)
    requires IsRun(run, events) && Integrity(run[0]) && HasSuper(run[0]) && n <= |events|
    requires forall k :: 0 <= k < |events| ==> RolesAllow(run[k], events[k])
    ensures Integrity(run[n]) && HasSuper(run[n])
  {
    hide Integrity, HasSuper, SafeAt, RolesAllow, Happens;
    if n > 0 {
      AllowedRunKeepsSuper(run, events, n - 1);
      RolesAllowIsSafe(run[n - 1], events[n - 1]);
      EventKeepsSuper(run[n - 1], events[n - 1], run[n]);
    }
  }

  lemma SeededWildAllows(s: State, e: Event)
    requires OnlySeededWild(s)
    ensures RolesAllow(s, e)
  {
    match e
    case Asked(_, req, _) => OnlySeededWildIsSpared(s, req);
    case Started(_, _, _) =>
      hide RoleWild, DefaultName;
  }

  /** In particular none does in which no role but super-admin ever carries the wildcard. */
  lemma SeededWildRunKeepsSuper(run: seq<State>, events: seq<Event>, n: nat)
    requires IsRun(run, events) && Integrity(run[0]) && HasSuper(run[0]) && n <= |events|
    requires forall k :: 0 <= k < |events| ==> OnlySeededWild(run[k])
    ensures Integrity(run[n]) && HasSuper(run[n])
  {
    hide Integrity, HasSuper, RolesAllow, OnlySeededWild, Happens;
    forall k | 0 <= k < |events|
      ensures RolesAllow(run[k], events[k])
    {
      SeededWildAllows(run[k], events[k]);
    }
    AllowedRunKeepsSuper(run, events, n);
  }

  /** The request gives no role the wildcard, or comes from somebody who may not. */
  predicate TameEvent(s: State, e: Event) {
    e.Asked? ==> KeepsRolesTame(s, e.req) || !Super(s, e.actor)
  }

  lemma TameEventKeepsSeededWild(s: State, e: Event, t: State)
    requires Integrity(s) && s.users != map[] && OnlySeededWild(s) && TameEvent(s, e) && Happens(s, e, t)
    ensures OnlySeededWild(t)
  {
    match e
    case Asked(actor, req, reply) =>
      if t != s {
        if !KeepsRolesTame(s, req) {
          StepShape(s, actor, req, t, reply);
          TameAssignments(s, actor, req);
        }
        hide Integrity, Step, Super;
        TameRequestKeepsSeededWild(s, actor, req, t, reply);
      }
    case Started(username, password, done) =>
      SeedIsUpkeep();
      StartWrites(s, username, password);
      hide Integrity, OnlySeededWild, SeedWrites, UpkeepWrites, PerformAll, Upkeep;
      UpkeepKeeps(s, UpkeepWrites()[..done]);
  }

  /** So from a panel where no other role carries the wildcard, every run of starts, whole or
      interrupted, and of requests that give it to no role keeps an active super admin. What
      someone who is not a super admin asks is always such a request. */
  lemma {:induction false} TameRunKeepsSuper(run: seq<State>, events: seq<Event>, n: nat)
    requires IsRun(run, events) && Integrity(run[0]) && HasSuper(run[0]) && n <= |events|
    requires OnlySeededWild(run[0]) && forall k :: 0 <= k < |events| ==> TameEvent(run[k], events[k])
    ensures Integrity(run[n]) && HasSuper(run[n]) && OnlySeededWild(run[n])
  {
    if n > 0 {
      TameRunKeepsSuper(run, events, n - 1);
      var s, e := run[n - 1], events[n - 1];
      assert s.users != map[];
      hide Integrity, HasSuper, SafeAt, RolesAllow, Happens, OnlySeededWild, TameEvent;
      assert Happens(s, e, run[n]) && TameEvent(s, e);
      SeededWildAllows(s, e);
      RolesAllowIsSafe(s, e);
      EventKeepsSuper(s, e, run[n]);
      TameEventKeepsSeededWild(s, e, run[n]);
    }
  }

  // --- Nobody gains the wildcard ---

  /** While only accounts without the wildcard act, nobody new comes to hold it. */
  lemma {:induction false} RequestsNeverEscalate(run: seq<State>, events: seq<Event>, n: nat)
    requires IsRun(run, events) && Integrity(run[0]) && n <= |events|
    requires forall k :: 0 <= k < |events| ==> events[k].Asked? && events[k].actor !in Holders(run[0])
    ensures Integrity(run[n]) && Holders(run[n]) <= Holders(run[0])
  {
    hide Integrity, Step;
    if n > 0 {
      RequestsNeverEscalate(run, events, n - 1);
      var s, e, t := run[n - 1], events[n - 1], run[n];
      assert Happens(s, e, t);
      assert !Super(s, e.actor);
      StepKeepsIntegrity(s, e.actor, e.req, t, e.reply);
      UsersDoNotEscalate(s, e.actor, e.req, t, e.reply);
    }
  }

  /** The panel has been started once: the super-admin role is wild, and there is an account. */
  predicate Begun(s: State) {
    Integrity(s) && SuperRoleReady(s) && s.users != map[]
  }

  lemma EventDoesNotEscalate(s: State, e: Event, t: State)
    requires Begun(s) && Happens(s, e, t) && (e.Asked? ==> !Super(s, e.actor))
    ensures Begun(t) && Holders(t) <= Holders(s)
  {
    hide Integrity, SuperRoleReady, Step, Holders;
    match e
    case Asked(actor, req, reply) =>
      StepKeepsIntegrity(s, actor, req, t, reply);
      StepKeepsReady(s, actor, req, t, reply);
      StepKeepsSomebody(s, actor, req, t, reply);
      UsersDoNotEscalate(s, actor, req, t, reply);
    case Started(username, password, done) =>
      SeedIsUpkeep();
      hide AllPermissions, DefaultRoles, PerformAll;
      assert SeedWrites(s, username, password) == UpkeepWrites();
      UpkeepAllNoNewHolders(s, UpkeepWrites()[..done]);
  }

  /** The same however often the program is started in between. */
  lemma {:induction false} RunNeverEscalates(run: seq<State>, events: seq<Event>, n: nat)
    requires IsRun(run, events) && Begun(run[0]) && n <= |events|
    requires forall k :: 0 <= k < |events| && events[k].Asked? ==> events[k].actor !in Holders(run[0])
    ensures Begun(run[n]) && Holders(run[n]) <= Holders(run[0])
  {
    hide Begun, Happens;
    if n > 0 {
      RunNeverEscalates(run, events, n - 1);
      EventDoesNotEscalate(run[n - 1], events[n - 1], run[n]);
    }
  }

  // --- Runs nobody recovers from ---

  /** Without a holder of the wildcard, active or not, no run of requests and starts makes one. */
  lemma NoHolderEver(run: seq<State>, events: seq<Event>, n: nat)
    requires IsRun(run, events) && Begun(run[0]) && Holders(run[0]) == {} && n <= |events|
    ensures Holders(run[n]) == {} && !HasSuper(run[n])
  {
    RunNeverEscalates(run, events, n);
    hide Begun, IsRun;
    SuperIsHolder(run[n]);
  }

  lemma SuperIsHolder(s: State)
    ensures HasSuper(s) ==> Holders(s) != {}
  {
    hide Super;
    if HasSuper(s) {
      var u :| u in s.users && ActiveSuper(s, u);
      assert u in Holders(s);
    }
  }

  /** There are accounts, and none has a role or a permission. */
  predicate Powerless(s: State) {
    s.users != map[] && forall u :: u in s.users ==> s.users[u].roles == {} && s.users[u].perms == {}
  }

  lemma EventInVain(s: State, e: Event, t: State)
    requires Integrity(s) && Powerless(s) && Happens(s, e, t)
    ensures Integrity(t) && t.users == s.users && (e.Asked? ==> e.reply.Forbidden?)
  {
    match e
    case Asked(actor, req, reply) =>
      hide Integrity, Decide;
      assert !Admitted(s, actor, req);
    case Started(username, password, done) =>
      SeedIsUpkeep();
      StartWrites(s, username, password);
      hide Integrity, SeedWrites, UpkeepWrites, PerformAll, Upkeep;
      UpkeepKeeps(s, UpkeepWrites()[..done]);
  }

  /** Then every request is refused and no account ever changes. */
  lemma {:induction false} PowerlessForGood(run: seq<State>, events: seq<Event>, n: nat)
    requires IsRun(run, events) && Integrity(run[0]) && Powerless(run[0]) && n <= |events|
    ensures Integrity(run[n]) && run[n].users == run[0].users
    ensures forall k :: 0 <= k < n && events[k].Asked? ==> events[k].reply.Forbidden?
  {
    hide Integrity, Happens;
    if n > 0 {
      PowerlessForGood(run, events, n - 1);
      EventInVain(run[n - 1], events[n - 1], run[n]);
    }
  }

  /** State t is what a first start left that stopped between its last two writes. */
  predicate StoppedShort(s: State, username: string, password: string, t: State) {
    && Integrity(s) && s.users == map[] && Trim(password) != ""
    && var ws := SeedWrites(s, username, password);
       ws != [] && t == PerformAll(s, ws[..|ws| - 1])
  }

  lemma AccountWithoutRole(m: State, username: string)
    requires Integrity(m) && m.users == map[] && SuperRoleReady(m)
    ensures var t := Perform(m, CreateAdmin(username)); Begun(t) && Powerless(t) && Holders(t) == {}
  {
    var t := Perform(m, CreateAdmin(username));
    PerformKeepsIntegrityOfAdmin(m, username);
    var r :| r in m.roles && m.roles[r].name == SUPER_ADMIN && RoleWild(m, r);
    hide Integrity;
    assert m.nextId in t.users;
    assert RoleWild(t, r);
  }

  /** A panel left like that counts as started, and nobody on it holds anything. */
  lemma InterruptedState(s: State, username: string, password: string, t: State)
    requires StoppedShort(s, username, password, t)
    ensures Begun(t) && Powerless(t) && Holders(t) == {}
  {
    var m := PerformAll(s, UpkeepWrites());
    UpkeepSettles(s);
    CatalogHasWildcard();
    SuperRoleIsWild(m);
    AllButTheLast(s, username, password);
    hide Integrity, SuperRoleReady, Begun, Powerless, Holders, SeedWrites, PerformAll, Perform;
    AccountWithoutRole(m, AdminName(username));
  }

  /** Over every run of requests and starts from such a state, whole or interrupted, every
      request is refused, no account changes and nobody becomes a super admin. */
  lemma InterruptedStartLocksForGood(s: State, username: string, password: string,
                                     run: seq<State>, events: seq<Event>, n: nat)
    requires IsRun(run, events) && n <= |events| && StoppedShort(s, username, password, run[0])
    ensures run[n].users == run[0].users && !HasSuper(run[n])
    ensures forall k :: 0 <= k < n && events[k].Asked? ==> events[k].reply.Forbidden?
  {
    InterruptedState(s, username, password, run[0]);
    hide IsRun, Begun, StoppedShort;
    NoHolderEver(run, events, n);
    PowerlessForGood(run, events, n);
  }

  // --- The handlers ---

  class Accounts {
    var s: State
    var failures: nat

    ghost predicate Valid()
      reads this
    {
      Integrity(s)
    }

    constructor ()
      ensures Valid() && s == State(map[], map[], map[], 1)
    {
      s, failures := State(map[], map[], map[], 1), 0;
    }

    /** One write: it happens, or it fails and changes nothing. */
    method Write(next: State) returns (ok: bool)
      requires Valid() && Integrity(next)
      modifies this
      ensures Valid() && s == if ok then next else old(s)
      ensures failures == if ok then old(failures) else old(failures) + 1
    {
      ok := *;
      if ok {
        s := next;
      } else {
        failures := failures + 1;
      }
    }

    /** EffectivePermissions of an account with these roles and direct permissions. */
    method EffectivePermissions(roles: set<nat>, perms: set<nat>) returns (names: set<string>)
      requires roles <= s.roles.Keys && perms <= s.perms.Keys && References(s)
      ensures names == Effective(s, roles, perms)
    {
      NothingEffective(s);
      hide Effective;
      names := {};
      var todo := roles;
      assert roles - todo == {};
      while todo != {}
        invariant todo <= roles && names == Effective(s, roles - todo, {})
        decreases todo
      {
        var r :| r in todo;
        ghost var before := names;
        var granted := s.roles[r].perms;
        assert s.roles[r].perms - granted == {};
        while granted != {}
          invariant granted <= s.roles[r].perms
          invariant names == before + Effective(s, {}, s.roles[r].perms - granted)
          decreases granted
        {
          var p :| p in granted;
          EffectiveWithPerm(s, {}, s.roles[r].perms - granted, p);
          names := names + {s.perms[p]};
          assert s.roles[r].perms - (granted - {p}) == (s.roles[r].perms - granted) + {p};
          granted := granted - {p};
        }
        assert s.roles[r].perms - granted == s.roles[r].perms;
        assert roles - (todo - {r}) == (roles - todo) + {r};
        EffectiveWithRole(s, roles - todo, r);
        todo := todo - {r};
      }
      assert roles - todo == roles;
      var direct := perms;
      assert perms - direct == {};
      while direct != {}
        invariant direct <= perms && names == Effective(s, roles, perms - direct)
        decreases direct
      {
        var p :| p in direct;
        EffectiveWithPerm(s, roles, perms - direct, p);
        names := names + {s.perms[p]};
        assert perms - (direct - {p}) == (perms - direct) + {p};
        direct := direct - {p};
      }
      assert perms - direct == perms;
    }

    /** IsSuperAdmin of an account row. */
    method IsSuperAdmin(roles: set<nat>, perms: set<nat>) returns (super: bool)
      requires roles <= s.roles.Keys && perms <= s.perms.Keys && References(s)
      ensures super <==> Grants(s, roles, perms)
    {
      var names := EffectivePermissions(roles, perms);
      WildcardIsEffective(s, roles, perms);
      super := WILDCARD in names;
    }

    /** dedupeIDs: the wanted ids, each once. */
    static method DedupeIds(ids: seq<nat>) returns (out: seq<nat>)
      ensures Distinct(out) && Members(out) == Wanted(ids) && |out| == |Wanted(ids)|
    {
      var seen: map<nat, bool> := map[];
      out := [];
      for k := 0 to |ids|
        invariant seen.Keys == Wanted(ids[..k]) == Members(out)
        invariant Distinct(out) && |out| == |Wanted(ids[..k])|
      {
        WantedStep(ids, k);
        if ids[k] == 0 || ids[k] in seen {
          continue;
        }
        MembersStep(out, ids[k]);
        seen := seen[ids[k] := true];
        out := out + [ids[k]];
      }
      assert ids[..|ids|] == ids;
    }

    /** Rows found by id. There are as many as ids asked for exactly when every id exists. */
    static lemma CountIsExistence(wanted: set<nat>, keys: set<nat>)
      ensures |wanted * keys| == |wanted| <==> wanted <= keys
    {
      assert wanted == (wanted * keys) + (wanted - keys);
      if wanted <= keys {
        assert wanted * keys == wanted;
      } else {
        var x :| x in wanted && x !in keys;
        assert x in wanted - keys;
      }
    }

    method RoleHasWildcard(r: nat) returns (has: bool)
      requires Valid() && r in s.roles
      ensures has <==> RoleWild(s, r)
    {
      var todo := s.roles[r].perms;
      while todo != {}
        invariant todo <= s.roles[r].perms && !Wild(s, s.roles[r].perms - todo)
        decreases todo
      {
        var p :| p in todo;
        if s.perms[p] == WILDCARD {
          return true;
        }
        todo := todo - {p};
      }
      assert s.roles[r].perms - todo == s.roles[r].perms;
      return false;
    }

    /** resolveRoles, with the count test on the rows found. */
    method ResolveRoles(actor: nat, ids: seq<nat>) returns (roles: set<nat>, reply: Reply)
      requires Valid() && actor in s.users
      ensures reply == RolesReply(s, actor, ids) && !reply.ServerError?
      ensures reply.Success? ==> roles == Wanted(ids)
    {
      var asked := DedupeIds(ids);
      if |asked| == 0 {
        return {}, Success;
      }
      roles := (set i | i in asked) * s.roles.Keys;
      assert (set i | i in asked) == Wanted(ids);
      CountIsExistence(Wanted(ids), s.roles.Keys);
      if |roles| != |asked| {
        return roles, Unprocessable;
      }
      assert roles == Wanted(ids);
      var super := IsSuperAdmin(s.users[actor].roles, s.users[actor].perms);
      var todo := roles;
      while !super && todo != {}
        invariant todo <= roles && !super ==> !AnyRoleWild(s, roles - todo)
        decreases todo
      {
        var r :| r in todo;
        var wild := RoleHasWildcard(r);
        if wild {
          return roles, Forbidden;
        }
        todo := todo - {r};
      }
      assert todo == {} ==> roles - todo == roles;
      return roles, Success;
    }

    /** resolvePermissions. */
    method ResolvePermissions(actor: nat, ids: seq<nat>) returns (perms: set<nat>, reply: Reply)
      requires Valid() && actor in s.users
      ensures reply == PermissionsReply(s, actor, ids) && !reply.ServerError?
      ensures reply.Success? ==> perms == Wanted(ids)
    {
      var asked := DedupeIds(ids);
      if |asked| == 0 {
        return {}, Success;
      }
      perms := (set i | i in asked) * s.perms.Keys;
      assert (set i | i in asked) == Wanted(ids);
      CountIsExistence(Wanted(ids), s.perms.Keys);
      if |perms| != |asked| {
        return perms, Unprocessable;
      }
      assert perms == Wanted(ids);
      var super := IsSuperAdmin(s.users[actor].roles, s.users[actor].perms);
      var todo := perms;
      while !super && todo != {}
        invariant todo <= perms && !super ==> !Wild(s, perms - todo)
        decreases todo
      {
        var p :| p in todo;
        if s.perms[p] == WILDCARD {
          return perms, Forbidden;
        }
        todo := todo - {p};
      }
      assert todo == {} ==> perms - todo == perms;
      return perms, Success;
    }

    /** guardLastSuperAdmin: some other active account must be a super admin. */
    method GuardLastSuperAdmin(id: nat, stillSuper: bool) returns (ok: bool)
      requires Valid() && id in s.users
      ensures ok <==> Guarded(s, id, stillSuper)
    {
      var super := IsSuperAdmin(s.users[id].roles, s.users[id].perms);
      if !super || stillSuper {
        return true;
      }
      var others := set u | u in s.users && s.users[u].active && u != id;
      var todo := others;
      while todo != {}
        invariant todo <= others && forall v :: v in others - todo ==> !Super(s, v)
        decreases todo
      {
        var v :| v in todo;
        super := IsSuperAdmin(s.users[v].roles, s.users[v].perms);
        if super {
          assert ActiveSuper(s, v);
          return true;
        }
        todo := todo - {v};
      }
      assert others - todo == others;
      return false;
    }

    /** Carrying out an accepted request in one write. */
    method Carry(actor: nat, req: Request) returns (reply: Reply)
      requires Valid() && Admitted(s, actor, req) && Decide(s, actor, req) == Success
      modifies this
      ensures Valid() && Step(old(s), actor, req, s, reply)
      ensures failures >= old(failures) && (reply.Success? <==> failures == old(failures))
    {
      StepKeepsIntegrity(s, actor, req, Effect(s, req), Success);
      hide Integrity, Admitted, Decide, Effect;
      var ok := Write(Effect(s, req));
      reply := if ok then Success else ServerError;
    }

    /** Carrying out an accepted replacement: new join rows first, then the others go. */
    method Replace(actor: nat, req: Request) returns (reply: Reply)
      requires Valid() && Admitted(s, actor, req) && Decide(s, actor, req) == Success
      requires req.SetUserRoles? || req.SetUserPermissions? || req.SetRolePermissions?
      modifies this
      ensures Valid() && Step(old(s), actor, req, s, reply)
      ensures failures >= old(failures) && (reply.Success? <==> failures == old(failures))
    {
      StepKeepsIntegrity(s, actor, req, Halfway(s, req), ServerError);
      StepKeepsIntegrity(s, actor, req, Effect(s, req), Success);
      hide Integrity, Admitted, Decide, Effect, Halfway;
      var next := Effect(s, req);
      var ok := Write(Halfway(s, req));
      if ok {
        ok := Write(next);
      }
      reply := if ok then Success else ServerError;
    }

    method CreateUser(actor: nat, username: string, activate: Option<bool>, roleIds: seq<nat>, permIds: seq<nat>)
      returns (reply: Reply)
      requires Valid() && Admitted(s, actor, Request.CreateUser(username, activate, roleIds, permIds))
      modifies this
      ensures Valid() && Step(old(s), actor, Request.CreateUser(username, activate, roleIds, permIds), s, reply)
      ensures reply.ServerError? <==> failures > old(failures)
    {
      hide Integrity, RolesReply, PermissionsReply, Effect;
      var roles, perms;
      roles, reply := ResolveRoles(actor, roleIds);
      if !reply.Success? {
        return;
      }
      perms, reply := ResolvePermissions(actor, permIds);
      if !reply.Success? {
        return;
      }
      if UsernameTaken(s, Trim(username)) {
        return Conflict;
      }
      reply := Carry(actor, Request.CreateUser(username, activate, roleIds, permIds));
    }

    method UpdateUser(actor: nat, id: nat, activate: Option<bool>) returns (reply: Reply)
      requires Valid() && Admitted(s, actor, Request.UpdateUser(id, activate))
      modifies this
      ensures Valid() && Step(old(s), actor, Request.UpdateUser(id, activate), s, reply)
      ensures reply.ServerError? <==> failures > old(failures)
    {
      hide Integrity, Guarded, Effect, Admitted;
      if id !in s.users {
        return NotFound;
      }
      if activate == Some(false) {
        if id == actor {
          return Conflict;
        }
        var ok := GuardLastSuperAdmin(id, false);
        if !ok {
          return Conflict;
        }
      }
      reply := Carry(actor, Request.UpdateUser(id, activate));
    }

    method DeleteUser(actor: nat, id: nat) returns (reply: Reply)
      requires Valid() && Admitted(s, actor, Request.DeleteUser(id))
      modifies this
      ensures Valid() && Step(old(s), actor, Request.DeleteUser(id), s, reply)
      ensures reply.ServerError? <==> failures > old(failures)
    {
      hide Integrity, Guarded, Effect, Admitted;
      if id !in s.users {
        return NotFound;
      }
      if id == actor {
        return Conflict;
      }
      var ok := GuardLastSuperAdmin(id, false);
      if !ok {
        return Conflict;
      }
      reply := Carry(actor, Request.DeleteUser(id));
    }

    method SetUserRoles(actor: nat, id: nat, ids: seq<nat>) returns (reply: Reply)
      requires Valid() && Admitted(s, actor, Request.SetUserRoles(id, ids))
      modifies this
      ensures Valid() && Step(old(s), actor, Request.SetUserRoles(id, ids), s, reply)
      ensures reply.ServerError? <==> failures > old(failures)
    {
      if id !in s.users {
        return NotFound;
      }
      var roles;
      roles, reply := ResolveRoles(actor, ids);
      if !reply.Success? {
        return;
      }
      var still := IsSuperAdmin(roles, s.users[id].perms);
      var ok := GuardLastSuperAdmin(id, still);
      if !ok {
        return Conflict;
      }
      hide Integrity, Guarded, RolesReply, Effect, Admitted;
      reply := Replace(actor, Request.SetUserRoles(id, ids));
    }

    method SetUserPermissions(actor: nat, id: nat, ids: seq<nat>) returns (reply: Reply)
      requires Valid() && Admitted(s, actor, Request.SetUserPermissions(id, ids))
      modifies this
      ensures Valid() && Step(old(s), actor, Request.SetUserPermissions(id, ids), s, reply)
      ensures reply.ServerError? <==> failures > old(failures)
    {
      if id !in s.users {
        return NotFound;
      }
      var perms;
      perms, reply := ResolvePermissions(actor, ids);
      if !reply.Success? {
        return;
      }
      var still := IsSuperAdmin(s.users[id].roles, perms);
      var ok := GuardLastSuperAdmin(id, still);
      if !ok {
        return Conflict;
      }
      hide Integrity, Guarded, PermissionsReply, Effect, Admitted;
      reply := Replace(actor, Request.SetUserPermissions(id, ids));
    }

    method CreateRole(actor: nat, name: string, ids: seq<nat>) returns (reply: Reply)
      requires Valid() && Admitted(s, actor, Request.CreateRole(name, ids))
      modifies this
      ensures Valid() && Step(old(s), actor, Request.CreateRole(name, ids), s, reply)
      ensures reply.ServerError? <==> failures > old(failures)
    {
      hide Integrity, PermissionsReply, Effect;
      var perms;
      perms, reply := ResolvePermissions(actor, ids);
      if !reply.Success? {
        return;
      }
      if RoleNameTaken(s, Trim(name), 0) {
        return Conflict;
      }
      reply := Carry(actor, Request.CreateRole(name, ids));
    }

    method RenameRole(actor: nat, id: nat, name: string) returns (reply: Reply)
      requires Valid() && Admitted(s, actor, Request.RenameRole(id, name))
      modifies this
      ensures Valid() && Step(old(s), actor, Request.RenameRole(id, name), s, reply)
      ensures reply.ServerError? <==> failures > old(failures)
    {
      hide Integrity, Effect, Admitted;
      if id !in s.roles {
        return NotFound;
      }
      if s.roles[id].name == SUPER_ADMIN && Trim(name) != SUPER_ADMIN {
        return Conflict;
      }
      if RoleNameTaken(s, Trim(name), id) {
        return Conflict;
      }
      reply := Carry(actor, Request.RenameRole(id, name));
    }

    method DeleteRole(actor: nat, id: nat) returns (reply: Reply)
      requires Valid() && Admitted(s, actor, Request.DeleteRole(id))
      modifies this
      ensures Valid() && Step(old(s), actor, Request.DeleteRole(id), s, reply)
      ensures reply.ServerError? <==> failures > old(failures)
    {
      hide Integrity, Effect, Admitted;
      if id !in s.roles {
        return NotFound;
      }
      if s.roles[id].name == SUPER_ADMIN {
        return Conflict;
      }
      reply := Carry(actor, Request.DeleteRole(id));
    }

    method SetRolePermissions(actor: nat, id: nat, ids: seq<nat>) returns (reply: Reply)
      requires Valid() && Admitted(s, actor, Request.SetRolePermissions(id, ids))
      modifies this
      ensures Valid() && Step(old(s), actor, Request.SetRolePermissions(id, ids), s, reply)
      ensures reply.ServerError? <==> failures > old(failures)
    {
      hide Integrity, PermissionsReply, Effect;
      if id !in s.roles {
        return NotFound;
      }
      if s.roles[id].name == SUPER_ADMIN {
        return Conflict;
      }
      var perms;
      perms, reply := ResolvePermissions(actor, ids);
      if !reply.Success? {
        return;
      }
      reply := Replace(actor, Request.SetRolePermissions(id, ids));
    }

    /** Auth and RequirePermission. */
    method Admit(actor: nat, req: Request) returns (ok: bool)
      requires Valid()
      ensures ok <==> Admitted(s, actor, req)
    {
      if actor !in s.users || !s.users[actor].active {
        return false;
      }
      var names := EffectivePermissions(s.users[actor].roles, s.users[actor].perms);
      ok := WILDCARD in names || Required(req) in names;
    }

    method Handle(actor: nat, req: Request) returns (reply: Reply)
      requires Valid()
      modifies this
      ensures Valid() && Step(old(s), actor, req, s, reply)
      ensures reply.ServerError? <==> failures > old(failures)
    {
      hide Integrity, Admitted, Decide, Effect, Halfway;
      var ok := Admit(actor, req);
      if !ok {
        return Forbidden;
      }
      match req {
        case CreateUser(username, activate, roleIds, permIds) =>
          reply := CreateUser(actor, username, activate, roleIds, permIds);
        case UpdateUser(id, activate) => reply := UpdateUser(actor, id, activate);
        case DeleteUser(id) => reply := DeleteUser(actor, id);
        case SetUserRoles(id, ids) => reply := SetUserRoles(actor, id, ids);
        case SetUserPermissions(id, ids) => reply := SetUserPermissions(actor, id, ids);
        case CreateRole(name, ids) => reply := CreateRole(actor, name, ids);
        case RenameRole(id, name) => reply := RenameRole(actor, id, name);
        case DeleteRole(id) => reply := DeleteRole(actor, id);
        case SetRolePermissions(id, ids) => reply := SetRolePermissions(actor, id, ids);
      }
    }

    // --- Seeding ---

    method Bring(w: Write) returns (ok: bool)
      requires Valid() && Upkeep(w)
      modifies this
      ensures Valid() && s == if ok then Perform(old(s), w) else old(s)
    {
      UpkeepKeepsIntegrity(s, w);
      ok := Write(Perform(s, w));
    }

    /** seedPermissions. */
    method SeedPermissions() returns (ok: bool, ghost log: seq<Seeding.Write>)
      requires Valid()
      modifies this
      ensures Valid() && s == PerformAll(old(s), log) && log <= PermissionWrites(AllPermissions())
      ensures ok <==> log == PermissionWrites(AllPermissions())
    {
      hide Integrity, Perform, AllPermissions;
      var names := AllPermissions();
      log := [];
      for i := 0 to |names|
        invariant Valid() && s == PerformAll(old(s), log) && log == PermissionWrites(names)[..i]
      {
        ok := Bring(UpsertPermission(names[i]));
        if !ok {
          return;
        }
        log := Extended(old(s), log, UpsertPermission(names[i]));
      }
      ok := true;
    }

    /** One turn of seedRoles: the role, then its permissions replaced. */
    method RefreshRole(def: RoleDef) returns (ok: bool, ghost log: seq<Seeding.Write>)
      requires Valid() && (WILDCARD in def.perms <==> def.name == SUPER_ADMIN)
      modifies this
      ensures Valid() && s == PerformAll(old(s), log) && log <= Refresh(def)
      ensures ok <==> log == Refresh(def)
    {
      hide Integrity, Perform;
      log := [];
      ok := Bring(UpsertRole(def.name));
      if !ok {
        return;
      }
      log := Extended(old(s), log, UpsertRole(def.name));
      ok := Bring(WidenRole(def));
      if !ok {
        return;
      }
      log := Extended(old(s), log, WidenRole(def));
      ok := Bring(NarrowRole(def));
      if !ok {
        return;
      }
      log := Extended(old(s), log, NarrowRole(def));
    }

    /** seedRoles: each default role is brought in line with the catalog. */
    method SeedRoles() returns (ok: bool, ghost log: seq<Seeding.Write>)
      requires Valid()
      modifies this
      ensures Valid() && s == PerformAll(old(s), log) && log <= RoleWrites(DefaultRoles())
      ensures ok <==> log == RoleWrites(DefaultRoles())
    {
      DefaultsAreWellDefined();
      hide Integrity, Perform, DefaultRoles, Refresh;
      var defs := DefaultRoles();
      log := [];
      for i := 0 to |defs|
        invariant Valid() && s == PerformAll(old(s), log) && log == RoleWrites(defs[..i])
      {
        RoleWritesGrow(defs, i);
        ghost var turn;
        ok, turn := RefreshRole(defs[i]);
        PerformConcat(old(s), log, turn);
        log := log + turn;
        if !ok {
          return;
        }
      }
      assert defs[..|defs|] == defs;
      ok := true;
    }

    /** bootstrapAdmin. */
    method BootstrapAdmin(username: string, password: string) returns (ok: bool, ghost log: seq<Seeding.Write>)
      requires Valid()
      modifies this
      ensures Valid() && s == PerformAll(old(s), log) && log <= AdminWrites(old(s.users) == map[], username, password)
      ensures ok <==> log == AdminWrites(old(s.users) == map[], username, password)
    {
      log := [];
      if |s.users| > 0 || Trim(password) == "" {
        return true, log;
      }
      var name := AdminName(username);
      AddUserKeeps(s, User(name, true, {}, {}));
      ok := Write(Perform(s, CreateAdmin(name)));
      if !ok {
        return;
      }
      log := Extended(old(s), log, CreateAdmin(name));
      GrantKeepsIntegrity(s, name);
      ok := Write(Perform(s, GrantSuper(name)));
      if ok {
        log := Extended(old(s), log, GrantSuper(name));
      }
    }

    /** Seed: on success the complete seed, on failure its first writes. */
    method Seed(username: string, password: string) returns (ok: bool, ghost done: nat)
      requires Valid()
      modifies this
      ensures Valid() && done <= |SeedWrites(old(s), username, password)|
      ensures s == PerformAll(old(s), SeedWrites(old(s), username, password)[..done])
      ensures ok ==> s == Seeded(old(s), username, password)
    {
      SeedIsUpkeep();
      hide Integrity, Perform, AllPermissions, DefaultRoles, AllUpkeep;
      ghost var all := SeedWrites(s, username, password);
      ghost var first, second, third, log;
      ok, first := SeedPermissions();
      log := first;
      if ok {
        ok, second := SeedRoles();
        PerformConcat(old(s), first, second);
        log := first + second;
        if ok {
          UpkeepKeeps(old(s), UpkeepWrites());
          ok, third := BootstrapAdmin(username, password);
          PerformConcat(old(s), first + second, third);
          log := first + second + third;
        }
      }
      assert log <= all && (ok ==> log == all);
      done := |log|;
      assert all[..done] == log;
    }

    /** What the handlers do, one after another, is a run. */
    method Serve(inputs: seq<Input>) returns (ghost run: seq<State>, ghost events: seq<Event>)
      requires Valid()
      modifies this
      ensures Valid() && IsRun(run, events) && |events| == |inputs| && run[0] == old(s) && run[|events|] == s
    {
      hide Integrity, Step, PerformAll, SeedWrites;
      run, events := [s], [];
      for i := 0 to |inputs|
        invariant Valid() && IsRun(run, events) && |events| == i && run[0] == old(s) && run[i] == s
      {
        ghost var event;
        match inputs[i] {
          case Ask(actor, req) =>
            var reply := Handle(actor, req);
            event := Asked(actor, req, reply);
          case Start(username, password) =>
            var _, done := Seed(username, password);
            event := Started(username, password, done);
        }
        RunGrows(run, events, event, s);
        run, events := run + [s], events + [event];
      }
    }
  }

  /** The log with one more write carried out. */
  ghost function Extended(s: State, log: seq<Write>, w: Write): (longer: seq<Write>)
    ensures longer == log + [w] && PerformAll(s, longer) == Perform(PerformAll(s, log), w)
  {
    assert (log + [w])[..|log|] == log;
    log + [w]
  }

  lemma {:induction false} RoleWritesGrow(defs: seq<RoleDef>, i: nat)
    requires i < |defs|
    ensures RoleWrites(defs[..i + 1]) == RoleWrites(defs[..i]) + Refresh(defs[i])
    ensures RoleWrites(defs[..i]) + Refresh(defs[i]) <= RoleWrites(defs)
    decreases |defs|
  {
    assert defs[..i + 1][..i] == defs[..i];
    if i + 1 < |defs| {
      var n := |defs| - 1;
      RoleWritesGrow(defs[..n], i);
      assert defs[..n][..i] == defs[..i] && defs[..n][..i + 1] == defs[..i + 1];
    } else {
      assert defs[..i + 1] == defs;
    }
  }

  lemma GrantKeepsIntegrity(s: State, username: string)
    requires Integrity(s)
    ensures Integrity(Perform(s, GrantSuper(username)))
  {
    var t := Perform(s, GrantSuper(username));
    assert forall u ::
        u in t.users ==> t.users[u].username == s.users[u].username && t.users[u].perms == s.users[u].perms
                                        && t.users[u].roles <= s.users[u].roles + RolesNamed(s, SUPER_ADMIN);
  }

  predicate Distinct(ids: seq<nat>) {
    forall i, j :: 0 <= i < j < |ids| ==> ids[i] != ids[j]
  }

  function Members(ids: seq<nat>): set<nat> {
    set i | i in ids
  }

  lemma WantedStep(ids: seq<nat>, k: nat)
    requires k < |ids|
    ensures Wanted(ids[..k + 1]) == Wanted(ids[..k]) + (if ids[k] == 0 then {} else {ids[k]})
    ensures ids[k] in Wanted(ids[..k]) ==> Wanted(ids[..k + 1]) == Wanted(ids[..k])
  {
    assert ids[..k + 1] == ids[..k] + [ids[k]];
  }

  lemma MembersStep(ids: seq<nat>, id: nat)
    requires Distinct(ids) && id !in Members(ids)
    ensures Distinct(ids + [id]) && Members(ids + [id]) == Members(ids) + {id}
  {
  }

  lemma NothingEffective(s: State)
    ensures Effective(s, {}, {}) == {}
  {
  }

  lemma EffectiveWithPerm(s: State, roles: set<nat>, perms: set<nat>, p: nat)
    requires p in s.perms
    ensures Effective(s, roles, perms + {p}) == Effective(s, roles, perms) + {s.perms[p]}
  {
  }

  lemma EffectiveWithRole(s: State, roles: set<nat>, r: nat)
    requires r in s.roles
    ensures Effective(s, roles + {r}, {}) == Effective(s, roles, {}) + Effective(s, {}, s.roles[r].perms)
  {
  }
}
