/** What every run of the account state machine keeps. */
module AccountInvariants {
  import opened Options
  import opened Accounts

  // ---- The invariant ---------------------------------------------------------------

  /** What one user row must satisfy. */
  ghost predicate ProperUser(s: State, i: nat)
    requires i in s.users
  {
    var u := s.users[i];
    && u.id == i < s.nextUser
    && (u.userType == SUPER_ADMIN <==> u.username == ROOT_NAME)
    && (u.userType == SUPER_ADMIN ==> u.tenant == None)
    && (u.userType == TENANT_ADMIN ==> u.tenant.Some?)
    && (u.tenant.Some? ==> u.tenant.value in s.tenants)
  }

  ghost predicate Clash(users: Users, i: nat, j: nat) {
    && i in users && j in users
    && (users[i].username == users[j].username
        || users[i].email == users[j].email
        || (users[i].userType == TENANT_ADMIN && users[j].userType == TENANT_ADMIN && users[i].tenant == users[j].tenant))
  }

  /** Usernames and emails are unique and no tenant has two administrators. */
  ghost predicate NoClash(users: Users) {
    forall i, j {:trigger Clash(users, i, j)} :: Clash(users, i, j) ==> i == j
  }

  ghost predicate ShareName(tenants: Tenants, i: nat, j: nat) {
    i in tenants && j in tenants && tenants[i].name == tenants[j].name
  }

  ghost predicate ProperTenants(s: State) {
    && (forall t {:trigger s.tenants[t]} :: t in s.tenants ==> s.tenants[t].id == t < s.nextTenant)
    && (forall i, j {:trigger ShareName(s.tenants, i, j)} :: ShareName(s.tenants, i, j) ==> i == j)
  }

  /** A resource belongs to a tenant that was created once, alive or not, or to nobody. */
  ghost predicate ProperResources(s: State) {
    forall r {:trigger s.resources[r]} :: r in s.resources ==>
      s.resources[r].id == r < s.nextResource && (s.resources[r].tenant.Some? ==> s.resources[r].tenant.value < s.nextTenant)
  }

  ghost predicate ProperUsers(s: State) {
    forall i {:trigger ProperUser(s, i)} :: i in s.users ==> ProperUser(s, i)
  }

  ghost predicate HasRoot(users: Users) {
    exists i :: i in users && users[i].username == ROOT_NAME
  }

  ghost predicate Inv(s: State) {
    ProperUsers(s) && NoClash(s.users) && ProperTenants(s) && ProperResources(s) && HasRoot(s.users)
  }

  // ---- Every request keeps it ----------------------------------------------------------

  lemma AddUserKeeps(s: State, u: User)
    requires ProperUsers(s) && NoClash(s.users)
    requires !UsernameTaken(s.users, u.username) && !EmailTaken(s.users, u.email, None)
    requires u.userType != SUPER_ADMIN <==> u.username != ROOT_NAME
    requires u.userType == SUPER_ADMIN ==> u.tenant == None
    requires u.userType == TENANT_ADMIN ==>
               u.tenant.Some? && forall i :: i in s.users && s.users[i].userType == TENANT_ADMIN ==> s.users[i].tenant != u.tenant
    requires u.tenant.Some? ==> u.tenant.value in s.tenants
    ensures ProperUsers(AddUser(s, u)) && NoClash(AddUser(s, u).users)
    ensures HasRoot(s.users) || u.username == ROOT_NAME ==> HasRoot(AddUser(s, u).users)
  {
    var s' := AddUser(s, u);
    assert s.nextUser in s.users ==> ProperUser(s, s.nextUser);
    forall i | i in s'.users ensures ProperUser(s', i) {
      if i != s.nextUser {
        assert ProperUser(s, i);
      }
    }
    forall i, j | Clash(s'.users, i, j) ensures i == j {
      if i != s.nextUser && j != s.nextUser {
        assert Clash(s.users, i, j);
      }
    }
    if HasRoot(s.users) {
      var i :| i in s.users && s.users[i].username == ROOT_NAME;
      assert i in s'.users && s'.users[i].username == ROOT_NAME;
    } else {
      assert s.nextUser in s'.users;
    }
  }

  lemma RegisterKeeps(s: State, req: UserRequest)
    requires Inv(s)
    ensures Inv(RegisterStep(s, req))
  {
    var s' := RegisterStep(s, req);
    if s' != s {
      AddUserKeeps(s, User(0, req.username, req.email, req.hash.value, req.fullName, true, PLAIN_USER, None, false));
    }
  }

  lemma CreateUserKeeps(s: State, req: UserRequest, actor: nat)
    requires Inv(s)
    ensures Inv(CreateUserStep(s, req, actor))
  {
    var s' := CreateUserStep(s, req, actor);
    if s' != s {
      assert ProperUser(s, actor);
      AddUserKeeps(s, User(0, req.username, req.email, req.hash.value, req.fullName, true, PLAIN_USER, s.users[actor].tenant, false));
    }
  }

  lemma UpdateUserKeeps(s: State, target: nat, change: UserUpdate, actor: nat)
    requires Inv(s)
    ensures Inv(UpdateUserStep(s, target, change, actor))
  {
    var s' := UpdateUserStep(s, target, change, actor);
    if UpdateAllowed(s, target, change, actor) {
      assert ProperUser(s, target) && ProperUser(s, actor);
      forall i | i in s'.users ensures ProperUser(s', i) {
        assert ProperUser(s, i);
      }
      forall i, j | Clash(s'.users, i, j) ensures i == j {
        if (i != target && j != target) || s'.users[i].email != s'.users[j].email {
          assert Clash(s.users, i, j);
        }
      }
      var r :| r in s.users && s.users[r].username == ROOT_NAME;
      assert r in s'.users && s'.users[r].username == ROOT_NAME;
    }
  }

  lemma FewerUsersKeep(s: State, users: Users)
    requires ProperUsers(s) && NoClash(s.users)
    requires forall i :: i in users ==> i in s.users && users[i] == s.users[i]
    requires forall i :: i in s.users && s.users[i].username == ROOT_NAME ==> i in users
    ensures HasRoot(s.users) ==> HasRoot(users)
    ensures NoClash(users)
    ensures forall i :: i in users ==> ProperUser(s, i)
  {
    forall i, j | Clash(users, i, j) ensures i == j {
      assert Clash(s.users, i, j);
    }
    if HasRoot(s.users) {
      var r :| r in s.users && s.users[r].username == ROOT_NAME;
      assert r in users && users[r].username == ROOT_NAME;
    }
  }

  lemma DeleteUserKeeps(s: State, target: nat, actor: nat)
    requires Inv(s)
    ensures Inv(DeleteUserStep(s, target, actor))
  {
    var s' := DeleteUserStep(s, target, actor);
    if s' != s {
      FewerUsersKeep(s, s'.users);
      forall i | i in s'.users ensures ProperUser(s', i) {
        assert ProperUser(s, i);
      }
    }
  }

  lemma CreateTenantKeeps(s: State, req: TenantRequest, actor: nat)
    requires Inv(s)
    ensures Inv(CreateTenantStep(s, req, actor))
  {
    hide AddUser;
    if CreateTenantAllowed(s, req, actor) {
      var t := s.nextTenant;
      var s1 := s.(tenants := s.tenants[t := Tenant(t, req.name, req.description, true)], nextTenant := t + 1);
      TenantAdded(s, Tenant(t, req.name, req.description, true));
      var admin := User(0, req.adminUsername, req.adminEmail, req.adminHash.value, req.adminFullName, true, TENANT_ADMIN, Some(t), false);
      RootNameTaken(s, req.adminUsername);
      AddUserKeeps(s1, admin);
      UserAdded(s1, admin);
    }
  }

  lemma TenantAdded(s: State, tenant: Tenant)
    requires Inv(s) && tenant.id == s.nextTenant && !TenantNameTaken(s.tenants, tenant.name, None)
    ensures var s1 := s.(tenants := s.tenants[s.nextTenant := tenant], nextTenant := s.nextTenant + 1);
            && ProperUsers(s1) && NoClash(s1.users) && ProperTenants(s1) && ProperResources(s1) && HasRoot(s1.users)
            && forall i :: i in s1.users ==> s1.users[i].tenant != Some(s.nextTenant)
  {
    hide NoClash, HasRoot;
    var t := s.nextTenant;
    var s1 := s.(tenants := s.tenants[t := tenant], nextTenant := t + 1);
    assert t !in s.tenants;
    forall i | i in s1.users ensures ProperUser(s1, i) && s1.users[i].tenant != Some(t) {
      assert ProperUser(s, i);
    }
    forall i, j | ShareName(s1.tenants, i, j) ensures i == j {
      if i != t && j != t {
        assert ShareName(s.tenants, i, j);
      }
    }
  }

  lemma RootNameTaken(s: State, name: string)
    requires Inv(s) && !UsernameTaken(s.users, name)
    ensures name != ROOT_NAME
  {
  }

  lemma UserAdded(s: State, u: User)
    requires ProperTenants(s) && ProperResources(s)
    ensures ProperTenants(AddUser(s, u)) && ProperResources(AddUser(s, u))
  {
  }

  lemma UpdateTenantKeeps(s: State, target: nat, change: TenantUpdate, actor: nat)
    requires Inv(s)
    ensures Inv(UpdateTenantStep(s, target, change, actor))
  {
    var s' := UpdateTenantStep(s, target, change, actor);
    if s' != s {
      forall i | i in s'.users ensures ProperUser(s', i) {
        assert ProperUser(s, i);
      }
      forall i, j | ShareName(s'.tenants, i, j) ensures i == j {
        if i != target && j != target {
          assert ShareName(s.tenants, i, j);
        }
      }
    }
  }

  lemma DeleteTenantKeeps(s: State, target: nat, actor: nat)
    requires Inv(s)
    ensures Inv(DeleteTenantStep(s, target, actor))
  {
    var s' := DeleteTenantStep(s, target, actor);
    if s' != s {
      forall i | i in s.users && s.users[i].username == ROOT_NAME ensures i in s'.users {
        assert ProperUser(s, i);
      }
      FewerUsersKeep(s, s'.users);
      forall i | i in s'.users ensures ProperUser(s', i) {
        assert ProperUser(s, i);
      }
      forall i, j | ShareName(s'.tenants, i, j) ensures i == j {
        assert ShareName(s.tenants, i, j);
      }
    }
  }

  /** Only resources differ. */
  lemma ResourcesChanged(s: State, s': State)
    requires Inv(s) && s'.users == s.users && s'.tenants == s.tenants && s'.nextUser == s.nextUser && s'.nextTenant == s.nextTenant
    requires ProperResources(s')
    ensures Inv(s')
  {
    forall i | i in s'.users ensures ProperUser(s', i) {
      assert ProperUser(s, i);
    }
    assert forall i, j {:trigger ShareName(s'.tenants, i, j)} :: ShareName(s'.tenants, i, j) ==> ShareName(s.tenants, i, j);
  }

  lemma ResourceStepKeeps(s: State, op: Op)
    requires Inv(s) && (op.CreateResource? || op.UpdateResource? || op.DeleteResource?)
    ensures Inv(Step(s, op))
  {
    var s' := Step(s, op);
    if op.CreateResource? && s' != s {
      assert ProperUser(s, op.actor);
    }
    ResourcesChanged(s, s');
  }

  lemma SkipKeeps(s: State, users: nat, tenants: nat, resources: nat)
    requires Inv(s)
    ensures Inv(SkipStep(s, users, tenants, resources))
  {
    var s' := SkipStep(s, users, tenants, resources);
    forall i | i in s'.users ensures ProperUser(s', i) {
      assert ProperUser(s, i);
    }
    assert forall i, j {:trigger ShareName(s'.tenants, i, j)} :: ShareName(s'.tenants, i, j) ==> ShareName(s.tenants, i, j);
  }

  /** Where the root account is in order `InitSuperAdmin` changes nothing. */
  lemma InitKeeps(s: State, rootHash: Option<string>)
    requires Inv(s)
    ensures InitStep(s, rootHash) == s
  {
    var r :| r in s.users && s.users[r].username == ROOT_NAME;
    assert r in RootIds(s.users);
    forall i | i in s.users ensures InitStep(s, rootHash).users[i] == s.users[i] {
      assert ProperUser(s, i);
    }
    assert InitStep(s, rootHash).users == s.users;
  }

  lemma StepKeeps(s: State, op: Op)
    requires Inv(s)
    ensures Inv(Step(s, op))
  {
    hide Inv, InitStep, RegisterStep, CreateUserStep, UpdateUserStep, DeleteUserStep, CreateTenantStep, UpdateTenantStep, DeleteTenantStep,
      CreateResourceStep, UpdateResourceStep, DeleteResourceStep, SkipStep;
    match op {
      case InitSuperAdmin(rootHash) => InitKeeps(s, rootHash);
      case Register(req) => RegisterKeeps(s, req);
      case CreateUser(req, actor) => CreateUserKeeps(s, req, actor);
      case UpdateUser(target, change, actor) => UpdateUserKeeps(s, target, change, actor);
      case DeleteUser(target, actor) => DeleteUserKeeps(s, target, actor);
      case CreateTenant(req, actor) => CreateTenantKeeps(s, req, actor);
      case UpdateTenant(target, change, actor) => UpdateTenantKeeps(s, target, change, actor);
      case DeleteTenant(target, actor) => DeleteTenantKeeps(s, target, actor);
      case CreateResource(req, actor) => ResourceStepKeeps(s, op);
      case UpdateResource(target, change, actor) => ResourceStepKeeps(s, op);
      case DeleteResource(target, actor) => ResourceStepKeeps(s, op);
      case SkipIds(users, tenants, resources) => SkipKeeps(s, users, tenants, resources);
    }
  }

  /** In every state that any run of requests reaches from the first start of the system, the account SuperAdmin exists, is
      the only super administrator and has no tenant; tenant administrators have a live tenant, one at most for each; every
      user's tenant is alive; usernames, emails and tenant names are unique. */
  lemma {:induction false} RunKeeps(hash: string, ops: seq<Op>)
    ensures Inv(Run(Step(EMPTY, InitSuperAdmin(Some(hash))), ops))
  {
    var s := Step(EMPTY, InitSuperAdmin(Some(hash)));
    if ops == [] {
      assert RootIds(EMPTY.users) == {};
      AddUserKeeps(EMPTY, User(0, ROOT_NAME, ROOT_EMAIL, hash, ROOT_FULL_NAME, true, SUPER_ADMIN, None, true));
    } else {
      RunKeeps(hash, ops[..|ops| - 1]);
      StepKeeps(Run(s, ops[..|ops| - 1]), ops[|ops| - 1]);
    }
  }
}
