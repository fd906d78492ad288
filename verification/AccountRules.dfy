/** What an accepted request writes, column by column, and who may make which request in a reachable state. */
module AccountRules {
  import opened Options
  import opened Accounts
  import opened AccountInvariants

  // ---- What is written ------------------------------------------------------------------

  /** Row id is there afterwards, and every other row is as it was. */
  ghost predicate OnlyRowAt<T>(before: map<nat, T>, after: map<nat, T>, id: nat) {
    && id in after
    && forall i {:trigger i in before} {:trigger i in after} :: i != id ==> (i in after <==> i in before) && (i in before ==> after[i] == before[i])
  }

  /** Exactly these rows have gone, and every other is as it was. */
  ghost predicate RowsGone<T>(before: map<nat, T>, after: map<nat, T>, gone: set<nat>) {
    forall i {:trigger i in before} {:trigger i in after} ::
      (i in after <==> i in before && i !in gone) && (i in after ==> after[i] == before[i])
  }

  /** A column holds what was asked for, or else what it held. */
  predicate Carries<T(==)>(asked: Option<T>, before: T, after: T) {
    after == match asked case Some(x) => x case None => before
  }

  /** The columns of a new account. */
  predicate IsAccount(u: User, id: nat, req: UserRequest, userType: string, tenant: Option<nat>) {
    && u.id == id && u.username == req.username && u.email == req.email && req.hash == Some(u.passwordHash) && u.fullName == req.fullName
    && u.isActive && u.userType == userType && u.tenant == tenant && (u.isSuperuser <==> userType == SUPER_ADMIN)
  }

  /** The columns of an updated account. */
  predicate IsUpdatedAccount(before: User, after: User, change: UserUpdate, byAdministrator: bool) {
    && Carries(change.email, before.email, after.email) && Carries(change.fullName, before.fullName, after.fullName)
    && (match change.hash case Some(hash) => hash == Some(after.passwordHash) case None => after.passwordHash == before.passwordHash)
    && (if byAdministrator then
          && Carries(change.isActive, before.isActive, after.isActive) && Carries(change.userType, before.userType, after.userType)
          && (if change.userType.Some? then after.isSuperuser <==> change.userType == Some(SUPER_ADMIN)
              else after.isSuperuser == before.isSuperuser)
        else after.isActive == before.isActive && after.userType == before.userType && after.isSuperuser == before.isSuperuser)
    && after.id == before.id && after.username == before.username && after.tenant == before.tenant
  }

  predicate IsUpdatedTenant(before: Tenant, after: Tenant, change: TenantUpdate) {
    && Carries(change.name, before.name, after.name) && Carries(change.description, before.description, after.description)
    && Carries(change.isActive, before.isActive, after.isActive) && after.id == before.id
  }

  predicate IsNewResource(r: Resource, id: nat, req: ResourceRequest, createdBy: nat, tenant: Option<nat>) {
    && r.id == id && r.name == req.name && r.resourceType == req.resourceType && req.encrypted == Some(r.connection)
    && r.description == req.description && r.createdBy == createdBy && r.tenant == tenant && r.isActive
  }

  predicate IsUpdatedResource(before: Resource, after: Resource, change: ResourceUpdate) {
    && Carries(change.name, before.name, after.name) && Carries(change.description, before.description, after.description)
    && Carries(change.isActive, before.isActive, after.isActive)
    && (match change.encrypted case Some(c) => c == Some(after.connection) case None => after.connection == before.connection)
    && after.id == before.id && after.resourceType == before.resourceType && after.createdBy == before.createdBy && after.tenant == before.tenant
  }

  /** In a reachable state the rows that requests add are new ones. */
  lemma NextIdsAreNew(s: State)
    requires Inv(s)
    ensures s.nextUser !in s.users && s.nextTenant !in s.tenants && s.nextResource !in s.resources
  {
    assert s.nextUser in s.users ==> ProperUser(s, s.nextUser);
  }

  /** The root account, as the start of the system leaves it. */
  predicate IsStartedRoot(before: Option<User>, after: User, id: nat, hash: Option<string>) {
    && after.id == id && after.username == ROOT_NAME && after.userType == SUPER_ADMIN
    && match before
       case None =>
         && after.email == ROOT_EMAIL && hash == Some(after.passwordHash) && after.fullName == ROOT_FULL_NAME
         && after.isActive && after.isSuperuser && after.tenant == None
       case Some(u) =>
         && after.email == u.email && after.passwordHash == u.passwordHash && after.fullName == u.fullName && after.isActive == u.isActive
         && if u.userType == SUPER_ADMIN then after == u else after.isSuperuser && after.tenant == None
  }

  // ---- Who may do what --------------------------------------------------------------------

  predicate IsRoot(s: State, i: nat) {
    i in s.users && s.users[i].username == ROOT_NAME
  }

  /** The administrator of the tenant that account target belongs to. */
  predicate Administers(s: State, actor: nat, target: nat) {
    && actor in s.users && target in s.users && s.users[actor].userType == TENANT_ADMIN
    && s.users[target].tenant.Some? && s.users[target].tenant == s.users[actor].tenant
  }

  lemma OneAdministrator(s: State, actor: nat, target: nat)
    requires Inv(s) && Administers(s, actor, target)
    ensures s.users[target].userType == TENANT_ADMIN <==> target == actor
    ensures s.users[target].id == target && s.users[actor].id == actor
  {
    assert ProperUser(s, actor) && ProperUser(s, target);
    if s.users[target].userType == TENANT_ADMIN {
      assert Clash(s.users, actor, target);
    }
  }

  /** In a reachable state an account is deleted by the root, or by the administrator of its tenant; never the root's, and never the
      administrator's own. */
  lemma WhoMayDelete(s: State, target: nat, actor: nat)
    requires Inv(s)
    ensures Accepts(s, DeleteUser(target, actor)) <==>
              && target in s.users && actor in s.users && !IsRoot(s, target)
              && (IsRoot(s, actor) || (Administers(s, actor, target) && actor != target))
  {
    if target in s.users && actor in s.users {
      assert ProperUser(s, actor) && ProperUser(s, target);
      if Administers(s, actor, target) {
        OneAdministrator(s, actor, target);
      }
    }
  }

  /** In a reachable state an account is updated by the root, who cannot change its type; by the administrator of its tenant, who can
      make it a plain user at most; or by its own user, in the profile alone. */
  lemma WhoMayUpdate(s: State, target: nat, change: UserUpdate, actor: nat)
    requires Inv(s)
    ensures Accepts(s, UpdateUser(target, change, actor)) <==>
              && target in s.users && actor in s.users && change.hash != Some(None)
              && (|| (IsRoot(s, actor) && change.userType.None?)
                  || (Administers(s, actor, target) && (change.userType.Some? ==> change.userType.value in {PLAIN_USER, ""}))
                  || (actor == target && change.isActive.None? && change.userType.None?))
              && (change.email.Some? ==> forall i :: i in s.users && i != target ==> s.users[i].email != change.email.value)
  {
    if target in s.users && actor in s.users {
      assert ProperUser(s, actor) && ProperUser(s, target);
      if Administers(s, actor, target) {
        OneAdministrator(s, actor, target);
      }
      OwnEmailFree(s, target);
    }
  }

  lemma OwnEmailFree(s: State, target: nat)
    requires Inv(s) && target in s.users
    ensures !EmailTaken(s.users, s.users[target].email, Some(target))
  {
    forall i | i in s.users && i != target ensures s.users[i].email != s.users[target].email {
      assert !Clash(s.users, i, target);
    }
  }

  /** A resource is changed or deleted by the root, or by the administrator of its tenant. */
  lemma WhoMayChangeResource(s: State, target: nat, change: ResourceUpdate, actor: nat)
    requires Inv(s)
    ensures Accepts(s, DeleteResource(target, actor)) <==>
              && target in s.resources && actor in s.users
              && (IsRoot(s, actor)
                  || (s.users[actor].userType == TENANT_ADMIN && s.resources[target].tenant == s.users[actor].tenant))
    ensures Accepts(s, UpdateResource(target, change, actor)) <==>
              Accepts(s, DeleteResource(target, actor)) && change.encrypted != Some(None)
  {
    if actor in s.users {
      assert ProperUser(s, actor);
    }
  }

  /** No account has this name or this email. */
  ghost predicate IsFree(s: State, username: string, email: string) {
    forall i :: i in s.users ==> s.users[i].username != username && s.users[i].email != email
  }

  /** In a reachable state anyone registers, and an administrator adds a plain user to the own tenant, under a free name and email;
      administrators and the root add resources. */
  lemma WhoMayAdd(s: State, user: UserRequest, resource: ResourceRequest, actor: nat)
    requires Inv(s)
    ensures Accepts(s, Register(user)) <==> IsFree(s, user.username, user.email) && user.hash.Some?
    ensures Accepts(s, CreateUser(user, actor)) <==>
              && actor in s.users && s.users[actor].userType == TENANT_ADMIN && user.userType in {PLAIN_USER, ""}
              && IsFree(s, user.username, user.email) && user.hash.Some?
    ensures Accepts(s, CreateResource(resource, actor)) <==>
              actor in s.users && (IsRoot(s, actor) || s.users[actor].userType == TENANT_ADMIN) && resource.encrypted.Some?
  {
    if actor in s.users {
      assert ProperUser(s, actor);
    }
  }

  /** In a reachable state the root, and nobody else, keeps the tenants: under free names, each with an administrator whose name and email
      are free. */
  lemma WhoKeepsTenants(s: State, req: TenantRequest, target: nat, change: TenantUpdate, actor: nat)
    requires Inv(s)
    ensures Accepts(s, CreateTenant(req, actor)) <==>
              && IsRoot(s, actor) && (forall i :: i in s.tenants ==> s.tenants[i].name != req.name)
              && IsFree(s, req.adminUsername, req.adminEmail) && req.adminHash.Some?
    ensures Accepts(s, UpdateTenant(target, change, actor)) <==>
              && IsRoot(s, actor) && target in s.tenants
              && (change.name.Some? ==> forall i :: i in s.tenants && i != target ==> s.tenants[i].name != change.name.value)
    ensures Accepts(s, DeleteTenant(target, actor)) <==> IsRoot(s, actor) && target in s.tenants
  {
    if actor in s.users {
      assert ProperUser(s, actor);
    }
    if target in s.tenants {
      OwnTenantNameFree(s, target);
    }
  }

  lemma OwnTenantNameFree(s: State, target: nat)
    requires Inv(s) && target in s.tenants
    ensures !TenantNameTaken(s.tenants, s.tenants[target].name, Some(target))
  {
    forall i | i in s.tenants && i != target ensures s.tenants[i].name != s.tenants[target].name {
      assert !ShareName(s.tenants, i, target);
    }
  }
}
