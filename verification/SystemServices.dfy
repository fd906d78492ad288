/** The user, tenant and resource services over the system database, each request proved to follow the account state machine. */
module SystemServices {
  import opened Options
  import opened Accounts
  import opened AccountInvariants
  import opened AccountRules
  import opened TenantIsolation

  /** The three tables with their unique indexes.  Unless it is reliable, the database may refuse any write, leaving the
      tables as they were. */
  class SystemDatabase {
    var users: Users
    var tenants: Tenants
    var resources: Resources
    var nextUser: nat
    var nextTenant: nat
    var nextResource: nat
    const reliable: bool

    constructor (reliable: bool)
      ensures Tables() == EMPTY && this.reliable == reliable
    {
      users, tenants, resources, nextUser, nextTenant, nextResource := map[], map[], map[], 1, 1, 1;
      this.reliable := reliable;
    }

    ghost function Tables(): State
      reads this
    {
      State(users, tenants, resources, nextUser, nextTenant, nextResource)
    }

    method Fault() returns (fault: bool)
      ensures reliable ==> !fault
    {
      fault := false;
      if !reliable {
        fault := *;
      }
    }

    method InsertUser(u: User) returns (ok: bool)
      modifies this`users, this`nextUser
      ensures ok ==> Tables() == AddUser(old(Tables()), u) && !UsernameTaken(old(users), u.username) && !EmailTaken(old(users), u.email, None)
      ensures !ok ==> OnlySkipped(old(Tables()), Tables())
      ensures reliable ==> (ok <==> !UsernameTaken(old(users), u.username) && !EmailTaken(old(users), u.email, None))
    {
      var fault := Fault();
      ok := !fault && !UsernameTaken(users, u.username) && !EmailTaken(users, u.email, None);
      if ok {
        users := users[nextUser := u.(id := nextUser)];
        nextUser := nextUser + 1;
      } else {
        var skipped: bool := *;
        nextUser := if skipped then nextUser + 1 else nextUser;
      }
    }

    /** Saves all columns of a row; the username never changes. */
    method SaveUser(id: nat, u: User) returns (ok: bool)
      requires id in users && u.username == users[id].username
      modifies this`users
      ensures Tables() == if ok then old(Tables()).(users := old(users)[id := u]) else old(Tables())
      ensures ok ==> !EmailTaken(old(users), u.email, Some(id))
      ensures reliable ==> (ok <==> !EmailTaken(old(users), u.email, Some(id)))
    {
      var fault := Fault();
      ok := !fault && !EmailTaken(users, u.email, Some(id));
      if ok {
        users := users[id := u];
      }
    }

    method RemoveUser(id: nat) returns (ok: bool)
      modifies this`users
      ensures Tables() == if ok then old(Tables()).(users := old(users) - {id}) else old(Tables())
      ensures reliable ==> ok
    {
      var fault := Fault();
      ok := !fault;
      if ok {
        users := users - {id};
      }
    }

    method RemoveUsersOf(tenant: nat) returns (ok: bool)
      modifies this`users
      ensures Tables() == if ok then old(Tables()).(users := UsersOutside(old(users), tenant)) else old(Tables())
      ensures reliable ==> ok
    {
      var fault := Fault();
      ok := !fault;
      if ok {
        users := UsersOutside(users, tenant);
      }
    }

    method InsertTenant(name: string, description: string) returns (ok: bool, id: nat)
      modifies this`tenants, this`nextTenant
      ensures ok ==>
                && id == old(nextTenant) && !TenantNameTaken(old(tenants), name, None)
                && Tables() == old(Tables()).(tenants := old(tenants)[id := Tenant(id, name, description, true)], nextTenant := id + 1)
      ensures !ok ==> OnlySkipped(old(Tables()), Tables())
      ensures reliable ==> (ok <==> !TenantNameTaken(old(tenants), name, None))
    {
      var fault := Fault();
      id := nextTenant;
      ok := !fault && !TenantNameTaken(tenants, name, None);
      if ok {
        tenants := tenants[id := Tenant(id, name, description, true)];
        nextTenant := id + 1;
      } else {
        var skipped: bool := *;
        nextTenant := if skipped then nextTenant + 1 else nextTenant;
      }
    }

    method SaveTenant(id: nat, t: Tenant) returns (ok: bool)
      modifies this`tenants
      ensures Tables() == if ok then old(Tables()).(tenants := old(tenants)[id := t]) else old(Tables())
      ensures ok ==> !TenantNameTaken(old(tenants), t.name, Some(id))
      ensures reliable ==> (ok <==> !TenantNameTaken(old(tenants), t.name, Some(id)))
    {
      var fault := Fault();
      ok := !fault && !TenantNameTaken(tenants, t.name, Some(id));
      if ok {
        tenants := tenants[id := t];
      }
    }

    method RemoveTenant(id: nat) returns (ok: bool)
      modifies this`tenants
      ensures Tables() == if ok then old(Tables()).(tenants := old(tenants) - {id}) else old(Tables())
      ensures reliable ==> ok
    {
      var fault := Fault();
      ok := !fault;
      if ok {
        tenants := tenants - {id};
      }
    }

    method SaveResource(id: nat, r: Resource) returns (ok: bool)
      modifies this`resources
      ensures Tables() == if ok then old(Tables()).(resources := old(resources)[id := r]) else old(Tables())
      ensures reliable ==> ok
    {
      var fault := Fault();
      ok := !fault;
      if ok {
        resources := resources[id := r];
      }
    }

    method InsertResource(r: Resource) returns (ok: bool)
      modifies this`resources, this`nextResource
      ensures ok ==> Tables() == old(Tables()).(resources := old(resources)[old(nextResource) := r.(id := old(nextResource))],
                                                nextResource := old(nextResource) + 1)
      ensures !ok ==> OnlySkipped(old(Tables()), Tables())
      ensures reliable ==> ok
    {
      var fault := Fault();
      ok := !fault;
      if ok {
        resources := resources[nextResource := r.(id := nextResource)];
        nextResource := nextResource + 1;
      } else {
        var skipped: bool := *;
        nextResource := if skipped then nextResource + 1 else nextResource;
      }
    }

    method RemoveResource(id: nat) returns (ok: bool)
      modifies this`resources
      ensures Tables() == if ok then old(Tables()).(resources := old(resources) - {id}) else old(Tables())
      ensures reliable ==> ok
    {
      var fault := Fault();
      ok := !fault;
      if ok {
        resources := resources - {id};
      }
    }

    /** Undoes the writes of a failed transaction; a sequence keeps what it has handed out. */
    method Rollback(users: Users, tenants: Tenants)
      modifies this`users, this`tenants
      ensures Tables() == old(Tables()).(users := users, tenants := tenants)
    {
      this.users, this.tenants := users, tenants;
    }

    /** SELECT ... OFFSET offset LIMIT limit, in whatever order the rows come. */
    method SelectUsers(tenant: nat, offset: int, limit: int) returns (rows: seq<User>)
      ensures IsSelection(users, UsersOf(users, tenant), offset, limit, rows)
    {
      var ids := Ordered(UsersOf(users, tenant));
      rows := RowsAt(users, Window(ids, offset, limit));
      WindowIsStretch(users, ids, offset, limit);
      assert IsSelectionIn(users, UsersOf(users, tenant), ids, offset, limit, rows);
    }

    method SelectResources(tenant: Option<nat>, resourceType: string, offset: int, limit: int) returns (rows: seq<Resource>)
      ensures IsSelection(resources, ResourcesOf(resources, tenant, resourceType), offset, limit, rows)
    {
      var ids := Ordered(ResourcesOf(resources, tenant, resourceType));
      rows := RowsAt(resources, Window(ids, offset, limit));
      WindowIsStretch(resources, ids, offset, limit);
      assert IsSelectionIn(resources, ResourcesOf(resources, tenant, resourceType), ids, offset, limit, rows);
    }
  }

  method Ordered(ids: set<nat>) returns (order: seq<nat>)
    ensures Enumerates(order, ids)
  {
    order := [];
    var todo := ids;
    while todo != {}
      invariant todo <= ids && Enumerates(order, ids - todo)
    {
      var i :| i in todo;
      order := order + [i];
      todo := todo - {i};
    }
  }

  /** The rows are as before; the sequences may have moved on. */
  ghost predicate OnlySkipped(s: State, s': State) {
    && s'.users == s.users && s'.tenants == s.tenants && s'.resources == s.resources
    && s'.nextUser >= s.nextUser && s'.nextTenant >= s.nextTenant && s'.nextResource >= s.nextResource
  }

  /** Which is a step of the state machine as well: every run of service calls is one of its runs. */
  lemma SkippedIsStep(s: State, s': State)
    requires OnlySkipped(s, s')
    ensures s' == Step(s, SkipIds(s'.nextUser - s.nextUser, s'.nextTenant - s.nextTenant, s'.nextResource - s.nextResource))
  {
  }

  /** What a request does: it reports success exactly when it has taken its step.  With a reliable database that is exactly when
      the state machine accepts it. */
  twostate predicate Follows(db: SystemDatabase, op: Op, ok: bool)
    reads db
  {
    && (ok ==> Accepts(old(db.Tables()), op) && db.Tables() == Step(old(db.Tables()), op))
    && (!ok ==> OnlySkipped(old(db.Tables()), db.Tables()))
    && (db.reliable ==> (ok <==> Accepts(old(db.Tables()), op)))
  }

  // ---- The root account at start-up ------------------------------------------------------------

  lemma NoRootName(users: Users)
    requires RootIds(users) == {}
    ensures !UsernameTaken(users, ROOT_NAME)
  {
    assert forall i :: i in users && users[i].username == ROOT_NAME ==> i in RootIds(users);
  }

  lemma RootIs(users: Users, id: nat)
    requires id in RootIds(users)
    ensures id in users && users[id].username == ROOT_NAME && RootIds(users) != {}
  {
  }

  /** The table once row id, the root's, has been put right. */
  function PutRight(users: Users, id: nat): Users
    requires id in users
  {
    if users[id].userType == SUPER_ADMIN then users
    else users[id := users[id].(userType := SUPER_ADMIN, isSuperuser := true, tenant := None)]
  }

  lemma RootPutRight(s: State, id: nat, hash: Option<string>)
    requires id in s.users && s.users[id].username == ROOT_NAME && RootIds(s.users) != {}
    requires forall i, j :: i in s.users && j in s.users && s.users[i].username == s.users[j].username ==> i == j
    ensures Accepts(s, Op.InitSuperAdmin(hash)) && Step(s, Op.InitSuperAdmin(hash)) == s.(users := PutRight(s.users, id))
  {
    hide EmailTaken, RootIds;
    assert InitStep(s, hash).users == PutRight(s.users, id);
  }

  lemma RootColumns(users: Users, id: nat, hash: Option<string>)
    requires id in users && users[id].username == ROOT_NAME
    requires forall i, j :: i in users && j in users && users[i].username == users[j].username ==> i == j
    ensures forall i :: i in users && users[i].username == ROOT_NAME && users[i].id == i ==>
              OnlyRowAt(users, PutRight(users, id), i) && IsStartedRoot(Some(users[i]), PutRight(users, id)[i], i, hash)
  {
    forall i | i in users && users[i].username == ROOT_NAME && users[i].id == i
      ensures OnlyRowAt(users, PutRight(users, id), i) && IsStartedRoot(Some(users[i]), PutRight(users, id)[i], i, hash)
    {
      assert i == id;
    }
  }

  class UserService {
    const db: SystemDatabase

    constructor (db: SystemDatabase)
      ensures this.db == db
    {
      this.db := db;
    }

    method Register(req: UserRequest) returns (ok: bool)
      modifies db
      ensures Follows(db, Op.Register(req), ok)
      ensures ok ==> OnlyRowAt(old(db.users), db.users, old(db.nextUser)) && db.tenants == old(db.tenants) && db.resources == old(db.resources)
      ensures ok ==> IsAccount(db.users[old(db.nextUser)], old(db.nextUser), req, PLAIN_USER, None)
    {
      if UsernameTaken(db.users, req.username) {
        return false;
      }
      if req.hash.None? {
        return false;
      }
      ok := db.InsertUser(User(0, req.username, req.email, req.hash.value, req.fullName, true, PLAIN_USER, None, false));
    }

    method Create(req: UserRequest, creatorID: nat) returns (ok: bool)
      modifies db
      ensures Follows(db, CreateUser(req, creatorID), ok)
      ensures ok ==> OnlyRowAt(old(db.users), db.users, old(db.nextUser)) && db.tenants == old(db.tenants) && db.resources == old(db.resources)
      ensures ok ==> creatorID in old(db.users)
      ensures ok ==> IsAccount(db.users[old(db.nextUser)], old(db.nextUser), req, PLAIN_USER, old(db.users)[creatorID].tenant)
    {
      if UsernameTaken(db.users, req.username) {
        return false;
      }
      if creatorID !in db.users {
        return false;
      }
      var creator := db.users[creatorID];
      if !MayCreate(creator, req.userType) {
        return false;
      }
      if req.hash.None? {
        return false;
      }
      var userType := req.userType;
      if userType == "" {
        userType := PLAIN_USER;
      }
      ok := db.InsertUser(User(0, req.username, req.email, req.hash.value, req.fullName, true, userType, creator.tenant, userType == SUPER_ADMIN));
    }

    method AssignProfile(target: User, req: UserUpdate) returns (updated: Option<User>)
      ensures updated == if req.hash == Some(None) then None else Some(WithProfile(target, req))
    {
      var user := target;
      if req.email.Some? {
        user := user.(email := req.email.value);
      }
      if req.fullName.Some? {
        user := user.(fullName := req.fullName.value);
      }
      if req.hash.Some? {
        if req.hash.value.None? {
          return None;
        }
        user := user.(passwordHash := req.hash.value.value);
      }
      return Some(user);
    }

    /** Assigns the given fields one after the other to a copy of the row. */
    method AssignFields(currentUser: User, target: User, req: UserUpdate) returns (updated: Option<User>)
      ensures updated.Some? <==>
              req.hash != Some(None) && (MayManage(currentUser) && req.userType.Some? ==> MayCreate(currentUser, req.userType.value))
      ensures updated.Some? ==> updated.value == Updated(currentUser, target, req)
    {
      updated := AssignProfile(target, req);
      if updated.Some? && (currentUser.userType == SUPER_ADMIN || currentUser.userType == TENANT_ADMIN) {
        var user := updated.value;
        if req.isActive.Some? {
          user := user.(isActive := req.isActive.value);
        }
        if req.userType.Some? {
          if !MayCreate(currentUser, req.userType.value) {
            return None;
          }
          user := user.(userType := req.userType.value, isSuperuser := req.userType.value == SUPER_ADMIN);
        }
        updated := Some(user);
      }
    }

    method Update(id: nat, req: UserUpdate, currentUserID: nat) returns (ok: bool)
      modifies db
      ensures Follows(db, UpdateUser(id, req, currentUserID), ok)
      ensures ok ==> OnlyRowAt(old(db.users), db.users, id) && db.tenants == old(db.tenants) && db.resources == old(db.resources)
      ensures ok ==> id in old(db.users) && currentUserID in old(db.users)
      ensures ok ==>
                var who := old(db.users)[currentUserID].userType;
                IsUpdatedAccount(old(db.users)[id], db.users[id], req, who == SUPER_ADMIN || who == TENANT_ADMIN)
    {
      hide EmailTaken, MayUpdate, MayCreate;
      if id !in db.users {
        return false;
      }
      var user := db.users[id];
      if currentUserID !in db.users {
        return false;
      }
      var currentUser := db.users[currentUserID];
      if !MayUpdate(currentUser, user, req) {
        return false;
      }
      var updated := AssignFields(currentUser, user, req);
      if updated.None? {
        return false;
      }
      ok := db.SaveUser(id, updated.value);
    }

    method Delete(id: nat, currentUserID: nat) returns (ok: bool)
      modifies db
      ensures Follows(db, DeleteUser(id, currentUserID), ok)
      ensures ok ==> RowsGone(old(db.users), db.users, {id}) && db.tenants == old(db.tenants) && db.resources == old(db.resources)
    {
      if id !in db.users {
        return false;
      }
      var target := db.users[id];
      if target.username == ROOT_NAME {
        return false;
      }
      if currentUserID !in db.users {
        return false;
      }
      var currentUser := db.users[currentUserID];
      if currentUser.userType == SUPER_ADMIN {
        ok := db.RemoveUser(id);
        return;
      }
      if currentUser.userType == TENANT_ADMIN {
        if target.tenant.None? || currentUser.tenant.None? || target.tenant != currentUser.tenant {
          return false;
        }
        if target.userType == TENANT_ADMIN {
          return false;
        }
        ok := db.RemoveUser(id);
        return;
      }
      return false;
    }

    /** A tenant administrator's tenant is read without a check: in every reachable state it is there. */
    method List(page: int, pageSize: int, currentUserID: nat) returns (shown: Option<seq<User>>)
      requires Inv(db.Tables())
      ensures IsUserPage(db.Tables(), (page - 1) * pageSize, pageSize, currentUserID, shown)
    {
      var offset := (page - 1) * pageSize;
      if currentUserID !in db.users {
        return None;
      }
      var currentUser := db.users[currentUserID];
      if currentUser.userType == SUPER_ADMIN {
        return Some([]);
      }
      if currentUser.userType == TENANT_ADMIN {
        assert ProperUser(db.Tables(), currentUserID);
        var rows := db.SelectUsers(currentUser.tenant.value, offset, pageSize);
        return Some(rows);
      }
      return Some([currentUser]);
    }

    /** The start-up step. */
    method InitSuperAdmin(hash: Option<string>) returns (ok: bool)
      requires forall i, j :: i in db.users && j in db.users && db.users[i].username == db.users[j].username ==> i == j
      requires forall i :: i in db.users && db.users[i].username == ROOT_NAME ==> !EmailTaken(db.users, db.users[i].email, Some(i))
      modifies db
      ensures Follows(db, Op.InitSuperAdmin(hash), ok)
      ensures ok ==> db.tenants == old(db.tenants) && db.resources == old(db.resources)
      ensures ok && RootIds(old(db.users)) == {} ==>
                && OnlyRowAt(old(db.users), db.users, old(db.nextUser))
                && IsStartedRoot(None, db.users[old(db.nextUser)], old(db.nextUser), hash)
      ensures ok ==> forall i :: i in old(db.users) && old(db.users)[i].username == ROOT_NAME && old(db.users)[i].id == i ==>
                OnlyRowAt(old(db.users), db.users, i) && IsStartedRoot(Some(old(db.users)[i]), db.users[i], i, hash)
    {
      var ids := RootIds(db.users);
      if ids == {} {
        NoRootName(db.users);
        if hash.None? {
          return false;
        }
        ok := db.InsertUser(User(0, ROOT_NAME, ROOT_EMAIL, hash.value, ROOT_FULL_NAME, true, SUPER_ADMIN, None, true));
        return;
      }
      hide OnlyRowAt, IsStartedRoot, RootIds;
      ghost var before := db.users;
      var id :| id in ids;
      var user := db.users[id];
      RootIs(before, id);
      ok := true;
      if user.userType != SUPER_ADMIN {
        ok := db.SaveUser(id, user.(userType := SUPER_ADMIN, isSuperuser := true, tenant := None));
      }
      RootPutRight(old(db.Tables()), id, hash);
      RootColumns(before, id, hash);
    }
  }

  class TenantService {
    const db: SystemDatabase

    constructor (db: SystemDatabase)
      ensures this.db == db
    {
      this.db := db;
    }

    /** The tenant and its administrator are inserted in one transaction: both or neither. */
    method Create(req: TenantRequest, currentUserID: nat) returns (ok: bool)
      modifies db
      ensures Follows(db, CreateTenant(req, currentUserID), ok)
      ensures ok ==> OnlyRowAt(old(db.tenants), db.tenants, old(db.nextTenant)) && OnlyRowAt(old(db.users), db.users, old(db.nextUser))
      ensures ok ==> db.tenants[old(db.nextTenant)] == Tenant(old(db.nextTenant), req.name, req.description, true)
      ensures ok ==>
                IsAccount(db.users[old(db.nextUser)], old(db.nextUser),
                          UserRequest(req.adminUsername, req.adminEmail, req.adminHash, req.adminFullName, TENANT_ADMIN),
                          TENANT_ADMIN, Some(old(db.nextTenant)))
      ensures ok ==> db.resources == old(db.resources)
    {
      if currentUserID !in db.users || db.users[currentUserID].userType != SUPER_ADMIN {
        return false;
      }
      if TenantNameTaken(db.tenants, req.name, None) || UsernameTaken(db.users, req.adminUsername) {
        return false;
      }
      var users, tenants := db.users, db.tenants;
      var id;
      ok, id := db.InsertTenant(req.name, req.description);
      if ok && req.adminHash.None? {
        ok := false;
      }
      if ok {
        ok := db.InsertUser(User(0, req.adminUsername, req.adminEmail, req.adminHash.value, req.adminFullName, true, TENANT_ADMIN, Some(id), false));
      }
      if !ok {
        db.Rollback(users, tenants);
      }
    }

    method Update(id: nat, req: TenantUpdate, currentUserID: nat) returns (ok: bool)
      requires ProperTenants(db.Tables())
      modifies db
      ensures Follows(db, UpdateTenant(id, req, currentUserID), ok)
      ensures ok ==> OnlyRowAt(old(db.tenants), db.tenants, id) && db.users == old(db.users) && db.resources == old(db.resources)
      ensures ok ==> id in old(db.tenants) && IsUpdatedTenant(old(db.tenants)[id], db.tenants[id], req)
    {
      if currentUserID !in db.users || db.users[currentUserID].userType != SUPER_ADMIN {
        return false;
      }
      if id !in db.tenants {
        return false;
      }
      var tenant := db.tenants[id];
      if req.name.Some? {
        if TenantNameTaken(db.tenants, req.name.value, Some(id)) {
          return false;
        }
        tenant := tenant.(name := req.name.value);
      }
      if req.description.Some? {
        tenant := tenant.(description := req.description.value);
      }
      if req.isActive.Some? {
        tenant := tenant.(isActive := req.isActive.value);
      }
      ok := db.SaveTenant(id, tenant);
    }

    /** The tenant's users and the tenant go in one transaction. */
    method Delete(id: nat, currentUserID: nat) returns (ok: bool)
      modifies db
      ensures Follows(db, DeleteTenant(id, currentUserID), ok)
      ensures ok ==> RowsGone(old(db.tenants), db.tenants, {id}) && db.resources == old(db.resources)
      ensures ok ==> RowsGone(old(db.users), db.users, set i | i in old(db.users) && old(db.users)[i].tenant == Some(id))
    {
      if currentUserID !in db.users || db.users[currentUserID].userType != SUPER_ADMIN {
        return false;
      }
      if id !in db.tenants {
        return false;
      }
      var users, tenants := db.users, db.tenants;
      ok := db.RemoveUsersOf(id);
      if ok {
        ok := db.RemoveTenant(id);
      }
      if !ok {
        db.Rollback(users, tenants);
      }
    }
  }

  class ResourceService {
    const db: SystemDatabase

    constructor (db: SystemDatabase)
      ensures this.db == db
    {
      this.db := db;
    }

    method Create(req: ResourceRequest, createdBy: nat) returns (ok: bool)
      modifies db
      ensures Follows(db, CreateResource(req, createdBy), ok)
      ensures ok ==> OnlyRowAt(old(db.resources), db.resources, old(db.nextResource)) && db.users == old(db.users) && db.tenants == old(db.tenants)
      ensures ok ==> createdBy in old(db.users)
      ensures ok ==>
                IsNewResource(db.resources[old(db.nextResource)], old(db.nextResource), req, createdBy, old(db.users)[createdBy].tenant)
    {
      if createdBy !in db.users {
        return false;
      }
      var user := db.users[createdBy];
      if !MayManage(user) {
        return false;
      }
      if req.encrypted.None? {
        return false;
      }
      ok := db.InsertResource(Resource(0, req.name, req.resourceType, req.encrypted.value, req.description, createdBy, user.tenant, true));
    }

    method SanitizeRows(rows: seq<Resource>) returns (sanitized: seq<Resource>)
      ensures sanitized == Sanitized(rows)
    {
      hide SanitizeResource;
      sanitized := [];
      for i := 0 to |rows|
        invariant sanitized == Sanitized(rows[..i])
      {
        assert rows[..i + 1][..i] == rows[..i];
        sanitized := sanitized + [SanitizeResource(rows[i])];
      }
      assert rows[..|rows|] == rows;
    }

    method List(page: int, pageSize: int, resourceType: string, currentUserID: nat) returns (shown: Option<seq<Resource>>)
      ensures IsResourcePage(db.Tables(), (page - 1) * pageSize, pageSize, resourceType, currentUserID, shown)
    {
      hide Sanitized, IsSelection, ResourcesOf;
      var offset := (page - 1) * pageSize;
      if currentUserID !in db.users {
        return None;
      }
      var currentUser := db.users[currentUserID];
      var rows;
      if currentUser.userType == SUPER_ADMIN {
        rows := db.SelectResources(None, resourceType, offset, pageSize);
      } else {
        if currentUser.tenant.None? {
          return None;
        }
        rows := db.SelectResources(currentUser.tenant, resourceType, offset, pageSize);
      }
      var sanitized := SanitizeRows(rows);
      return Some(sanitized);
    }

    method Update(id: nat, req: ResourceUpdate, currentUserID: nat) returns (ok: bool)
      modifies db
      ensures Follows(db, UpdateResource(id, req, currentUserID), ok)
      ensures ok ==> OnlyRowAt(old(db.resources), db.resources, id) && db.users == old(db.users) && db.tenants == old(db.tenants)
      ensures ok ==> id in old(db.resources) && IsUpdatedResource(old(db.resources)[id], db.resources[id], req)
    {
      hide MayAccess, MayManage;
      if currentUserID !in db.users || id !in db.resources {
        return false;
      }
      var currentUser, resource := db.users[currentUserID], db.resources[id];
      if !MayAccess(currentUser, resource) || !MayManage(currentUser) {
        return false;
      }
      if req.name.Some? {
        resource := resource.(name := req.name.value);
      }
      if req.encrypted.Some? {
        if req.encrypted.value.None? {
          return false;
        }
        resource := resource.(connection := req.encrypted.value.value);
      }
      if req.description.Some? {
        resource := resource.(description := req.description.value);
      }
      if req.isActive.Some? {
        resource := resource.(isActive := req.isActive.value);
      }
      ok := db.SaveResource(id, resource);
    }

    method Delete(id: nat, currentUserID: nat) returns (ok: bool)
      modifies db
      ensures Follows(db, DeleteResource(id, currentUserID), ok)
      ensures ok ==> RowsGone(old(db.resources), db.resources, {id}) && db.users == old(db.users) && db.tenants == old(db.tenants)
    {
      if currentUserID !in db.users || id !in db.resources {
        return false;
      }
      if !MayAccess(db.users[currentUserID], db.resources[id]) || !MayManage(db.users[currentUserID]) {
        return false;
      }
      ok := db.RemoveResource(id);
    }
  }
}
