/** The multi-tenant account state machine: users, tenants and resources, the permission rules of the three services, and
    what every request does to the tables. */
module Accounts {
  import opened Options

  // ---- Tables -------------------------------------------------------------------

  const SUPER_ADMIN := "super_admin"
  const TENANT_ADMIN := "tenant_admin"
  const PLAIN_USER := "user"
  const ROOT_NAME := "SuperAdmin"
  const ROOT_FULL_NAME := "系统超级管理员"
  const ROOT_EMAIL := "superadmin@addp.com"

  datatype User = User(id: nat, username: string, email: string, passwordHash: string, fullName: string, isActive: bool,
                       userType: string, tenant: Option<nat>, isSuperuser: bool)

  datatype Tenant = Tenant(id: nat, name: string, description: string, isActive: bool)

  datatype Resource = Resource(id: nat, name: string, resourceType: string, connection: map<string, string>, description: string,
                               createdBy: nat, tenant: Option<nat>, isActive: bool)

  type Users = map<nat, User>
  type Tenants = map<nat, Tenant>
  type Resources = map<nat, Resource>

  datatype State = State(users: Users, tenants: Tenants, resources: Resources, nextUser: nat, nextTenant: nat, nextResource: nat)

  const EMPTY := State(map[], map[], map[], 1, 1, 1)

  // ---- Requests --------------------------------------------------------------------

  /** `hash` is what hashing the password gave; None when it failed. */
  datatype UserRequest = UserRequest(username: string, email: string, hash: Option<string>, fullName: string, userType: string)

  /** The outer option says whether a new password was given. */
  datatype UserUpdate = UserUpdate(email: Option<string>, fullName: Option<string>, hash: Option<Option<string>>,
                                   isActive: Option<bool>, userType: Option<string>)

  datatype TenantRequest = TenantRequest(name: string, description: string, adminUsername: string, adminEmail: string,
                                         adminHash: Option<string>, adminFullName: string)

  datatype TenantUpdate = TenantUpdate(name: Option<string>, description: Option<string>, isActive: Option<bool>)

  /** Connection information as the encryption left it; None when encrypting failed. */
  datatype ResourceRequest = ResourceRequest(name: string, resourceType: string, encrypted: Option<map<string, string>>, description: string)

  datatype ResourceUpdate = ResourceUpdate(name: Option<string>, encrypted: Option<Option<map<string, string>>>,
                                           description: Option<string>, isActive: Option<bool>)

  datatype Op =
    | InitSuperAdmin(rootHash: Option<string>)
    | Register(req: UserRequest)
    | CreateUser(req: UserRequest, actor: nat)
    | UpdateUser(target: nat, change: UserUpdate, actor: nat)
    | DeleteUser(target: nat, actor: nat)
    | CreateTenant(tenantReq: TenantRequest, actor: nat)
    | UpdateTenant(target: nat, tenantChange: TenantUpdate, actor: nat)
    | DeleteTenant(target: nat, actor: nat)
    | CreateResource(resourceReq: ResourceRequest, actor: nat)
    | UpdateResource(target: nat, resourceChange: ResourceUpdate, actor: nat)
    | DeleteResource(target: nat, actor: nat)
    | SkipIds(users: nat, tenants: nat, resources: nat)

  // ---- Permission rules ---------------------------------------------------------------

  function Or<T>(o: Option<T>, current: T): T {
    if o.Some? then o.value else current
  }

  /** `validateCreatePermission`. */
  predicate MayCreate(creator: User, userType: string) {
    creator.userType == TENANT_ADMIN && (userType == PLAIN_USER || userType == "")
  }

  predicate SameTenant(a: Option<nat>, b: Option<nat>) {
    a.Some? && a == b
  }

  /** `validateUpdatePermission`. */
  predicate MayUpdate(current: User, target: User, change: UserUpdate) {
    if current.userType == SUPER_ADMIN then true
    else if current.userType == TENANT_ADMIN then
      SameTenant(target.tenant, current.tenant) && !(target.userType == TENANT_ADMIN && target.id != current.id)
    else current.id == target.id && change.isActive.None? && change.userType.None?
  }

  predicate MayDelete(current: User, target: User) {
    && target.username != ROOT_NAME
    && (current.userType == SUPER_ADMIN
        || (current.userType == TENANT_ADMIN && SameTenant(target.tenant, current.tenant) && target.userType != TENANT_ADMIN))
  }

  /** `authorizeResourceAccess`. */
  predicate MayAccess(user: User, resource: Resource) {
    user.userType == SUPER_ADMIN || SameTenant(user.tenant, resource.tenant)
  }

  /** `ensureResourceManagementPermission`. */
  predicate MayManage(user: User) {
    user.userType == SUPER_ADMIN || user.userType == TENANT_ADMIN
  }

  predicate UsernameTaken(users: Users, name: string) {
    exists i :: i in users && users[i].username == name
  }

  /** A unique index on email, skipping row `except`. */
  predicate EmailTaken(users: Users, email: string, except: Option<nat>) {
    exists i :: i in users && Some(i) != except && users[i].email == email
  }

  predicate TenantNameTaken(tenants: Tenants, name: string, except: Option<nat>) {
    exists i :: i in tenants && Some(i) != except && tenants[i].name == name
  }

  predicate IsSuper(s: State, actor: nat) {
    actor in s.users && s.users[actor].userType == SUPER_ADMIN
  }

  // ---- Steps ------------------------------------------------------------------------------

  function AddUser(s: State, u: User): State {
    s.(users := s.users[s.nextUser := u.(id := s.nextUser)], nextUser := s.nextUser + 1)
  }

  predicate RegisterAllowed(s: State, req: UserRequest) {
    !UsernameTaken(s.users, req.username) && req.hash.Some? && !EmailTaken(s.users, req.email, None)
  }

  function RegisterStep(s: State, req: UserRequest): State {
    if !RegisterAllowed(s, req) then s
    else AddUser(s, User(0, req.username, req.email, req.hash.value, req.fullName, true, PLAIN_USER, None, false))
  }

  predicate CreateUserAllowed(s: State, req: UserRequest, actor: nat) {
    && !UsernameTaken(s.users, req.username) && actor in s.users && MayCreate(s.users[actor], req.userType) && req.hash.Some?
    && !EmailTaken(s.users, req.email, None)
  }

  function CreateUserStep(s: State, req: UserRequest, actor: nat): State {
    if !CreateUserAllowed(s, req, actor) then s
    else
      var userType := if req.userType == "" then PLAIN_USER else req.userType;
      AddUser(s, User(0, req.username, req.email, req.hash.value, req.fullName, true, userType, s.users[actor].tenant, userType == SUPER_ADMIN))
  }

  /** The columns that a user may change. */
  function WithProfile(target: User, change: UserUpdate): User {
    target.(email := Or(change.email, target.email), fullName := Or(change.fullName, target.fullName),
            passwordHash := if change.hash.Some? then Or(change.hash.value, "") else target.passwordHash)
  }

  /** The row an update writes; only administrators reach its last two columns. */
  function Updated(current: User, target: User, change: UserUpdate): User {
    var u := WithProfile(target, change);
    if MayManage(current) then
      u.(isActive := Or(change.isActive, target.isActive), userType := Or(change.userType, target.userType),
         isSuperuser := if change.userType.Some? then change.userType.value == SUPER_ADMIN else target.isSuperuser)
    else u
  }

  predicate UpdateAllowed(s: State, target: nat, change: UserUpdate, actor: nat) {
    && target in s.users && actor in s.users
    && MayUpdate(s.users[actor], s.users[target], change)
    && change.hash != Some(None)
    && (MayManage(s.users[actor]) && change.userType.Some? ==> MayCreate(s.users[actor], change.userType.value))
    && !EmailTaken(s.users, Or(change.email, s.users[target].email), Some(target))
  }

  function UpdateUserStep(s: State, target: nat, change: UserUpdate, actor: nat): State {
    if !UpdateAllowed(s, target, change, actor) then s
    else s.(users := s.users[target := Updated(s.users[actor], s.users[target], change)])
  }

  predicate DeleteUserAllowed(s: State, target: nat, actor: nat) {
    target in s.users && actor in s.users && MayDelete(s.users[actor], s.users[target])
  }

  function DeleteUserStep(s: State, target: nat, actor: nat): State {
    if !DeleteUserAllowed(s, target, actor) then s
    else s.(users := s.users - {target})
  }

  predicate CreateTenantAllowed(s: State, req: TenantRequest, actor: nat) {
    && IsSuper(s, actor) && !TenantNameTaken(s.tenants, req.name, None) && !UsernameTaken(s.users, req.adminUsername)
    && req.adminHash.Some? && !EmailTaken(s.users, req.adminEmail, None)
  }

  /** One transaction: the tenant and its administrator, or neither. */
  function CreateTenantStep(s: State, req: TenantRequest, actor: nat): State {
    if !CreateTenantAllowed(s, req, actor) then s
    else
      var s1 := s.(tenants := s.tenants[s.nextTenant := Tenant(s.nextTenant, req.name, req.description, true)], nextTenant := s.nextTenant + 1);
      AddUser(s1, User(0, req.adminUsername, req.adminEmail, req.adminHash.value, req.adminFullName, true, TENANT_ADMIN, Some(s.nextTenant), false))
  }

  predicate UpdateTenantAllowed(s: State, target: nat, change: TenantUpdate, actor: nat) {
    IsSuper(s, actor) && target in s.tenants && !TenantNameTaken(s.tenants, Or(change.name, s.tenants[target].name), Some(target))
  }

  function UpdateTenantStep(s: State, target: nat, change: TenantUpdate, actor: nat): State {
    if !UpdateTenantAllowed(s, target, change, actor) then s
    else
      var t := s.tenants[target];
      s.(tenants := s.tenants[target := t.(name := Or(change.name, t.name), description := Or(change.description, t.description),
                                           isActive := Or(change.isActive, t.isActive))])
  }

  function UsersOutside(users: Users, t: nat): Users {
    map i | i in users && users[i].tenant != Some(t) :: users[i]
  }

  predicate DeleteTenantAllowed(s: State, target: nat, actor: nat) {
    IsSuper(s, actor) && target in s.tenants
  }

  /** One transaction: the tenant goes with all its users; its resources stay. */
  function DeleteTenantStep(s: State, target: nat, actor: nat): State {
    if !DeleteTenantAllowed(s, target, actor) then s
    else s.(users := UsersOutside(s.users, target), tenants := s.tenants - {target})
  }

  predicate CreateResourceAllowed(s: State, req: ResourceRequest, actor: nat) {
    actor in s.users && MayManage(s.users[actor]) && req.encrypted.Some?
  }

  function CreateResourceStep(s: State, req: ResourceRequest, actor: nat): State {
    if !CreateResourceAllowed(s, req, actor) then s
    else
      s.(resources := s.resources[s.nextResource := Resource(s.nextResource, req.name, req.resourceType, req.encrypted.value, req.description, actor,
                                                             s.users[actor].tenant, true)],
         nextResource := s.nextResource + 1)
  }

  predicate ResourceAllowed(s: State, target: nat, actor: nat) {
    actor in s.users && target in s.resources && MayAccess(s.users[actor], s.resources[target]) && MayManage(s.users[actor])
  }

  predicate UpdateResourceAllowed(s: State, target: nat, change: ResourceUpdate, actor: nat) {
    ResourceAllowed(s, target, actor) && change.encrypted != Some(None)
  }

  function UpdateResourceStep(s: State, target: nat, change: ResourceUpdate, actor: nat): State {
    if !UpdateResourceAllowed(s, target, change, actor) then s
    else
      var r := s.resources[target];
      s.(resources := s.resources[target := r.(name := Or(change.name, r.name),
                                               connection := if change.encrypted.Some? then Or(change.encrypted.value, map[]) else r.connection,
                                               description := Or(change.description, r.description), isActive := Or(change.isActive, r.isActive))])
  }

  function DeleteResourceStep(s: State, target: nat, actor: nat): State {
    if !ResourceAllowed(s, target, actor) then s else s.(resources := s.resources - {target})
  }

  function RootIds(users: Users): set<nat> {
    set i | i in users && users[i].username == ROOT_NAME
  }

  predicate InitAllowed(s: State, rootHash: Option<string>) {
    RootIds(s.users) != {} || (rootHash.Some? && !EmailTaken(s.users, ROOT_EMAIL, None))
  }

  /** Creates the root account, or puts its type and tenant right. */
  function InitStep(s: State, rootHash: Option<string>): State {
    if !InitAllowed(s, rootHash) then s
    else if RootIds(s.users) == {} then AddUser(s, User(0, ROOT_NAME, ROOT_EMAIL, rootHash.value, ROOT_FULL_NAME, true, SUPER_ADMIN, None, true))
    else
      s.(users := map i | i in s.users ::
           if s.users[i].username == ROOT_NAME && s.users[i].userType != SUPER_ADMIN
           then s.users[i].(userType := SUPER_ADMIN, isSuperuser := true, tenant := None) else s.users[i])
  }

  /** Values that the sequences hand out and no row keeps, because an insert was refused or undone. */
  function SkipStep(s: State, users: nat, tenants: nat, resources: nat): State {
    s.(nextUser := s.nextUser + users, nextTenant := s.nextTenant + tenants, nextResource := s.nextResource + resources)
  }

  function Step(s: State, op: Op): State {
    match op
    case InitSuperAdmin(rootHash) => InitStep(s, rootHash)
    case Register(req) => RegisterStep(s, req)
    case CreateUser(req, actor) => CreateUserStep(s, req, actor)
    case UpdateUser(target, change, actor) => UpdateUserStep(s, target, change, actor)
    case DeleteUser(target, actor) => DeleteUserStep(s, target, actor)
    case CreateTenant(req, actor) => CreateTenantStep(s, req, actor)
    case UpdateTenant(target, change, actor) => UpdateTenantStep(s, target, change, actor)
    case DeleteTenant(target, actor) => DeleteTenantStep(s, target, actor)
    case CreateResource(req, actor) => CreateResourceStep(s, req, actor)
    case UpdateResource(target, change, actor) => UpdateResourceStep(s, target, change, actor)
    case DeleteResource(target, actor) => DeleteResourceStep(s, target, actor)
    case SkipIds(users, tenants, resources) => SkipStep(s, users, tenants, resources)
  }

  /** Whether a request is carried out; a refused one changes nothing. */
  predicate Accepts(s: State, op: Op) {
    match op
    case InitSuperAdmin(rootHash) => InitAllowed(s, rootHash)
    case Register(req) => RegisterAllowed(s, req)
    case CreateUser(req, actor) => CreateUserAllowed(s, req, actor)
    case UpdateUser(target, change, actor) => UpdateAllowed(s, target, change, actor)
    case DeleteUser(target, actor) => DeleteUserAllowed(s, target, actor)
    case CreateTenant(req, actor) => CreateTenantAllowed(s, req, actor)
    case UpdateTenant(target, change, actor) => UpdateTenantAllowed(s, target, change, actor)
    case DeleteTenant(target, actor) => DeleteTenantAllowed(s, target, actor)
    case CreateResource(req, actor) => CreateResourceAllowed(s, req, actor)
    case UpdateResource(target, change, actor) => UpdateResourceAllowed(s, target, change, actor)
    case DeleteResource(target, actor) => ResourceAllowed(s, target, actor)
    case SkipIds(_, _, _) => true
  }

  /** The state after a run of requests. */
  function Run(s: State, ops: seq<Op>): State {
    if ops == [] then s else Step(Run(s, ops[..|ops| - 1]), ops[|ops| - 1])
  }
}
