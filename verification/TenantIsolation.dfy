/** What requests cannot do across tenants, and what survives a tenant. */
module TenantIsolation {
  import opened Options
  import opened Accounts
  import opened AccountInvariants

  function Row<T>(m: map<nat, T>, i: nat): Option<T> {
    if i in m then Some(m[i]) else None
  }

  function Actor(op: Op): Option<nat> {
    match op
    case InitSuperAdmin(_) => None
    case Register(_) => None
    case CreateUser(_, actor) => Some(actor)
    case UpdateUser(_, _, actor) => Some(actor)
    case DeleteUser(_, actor) => Some(actor)
    case CreateTenant(_, actor) => Some(actor)
    case UpdateTenant(_, _, actor) => Some(actor)
    case DeleteTenant(_, actor) => Some(actor)
    case CreateResource(_, actor) => Some(actor)
    case UpdateResource(_, _, actor) => Some(actor)
    case DeleteResource(_, actor) => Some(actor)
    case SkipIds(_, _, _) => None
  }

  /** Row i is the actor's own, or a row of the actor's tenant, before and after. */
  ghost predicate OwnUserRow(s: State, s': State, actor: nat, i: nat)
    requires actor in s.users
  {
    || i == actor
    || (s.users[actor].tenant.Some?
        && (i in s.users ==> s.users[i].tenant == s.users[actor].tenant)
        && (i in s'.users ==> s'.users[i].tenant == s.users[actor].tenant))
  }

  ghost predicate OwnResourceRow(s: State, s': State, actor: nat, r: nat)
    requires actor in s.users
  {
    && s.users[actor].tenant.Some?
    && (r in s.resources ==> s.resources[r].tenant == s.users[actor].tenant)
    && (r in s'.resources ==> s'.resources[r].tenant == s.users[actor].tenant)
  }

  /** A request of anyone but a super administrator changes only rows of the actor's own tenant, or the actor's own row, and
      no tenant at all. */
  lemma WritesStayInTenant(s: State, op: Op, actor: nat, i: nat)
    requires Inv(s) && Actor(op) == Some(actor) && actor in s.users && s.users[actor].userType != SUPER_ADMIN
    ensures Step(s, op).tenants == s.tenants
    ensures Row(Step(s, op).users, i) != Row(s.users, i) ==> OwnUserRow(s, Step(s, op), actor, i)
    ensures Row(Step(s, op).resources, i) != Row(s.resources, i) ==> OwnResourceRow(s, Step(s, op), actor, i)
  {
    assert ProperUser(s, actor);
    assert i in s.users ==> ProperUser(s, i);
    assert i in s.resources ==> s.resources[i].id == i < s.nextResource;
  }

  /** A plain user's requests change at most the user's own row. */
  lemma PlainUsersWriteThemselves(s: State, op: Op, actor: nat, i: nat)
    requires Inv(s) && Actor(op) == Some(actor) && actor in s.users && !MayManage(s.users[actor])
    ensures Step(s, op).tenants == s.tenants && Step(s, op).resources == s.resources
    ensures i != actor ==> Row(Step(s, op).users, i) == Row(s.users, i)
  {
    assert ProperUser(s, actor);
    assert i in s.users ==> ProperUser(s, i);
  }

  /** No request moves an existing user or resource to another tenant. */
  lemma TenantsAreFixed(s: State, op: Op, i: nat)
    requires Inv(s)
    ensures i in s.users && i in Step(s, op).users ==> Step(s, op).users[i].tenant == s.users[i].tenant
    ensures i in s.resources && i in Step(s, op).resources ==> Step(s, op).resources[i].tenant == s.resources[i].tenant
  {
    hide NoClash, HasRoot, UsernameTaken, EmailTaken, TenantNameTaken, MayUpdate, MayCreate, MayDelete, MayAccess, RootIds;
    assert i in s.users ==> ProperUser(s, i);
    assert i in s.resources ==> s.resources[i].id == i < s.nextResource;
  }

  // ---- Dead tenants -----------------------------------------------------------------

  ghost predicate Dead(s: State, t: nat) {
    t < s.nextTenant && t !in s.tenants
  }

  lemma DeadStaysDead(s: State, op: Op, t: nat)
    requires Inv(s) && Dead(s, t)
    ensures Dead(Step(s, op), t)
  {
  }

  /** Deleting a tenant removes its users but leaves its resources behind. */
  lemma DeleteTenantOrphans(s: State, target: nat, actor: nat)
    requires Inv(s) && IsSuper(s, actor) && target in s.tenants
    ensures Dead(Step(s, DeleteTenant(target, actor)), target)
    ensures Step(s, DeleteTenant(target, actor)).resources == s.resources
    ensures forall i :: i in Step(s, DeleteTenant(target, actor)).users ==> Step(s, DeleteTenant(target, actor)).users[i].tenant != Some(target)
  {
    assert s.tenants[target].id == target;
  }

  /** A resource of a dead tenant keeps that tenant while it exists, whatever is requested; so it can be reached, changed or
      deleted by a super administrator and by nobody else, ever. */
  lemma {:induction false} OrphansStayOrphans(s: State, ops: seq<Op>, r: nat, t: nat)
    requires Inv(s) && Dead(s, t) && r in s.resources && s.resources[r].tenant == Some(t)
    ensures Inv(Run(s, ops)) && Dead(Run(s, ops), t)
    ensures r < Run(s, ops).nextResource
    ensures r in Run(s, ops).resources ==> Run(s, ops).resources[r].tenant == Some(t)
    ensures forall i :: i in Run(s, ops).users && r in Run(s, ops).resources ==>
              (MayAccess(Run(s, ops).users[i], Run(s, ops).resources[r]) <==> Run(s, ops).users[i].userType == SUPER_ADMIN)
  {
    if ops == [] {
      assert s.resources[r].id == r;
    } else {
      var before := Run(s, ops[..|ops| - 1]);
      OrphansStayOrphans(s, ops[..|ops| - 1], r, t);
      StepKeeps(before, ops[|ops| - 1]);
      DeadStaysDead(before, ops[|ops| - 1], t);
      TenantsAreFixed(before, ops[|ops| - 1], r);
      ResourceNotReborn(before, ops[|ops| - 1], r);
    }
    NobodyReaches(Run(s, ops), r, t);
  }

  /** So the resources that a deleted tenant leaves behind are out of everyone's reach but a super administrator's, for good. */
  lemma DeletedTenantsResources(s: State, target: nat, actor: nat, ops: seq<Op>, r: nat)
    requires Inv(s) && IsSuper(s, actor) && target in s.tenants && r in s.resources && s.resources[r].tenant == Some(target)
    ensures var after := Run(Step(s, DeleteTenant(target, actor)), ops);
            forall i :: i in after.users && r in after.resources ==>
              (MayAccess(after.users[i], after.resources[r]) <==> after.users[i].userType == SUPER_ADMIN)
  {
    hide Inv, Run, MayAccess;
    StepKeeps(s, DeleteTenant(target, actor));
    DeleteTenantOrphans(s, target, actor);
    OrphansStayOrphans(Step(s, DeleteTenant(target, actor)), ops, r, target);
  }

  lemma ResourceNotReborn(s: State, op: Op, r: nat)
    requires Inv(s) && r < s.nextResource
    ensures r < Step(s, op).nextResource
    ensures r !in s.resources ==> r !in Step(s, op).resources
  {
  }

  lemma NobodyReaches(s: State, r: nat, t: nat)
    requires Inv(s) && Dead(s, t) && (r in s.resources ==> s.resources[r].tenant == Some(t))
    ensures forall i :: i in s.users && r in s.resources ==>
              (MayAccess(s.users[i], s.resources[r]) <==> s.users[i].userType == SUPER_ADMIN)
  {
    forall i | i in s.users && r in s.resources
      ensures MayAccess(s.users[i], s.resources[r]) <==> s.users[i].userType == SUPER_ADMIN
    {
      assert ProperUser(s, i);
    }
  }

  // ---- Reading -------------------------------------------------------------------------

  const SENSITIVE: set<string> := {"password", "access_key", "secret_key", "token", "api_key"}

  function MaskSensitiveFields(conn: map<string, string>): map<string, string> {
    map k | k in conn :: if k in SENSITIVE then "******" else conn[k]
  }

  function SanitizeResource(r: Resource): Resource {
    r.(connection := MaskSensitiveFields(r.connection))
  }

  function UsersOf(users: Users, tenant: nat): set<nat> {
    set i | i in users && users[i].tenant == Some(tenant)
  }

  /** Ids of the resources of a tenant (None: of everyone) and type ("" for any). */
  function ResourcesOf(resources: Resources, tenant: Option<nat>, resourceType: string): set<nat> {
    set r | r in resources && (tenant.Some? ==> resources[r].tenant == tenant) && (resourceType == "" || resources[r].resourceType == resourceType)
  }

  /** The rows asked for, each once, in the order the database happens to give them. */
  ghost predicate Enumerates(order: seq<nat>, ids: set<nat>) {
    && (forall i, j :: 0 <= i < j < |order| ==> order[i] != order[j])
    && forall i :: i in order <==> i in ids
  }

  /** OFFSET and LIMIT, which the database library leaves out of the query when they are negative. */
  function Window<T>(rows: seq<T>, offset: int, limit: int): (page: seq<T>)
    ensures forall x :: x in page ==> x in rows
  {
    var from := if offset <= 0 then rows else if offset >= |rows| then [] else rows[offset..];
    if 0 <= limit <= |from| then from[..limit] else from
  }

  function RowsAt<T>(table: map<nat, T>, ids: seq<nat>): (rows: seq<T>)
    requires forall i :: i in ids ==> i in table
    ensures |rows| == |ids| && forall k :: 0 <= k < |ids| ==> rows[k] == table[ids[k]]
  {
    if ids == [] then [] else RowsAt(table, ids[..|ids| - 1]) + [table[ids[|ids| - 1]]]
  }

  function Start(offset: int): nat {
    if offset > 0 then offset else 0
  }

  /** How many rows are left from the start on, and at most the limit. */
  function PageLength(total: nat, offset: int, limit: int): nat {
    if Start(offset) >= total then 0 else if 0 <= limit <= total - Start(offset) then limit else total - Start(offset)
  }

  /** The stretch of these rows, in this order, that an offset and a limit select. */
  ghost predicate IsStretch<T>(table: map<nat, T>, order: seq<nat>, offset: int, limit: int, rows: seq<T>) {
    && |rows| == PageLength(|order|, offset, limit)
    && forall k :: 0 <= k < |rows| ==> IsRowAt(table, order, Start(offset) + k, rows[k])
  }

  ghost predicate IsRowAt<T>(table: map<nat, T>, order: seq<nat>, i: nat, row: T) {
    i < |order| && order[i] in table && row == table[order[i]]
  }

  /** A page of the selected rows, in one order or in whatever order they come. */
  ghost predicate IsSelectionIn<T>(table: map<nat, T>, ids: set<nat>, order: seq<nat>, offset: int, limit: int, rows: seq<T>) {
    Enumerates(order, ids) && IsStretch(table, order, offset, limit, rows)
  }

  ghost predicate IsSelection<T>(table: map<nat, T>, ids: set<nat>, offset: int, limit: int, rows: seq<T>) {
    ids <= table.Keys && exists order :: IsSelectionIn(table, ids, order, offset, limit, rows)
  }

  /** The query selects such a stretch. */
  lemma WindowIsStretch<T>(table: map<nat, T>, order: seq<nat>, offset: int, limit: int)
    requires forall i :: i in order ==> i in table
    ensures IsStretch(table, order, offset, limit, RowsAt(table, Window(order, offset, limit)))
  {
    var page := Window(order, offset, limit);
    assert forall k :: 0 <= k < |page| ==> page[k] == order[Start(offset) + k];
  }

  function Sanitized(rows: seq<Resource>): seq<Resource> {
    if rows == [] then [] else Sanitized(rows[..|rows| - 1]) + [SanitizeResource(rows[|rows| - 1])]
  }

  /** The answers that `ResourceService.List` may give: none when the user is unknown or has no tenant to list. */
  ghost predicate IsResourcePage(s: State, offset: int, limit: int, resourceType: string, actor: nat, shown: Option<seq<Resource>>) {
    if actor !in s.users || (s.users[actor].userType != SUPER_ADMIN && s.users[actor].tenant.None?) then shown == None
    else
      var tenant := if s.users[actor].userType == SUPER_ADMIN then None else s.users[actor].tenant;
      exists rows :: IsSelection(s.resources, ResourcesOf(s.resources, tenant, resourceType), offset, limit, rows) && shown == Some(Sanitized(rows))
  }

  /** The answers that `UserService.List` may give: an administrator sees a page of the tenant, a super administrator nobody,
      everyone else only the own row. */
  ghost predicate IsUserPage(s: State, offset: int, limit: int, actor: nat, shown: Option<seq<User>>) {
    if actor !in s.users then shown == None
    else if s.users[actor].userType == SUPER_ADMIN then shown == Some([])
    else if s.users[actor].userType != TENANT_ADMIN then shown == Some([s.users[actor]])
    else
      && s.users[actor].tenant.Some? && shown.Some?
      && IsSelection(s.users, UsersOf(s.users, s.users[actor].tenant.value), offset, limit, shown.value)
  }

  /** Two states that agree on a tenant's resources. */
  ghost predicate SameTenantRows(a: Resources, b: Resources, tenant: nat) {
    forall r {:trigger r in a} {:trigger r in b} ::
      (r in a && a[r].tenant == Some(tenant)) || (r in b && b[r].tenant == Some(tenant)) ==> r in a && r in b && a[r] == b[r]
  }

  lemma SameSelection<T>(a: map<nat, T>, b: map<nat, T>, ids: set<nat>, offset: int, limit: int, rows: seq<T>)
    requires ids <= a.Keys && ids <= b.Keys && forall i :: i in ids ==> a[i] == b[i]
    requires IsSelection(a, ids, offset, limit, rows)
    ensures IsSelection(b, ids, offset, limit, rows)
  {
    var order: seq<nat> :| IsSelectionIn(a, ids, order, offset, limit, rows);
    assert IsSelectionIn(b, ids, order, offset, limit, rows);
  }

  lemma SelectionMember<T>(table: map<nat, T>, ids: set<nat>, offset: int, limit: int, rows: seq<T>, k: nat) returns (i: nat)
    requires IsSelection(table, ids, offset, limit, rows) && k < |rows|
    ensures i in ids && i in table && rows[k] == table[i]
  {
    var order: seq<nat> :| IsSelectionIn(table, ids, order, offset, limit, rows);
    assert IsRowAt(table, order, Start(offset) + k, rows[k]);
    i := order[Start(offset) + k];
  }

  /** What anyone but a super administrator may be shown depends on the resources of the actor's tenant alone: two states that
      agree on them and on the actor allow the same pages, whatever else differs and in whatever order rows come. */
  lemma ListsDoNotInterfere(s: State, s': State, offset: int, limit: int, resourceType: string, actor: nat, shown: Option<seq<Resource>>)
    requires Row(s.users, actor) == Row(s'.users, actor)
    requires actor in s.users && s.users[actor].userType != SUPER_ADMIN
    requires s.users[actor].tenant.Some? ==> SameTenantRows(s.resources, s'.resources, s.users[actor].tenant.value)
    ensures IsResourcePage(s, offset, limit, resourceType, actor, shown) <==> IsResourcePage(s', offset, limit, resourceType, actor, shown)
  {
    hide IsSelection;
    assert s'.users[actor] == s.users[actor];
    if s.users[actor].tenant.Some? {
      var tenant := s.users[actor].tenant;
      var ids := ResourcesOf(s.resources, tenant, resourceType);
      assert ids == ResourcesOf(s'.resources, tenant, resourceType);
      forall rows ensures IsSelection(s.resources, ids, offset, limit, rows) <==> IsSelection(s'.resources, ids, offset, limit, rows) {
        if IsSelection(s.resources, ids, offset, limit, rows) {
          SameSelection(s.resources, s'.resources, ids, offset, limit, rows);
        }
        if IsSelection(s'.resources, ids, offset, limit, rows) {
          SameSelection(s'.resources, s.resources, ids, offset, limit, rows);
        }
      }
    }
  }

  /** So it is with users: a page shows rows of the actor's tenant, or the actor's own. */
  lemma UserPagesStayInTenant(s: State, offset: int, limit: int, actor: nat, shown: Option<seq<User>>, k: nat)
    requires IsUserPage(s, offset, limit, actor, shown) && shown.Some? && k < |shown.value|
    ensures actor in s.users && s.users[actor].userType != SUPER_ADMIN
    ensures shown.value[k] == s.users[actor]
            || (s.users[actor].userType == TENANT_ADMIN && SameTenant(shown.value[k].tenant, s.users[actor].tenant))
  {
    hide IsSelection;
    if s.users[actor].userType == TENANT_ADMIN {
      var i := SelectionMember(s.users, UsersOf(s.users, s.users[actor].tenant.value), offset, limit, shown.value, k);
    }
  }

  lemma {:induction false} SanitizedAt(rows: seq<Resource>, k: nat)
    requires k < |rows|
    ensures |Sanitized(rows)| == |rows| && Sanitized(rows)[k] == SanitizeResource(rows[k])
  {
    if k < |rows| - 1 {
      SanitizedAt(rows[..|rows| - 1], k);
    } else if k > 0 {
      SanitizedAt(rows[..|rows| - 1], k - 1);
    }
  }

  /** No page shows a resource of another tenant or the value of a sensitive field. */
  lemma PagesAreClean(s: State, offset: int, limit: int, resourceType: string, actor: nat, shown: Option<seq<Resource>>, k: nat)
    requires IsResourcePage(s, offset, limit, resourceType, actor, shown) && shown.Some? && k < |shown.value|
    ensures actor in s.users && (s.users[actor].userType != SUPER_ADMIN ==> SameTenant(shown.value[k].tenant, s.users[actor].tenant))
    ensures forall f :: f in shown.value[k].connection && f in SENSITIVE ==> shown.value[k].connection[f] == "******"
  {
    hide IsSelection, Sanitized;
    var tenant := if s.users[actor].userType == SUPER_ADMIN then None else s.users[actor].tenant;
    var ids := ResourcesOf(s.resources, tenant, resourceType);
    var rows :| IsSelection(s.resources, ids, offset, limit, rows) && shown == Some(Sanitized(rows));
    SanitizedLength(rows);
    SanitizedAt(rows, k);
    var i := SelectionMember(s.resources, ids, offset, limit, rows, k);
  }

  lemma SanitizedLength(rows: seq<Resource>)
    ensures |Sanitized(rows)| == |rows|
  {
  }
}
