/** What the pages of the user and resource lists show together, for one order of the rows. */
module AccountPages {
  import opened Options
  import opened Accounts
  import opened AccountInvariants
  import opened TenantIsolation

  /** The pages, one after the other. */
  function Together<T>(pages: seq<seq<T>>): seq<T> {
    if pages == [] then [] else Together(pages[..|pages| - 1]) + pages[|pages| - 1]
  }

  function Min(a: int, b: int): int {
    if a <= b then a else b
  }

  /** Page j + 1 of size n, as the services ask for it. */
  ghost predicate ArePages<T>(table: map<nat, T>, order: seq<nat>, n: nat, pages: seq<seq<T>>) {
    forall j {:trigger pages[j]} :: 0 <= j < |pages| ==> IsStretch(table, order, j * n, n, pages[j])
  }

  /** What a page that starts at row `from` adds. */
  lemma PageFrom<T>(table: map<nat, T>, order: seq<nat>, from: nat, n: nat, page: seq<T>)
    requires IsStretch(table, order, from, n, page)
    ensures |page| == Min(from + n, |order|) - Min(from, |order|)
    ensures forall i :: 0 <= i < |page| ==> IsRowAt(table, order, from + i, page[i])
  {
  }

  /** Pages 1 to k, one after the other, are the first k times n rows of the order: none left out, none twice. */
  lemma {:induction false} PagesTile<T>(table: map<nat, T>, order: seq<nat>, n: nat, pages: seq<seq<T>>)
    requires n >= 1 && ArePages(table, order, n, pages)
    ensures |Together(pages)| == Min(|pages| * n, |order|)
    ensures forall i :: 0 <= i < |Together(pages)| ==> IsRowAt(table, order, i, Together(pages)[i])
  {
    hide IsRowAt, IsStretch;
    if pages != [] {
      var k := |pages| - 1;
      var front, last := pages[..k], pages[k];
      assert forall j :: 0 <= j < |front| ==> front[j] == pages[j];
      PagesTile(table, order, n, front);
      PageFrom(table, order, k * n, n, last);
      assert |pages| * n == k * n + n;
      PageAppended(table, order, k * n, Together(front), last);
    }
  }

  lemma PageAppended<T>(table: map<nat, T>, order: seq<nat>, from: nat, rows: seq<T>, page: seq<T>)
    requires |rows| == Min(from, |order|) && (page != [] ==> from <= |order|)
    requires forall i :: 0 <= i < |rows| ==> IsRowAt(table, order, i, rows[i])
    requires forall i :: 0 <= i < |page| ==> IsRowAt(table, order, from + i, page[i])
    ensures forall i :: 0 <= i < |rows + page| ==> IsRowAt(table, order, i, (rows + page)[i])
  {
    hide IsRowAt;
    forall i | 0 <= i < |rows + page| ensures IsRowAt(table, order, i, (rows + page)[i]) {
      if i >= |rows| {
        assert IsRowAt(table, order, from + (i - |rows|), page[i - |rows|]);
      }
    }
  }

  /** A page past the end is empty; a negative offset or limit is as good as none. */
  lemma PageBounds<T>(table: map<nat, T>, order: seq<nat>, offset: int, limit: int, rows: seq<T>)
    requires IsStretch(table, order, offset, limit, rows)
    ensures offset >= |order| || limit == 0 ==> rows == []
    ensures limit >= 0 ==> |rows| <= limit
    ensures offset <= 0 ==> IsStretch(table, order, 0, limit, rows)
    ensures limit < 0 ==> IsStretch(table, order, offset, |order|, rows)
    ensures offset <= 0 && limit < 0 ==> |rows| == |order| && forall i :: 0 <= i < |rows| ==> IsRowAt(table, order, i, rows[i])
  {
  }

  /** What a user is shown of a resource: every column, and the connection with its secrets struck out. */
  predicate IsMasked(r: Resource, shown: Resource) {
    && shown.id == r.id && shown.name == r.name && shown.resourceType == r.resourceType && shown.description == r.description
    && shown.createdBy == r.createdBy && shown.tenant == r.tenant && shown.isActive == r.isActive
    && shown.connection.Keys == r.connection.Keys
    && forall f :: f in r.connection ==> shown.connection[f] == if f in SENSITIVE then "******" else r.connection[f]
  }

  lemma MaskedRows(rows: seq<Resource>)
    ensures |Sanitized(rows)| == |rows| && forall k :: 0 <= k < |rows| ==> IsMasked(rows[k], Sanitized(rows)[k])
  {
    hide SanitizeResource, Sanitized, IsMasked;
    SanitizedLength(rows);
    forall k | 0 <= k < |rows| ensures IsMasked(rows[k], Sanitized(rows)[k]) {
      SanitizedAt(rows, k);
      SanitizedIsMasked(rows[k]);
    }
  }

  lemma SanitizedIsMasked(r: Resource)
    ensures IsMasked(r, SanitizeResource(r))
  {
  }

  /** The resources that a list of this type shows the actor, a page at a time. */
  ghost predicate IsListed(s: State, actor: nat, resourceType: string, r: nat) {
    && actor in s.users && r in s.resources && MayAccess(s.users[actor], s.resources[r])
    && (resourceType != "" ==> s.resources[r].resourceType == resourceType)
  }

  /** The rows behind an answer of the resource list, in one order. */
  ghost predicate IsShownIn(s: State, order: seq<nat>, offset: int, limit: int, resourceType: string, actor: nat, rows: seq<Resource>)
    requires actor in s.users
  {
    var tenant := if s.users[actor].userType == SUPER_ADMIN then None else s.users[actor].tenant;
    IsSelectionIn(s.resources, ResourcesOf(s.resources, tenant, resourceType), order, offset, limit, rows)
  }

  /** Every answer has such rows. */
  lemma ShownRows(s: State, offset: int, limit: int, resourceType: string, actor: nat, shown: Option<seq<Resource>>)
    requires IsResourcePage(s, offset, limit, resourceType, actor, shown)
    ensures shown.Some? <==> actor in s.users && (s.users[actor].userType == SUPER_ADMIN || s.users[actor].tenant.Some?)
    ensures shown.Some? ==>
              exists order, rows :: IsShownIn(s, order, offset, limit, resourceType, actor, rows) && shown.value == Sanitized(rows)
  {
    hide IsStretch, Enumerates, ResourcesOf, Sanitized;
    if shown.Some? {
      var tenant := if s.users[actor].userType == SUPER_ADMIN then None else s.users[actor].tenant;
      var ids := ResourcesOf(s.resources, tenant, resourceType);
      var rows :| IsSelection(s.resources, ids, offset, limit, rows) && shown == Some(Sanitized(rows));
      var order :| IsSelectionIn(s.resources, ids, order, offset, limit, rows);
      assert IsShownIn(s, order, offset, limit, resourceType, actor, rows);
    }
  }

  lemma ListedIds(s: State, resourceType: string, actor: nat, r: nat)
    requires actor in s.users && (s.users[actor].userType == SUPER_ADMIN || s.users[actor].tenant.Some?)
    ensures var tenant := if s.users[actor].userType == SUPER_ADMIN then None else s.users[actor].tenant;
            r in ResourcesOf(s.resources, tenant, resourceType) <==> IsListed(s, actor, resourceType, r)
  {
  }

  /** Page after page of the resource list, in one order: each resource within the actor's reach and of the type asked for once, and
      nothing else. */
  lemma ResourcePagesTile(s: State, order: seq<nat>, n: nat, resourceType: string, actor: nat, pages: seq<seq<Resource>>)
    requires actor in s.users && (s.users[actor].userType == SUPER_ADMIN || s.users[actor].tenant.Some?) && n >= 1 && pages != []
    requires forall j :: 0 <= j < |pages| ==> IsShownIn(s, order, j * n, n, resourceType, actor, pages[j])
    ensures forall r :: r in order <==> IsListed(s, actor, resourceType, r)
    ensures forall i, j :: 0 <= i < j < |order| ==> order[i] != order[j]
    ensures |Together(pages)| == Min(|pages| * n, |order|)
    ensures forall i :: 0 <= i < |Together(pages)| ==> IsRowAt(s.resources, order, i, Together(pages)[i])
  {
    hide IsStretch, ResourcesOf, IsListed, Together, IsRowAt;
    var tenant := if s.users[actor].userType == SUPER_ADMIN then None else s.users[actor].tenant;
    var ids := ResourcesOf(s.resources, tenant, resourceType);
    assert IsShownIn(s, order, 0 * n, n, resourceType, actor, pages[0]);
    forall r ensures r in order <==> IsListed(s, actor, resourceType, r) {
      ListedIds(s, resourceType, actor, r);
    }
    assert ArePages(s.resources, order, n, pages);
    PagesTile(s.resources, order, n, pages);
  }

  /** Masking page by page or all together is the same. */
  lemma {:induction false} SanitizedTogether(pages: seq<seq<Resource>>, masked: seq<seq<Resource>>)
    requires |masked| == |pages| && forall j :: 0 <= j < |pages| ==> masked[j] == Sanitized(pages[j])
    ensures Together(masked) == Sanitized(Together(pages))
  {
    hide Sanitized;
    if pages == [] {
      NothingSanitized();
    } else {
      var k := |pages| - 1;
      SanitizedTogether(pages[..k], masked[..k]);
      SanitizedConcat(Together(pages[..k]), pages[k]);
    }
  }

  lemma NothingSanitized()
    ensures Sanitized([]) == []
  {
  }

  lemma {:induction false} SanitizedConcat(a: seq<Resource>, b: seq<Resource>)
    ensures Sanitized(a + b) == Sanitized(a) + Sanitized(b)
  {
    hide SanitizeResource;
    if b == [] {
      assert a + b == a;
    } else {
      SanitizedConcat(a, b[..|b| - 1]);
      assert (a + b)[..|a + b| - 1] == a + b[..|b| - 1];
    }
  }

  /** Page after page of the user list, in one order: each account of the administrator's tenant once. */
  lemma UserPagesTile(s: State, order: seq<nat>, n: nat, tenant: nat, pages: seq<seq<User>>)
    requires n >= 1 && pages != []
    requires forall j :: 0 <= j < |pages| ==> IsSelectionIn(s.users, UsersOf(s.users, tenant), order, j * n, n, pages[j])
    ensures forall i :: i in order <==> i in s.users && s.users[i].tenant == Some(tenant)
    ensures forall i, j :: 0 <= i < j < |order| ==> order[i] != order[j]
    ensures |Together(pages)| == Min(|pages| * n, |order|)
    ensures forall i :: 0 <= i < |Together(pages)| ==> IsRowAt(s.users, order, i, Together(pages)[i])
  {
    hide IsStretch, Together, IsRowAt;
    assert IsSelectionIn(s.users, UsersOf(s.users, tenant), order, 0 * n, n, pages[0]);
    assert ArePages(s.users, order, n, pages);
    PagesTile(s.users, order, n, pages);
  }
}
