/** The data explorer's stale-response guard: clicks, page changes, navigation and responses in any order. */
module PreviewGuard {
  import opened Options

  datatype TreeNode = TreeNode(resourceId: nat, schema: string, table: string, path: Option<string>, nodeType: string)

  /** What the server sends back; `isTable` is mode 'table'. */
  datatype Response = Response(isTable: bool, body: string)

  datatype Outcome = Answer(response: Response) | Failure

  /** Parameters of one request, and the node it was issued for. */
  datatype Request = Request(node: TreeNode, resourceId: nat, schema: string, table: string, page: int)

  /** Preview data, with the table metadata added to it. */
  datatype Shown = Shown(response: Response, source: Option<(nat, string, string)>)

  datatype Child = Child(kind: string, name: string, path: string)

  /** The component's state, and what has been asked and answered so far: request k has id k + 1. */
  datatype View = View(selected: Option<TreeNode>, preview: Option<Shown>, loading: bool, page: int, requestId: nat,
                       requests: seq<Request>, pending: set<nat>, results: map<nat, Outcome>)

  datatype Event =
    | Click(node: TreeNode)
    | PageChange(page: int)
    | Navigate(child: Child)
    | Settle(id: nat, outcome: Outcome)
    | TreeReloaded

  const START := View(None, None, false, 1, 0, [], {}, map[])

  // ---- Steps ----------------------------------------------------------------------

  function RequestFor(n: TreeNode, page: int): Request {
    Request(n, n.resourceId, n.schema, if n.path.Some? then n.path.value else n.table, page)
  }

  /** `loadPreview` up to its await. */
  function Issue(v: View): View {
    if v.selected.None? then v
    else
      v.(requestId := v.requestId + 1, loading := true, requests := v.requests + [RequestFor(v.selected.value, v.page)],
         pending := v.pending + {v.requestId + 1})
  }

  function Source(n: TreeNode): (nat, string, string) {
    (n.resourceId, n.schema, n.table)
  }

  /** The rest of `loadPreview`, once its request has come back. */
  function Settled(v: View, id: nat, outcome: Outcome): View {
    var w := v.(pending := v.pending - {id}, results := v.results[id := outcome]);
    if id != v.requestId then w
    else
      match outcome
      case Failure => w.(preview := None, loading := false)
      case Answer(response) =>
        if !response.isTable then w.(preview := Some(Shown(response, None)), loading := false)
        else if v.selected.None? then w.(preview := None, loading := false)
        else w.(preview := Some(Shown(response, Some(Source(v.selected.value)))), loading := false)
  }

  function ChildNode(n: TreeNode, child: Child): TreeNode {
    var path := if child.path != "" then child.path else child.name;
    TreeNode(n.resourceId, n.schema, path, Some(path), if child.kind == "prefix" then "directory" else child.kind)
  }

  function Step(v: View, e: Event): View {
    match e
    case Click(node) => Issue(v.(selected := Some(node), page := 1))
    case PageChange(page) => Issue(v.(page := page))
    case Navigate(child) =>
      if v.selected.None? || v.selected.value.schema == "" || v.selected.value.resourceId == 0 then v
      else Issue(v.(selected := Some(ChildNode(v.selected.value, child)), page := 1))
    case Settle(id, outcome) => if id in v.pending then Settled(v, id, outcome) else v
    case TreeReloaded => v.(selected := None, preview := None)
  }

  function Run(v: View, es: seq<Event>): View {
    if es == [] then v else Step(Run(v, es[..|es| - 1]), es[|es| - 1])
  }

  // ---- The component ----------------------------------------------------------------

  /** The parameters that ask for a page of a node: of its path if it has one, else of its table. */
  predicate AsksFor(r: Request, resourceId: nat, schema: string, path: string, page: int) {
    r.resourceId == resourceId && r.schema == schema && r.table == path && r.page == page
  }

  class DataExplorer {
    var selectedNode: Option<TreeNode>
    var previewData: Option<Shown>
    var loadingPreview: bool
    var currentPage: int
    var previewRequestId: nat
    ghost var requests: seq<Request>
    ghost var pending: set<nat>
    ghost var results: map<nat, Outcome>

    constructor ()
      ensures Now() == START
    {
      selectedNode, previewData, loadingPreview, currentPage, previewRequestId := None, None, false, 1, 0;
      requests, pending, results := [], {}, map[];
    }

    ghost function Now(): View
      reads this
    {
      View(selectedNode, previewData, loadingPreview, currentPage, previewRequestId, requests, pending, results)
    }

    /** Exactly one request has been issued: it is the latest, and under way. */
    twostate predicate IssuedOne()
      reads this
    {
      && |requests| == |old(requests)| + 1 && requests[..|old(requests)|] == old(requests)
      && previewRequestId == old(previewRequestId) + 1 && loadingPreview && pending == old(pending) + {previewRequestId}
      && previewData == old(previewData) && results == old(results)
    }

    /** Nothing has been asked, and what is shown and selected is as it was. */
    twostate predicate NothingIssued()
      reads this
    {
      && requests == old(requests) && previewRequestId == old(previewRequestId) && loadingPreview == old(loadingPreview)
      && pending == old(pending) && previewData == old(previewData) && results == old(results) && selectedNode == old(selectedNode)
    }

    /** Returns the id that the suspended part of the handler will compare with. */
    method LoadPreview() returns (requestId: nat)
      modifies this
      ensures Now() == Issue(old(Now())) && requestId == previewRequestId
    {
      if selectedNode.None? {
        return previewRequestId;
      }
      previewRequestId := previewRequestId + 1;
      requestId := previewRequestId;
      loadingPreview := true;
      requests := requests + [RequestFor(selectedNode.value, currentPage)];
      pending := pending + {requestId};
    }

    /** What follows the await: the try, the catch and the finally. */
    method ResumePreview(requestId: nat, outcome: Outcome)
      requires requestId in pending
      modifies this
      ensures Now() == Step(old(Now()), Settle(requestId, outcome))
      ensures selectedNode == old(selectedNode) && currentPage == old(currentPage) && requests == old(requests)
      ensures previewRequestId == old(previewRequestId) && pending == old(pending) - {requestId}
      ensures results == old(results)[requestId := outcome]
      ensures if requestId != old(previewRequestId) then previewData == old(previewData) && loadingPreview == old(loadingPreview)
              else if outcome.Failure? || (outcome.response.isTable && selectedNode.None?) then previewData == None && !loadingPreview
              else
                && previewData.Some? && previewData.value.response == outcome.response && !loadingPreview
                && previewData.value.source == if !outcome.response.isTable then None
                                               else var n := selectedNode.value; Some((n.resourceId, n.schema, n.table))
    {
      pending := pending - {requestId};
      results := results[requestId := outcome];
      if requestId != previewRequestId {
        return;
      }
      var failed := outcome.Failure?;
      if !failed {
        previewData := Some(Shown(outcome.response, None));
        if outcome.response.isTable {
          if selectedNode.None? {
            // Reading a column of the missing node throws, and the handler below catches it.
            failed := true;
          } else {
            previewData := Some(Shown(outcome.response, Some((selectedNode.value.resourceId, selectedNode.value.schema, selectedNode.value.table))));
          }
        }
      }
      if failed {
        previewData := None;
      }
      loadingPreview := false;
    }

    method HandleNodeClick(node: TreeNode)
      modifies this
      ensures Now() == Step(old(Now()), Click(node))
      ensures IssuedOne() && selectedNode == Some(node) && currentPage == 1
      ensures AsksFor(requests[|old(requests)|], node.resourceId, node.schema, if node.path.Some? then node.path.value else node.table, 1)
    {
      selectedNode := Some(node);
      currentPage := 1;
      var _ := LoadPreview();
    }

    method HandlePageChange(page: int)
      modifies this
      ensures Now() == Step(old(Now()), PageChange(page))
      ensures currentPage == page && selectedNode == old(selectedNode)
      ensures old(selectedNode).None? ==> NothingIssued()
      ensures old(selectedNode).Some? ==>
                var n := old(selectedNode).value;
                IssuedOne()
                && AsksFor(requests[|old(requests)|], n.resourceId, n.schema, if n.path.Some? then n.path.value else n.table, page)
    {
      currentPage := page;
      var _ := LoadPreview();
    }

    method HandleNavigate(child: Child)
      modifies this
      ensures Now() == Step(old(Now()), Navigate(child))
      ensures old(selectedNode).None? || old(selectedNode).value.schema == "" || old(selectedNode).value.resourceId == 0 ==>
                NothingIssued() && currentPage == old(currentPage)
      ensures old(selectedNode).Some? && old(selectedNode).value.schema != "" && old(selectedNode).value.resourceId != 0 ==>
                var n, path := old(selectedNode).value, if child.path != "" then child.path else child.name;
                && IssuedOne() && currentPage == 1 && AsksFor(requests[|old(requests)|], n.resourceId, n.schema, path, 1)
                && selectedNode.Some? && selectedNode.value.resourceId == n.resourceId && selectedNode.value.schema == n.schema
                && selectedNode.value.path == Some(path) && selectedNode.value.table == path
                && selectedNode.value.nodeType == if child.kind == "prefix" then "directory" else child.kind
    {
      if selectedNode.None? {
        return;
      }
      var schema, resourceId := selectedNode.value.schema, selectedNode.value.resourceId;
      if schema == "" || resourceId == 0 {
        return;
      }
      var path := if child.path != "" then child.path else child.name;
      selectedNode := Some(TreeNode(resourceId, schema, path, Some(path), if child.kind == "prefix" then "directory" else child.kind));
      currentPage := 1;
      var _ := LoadPreview();
    }

    /** The part of `loadTree` that touches the preview. */
    method ReloadTree()
      modifies this
      ensures Now() == Step(old(Now()), TreeReloaded)
      ensures selectedNode == None && previewData == None
      ensures requests == old(requests) && previewRequestId == old(previewRequestId) && loadingPreview == old(loadingPreview)
      ensures pending == old(pending) && results == old(results) && currentPage == old(currentPage)
    {
      selectedNode := None;
      previewData := None;
    }
  }

  // ---- Stale responses never win ---------------------------------------------------------

  /** What a request's outcome should put on the screen. */
  function Expected(r: Request, outcome: Outcome): Option<Shown> {
    match outcome
    case Failure => None
    case Answer(response) => Some(Shown(response, if response.isTable then Some(Source(r.node)) else None))
  }

  ghost predicate Inv(v: View) {
    && v.requestId == |v.requests|
    && (forall id {:trigger id in v.pending} :: id in v.pending ==> 1 <= id <= v.requestId)
    && (v.loading <==> v.requestId in v.pending)
    && (forall id {:trigger id in v.results} :: id in v.results ==> 1 <= id <= v.requestId && id !in v.pending)
    && (v.requestId == 0 ==> v.selected == None && v.preview == None && v.pending == {})
    && (v.selected.Some? ==>
          && v.requestId > 0 && v.selected == Some(v.requests[v.requestId - 1].node)
          && v.requests[v.requestId - 1] == RequestFor(v.selected.value, v.page)
          && (!v.loading ==> v.requestId in v.results && v.preview == Expected(v.requests[v.requestId - 1], v.results[v.requestId])))
  }

  lemma StepKeeps(v: View, e: Event)
    requires Inv(v)
    ensures Inv(Step(v, e))
  {
  }

  /** Over every interleaving of clicks, page changes, navigation, tree reloads, responses and failures: when a node is
      selected and nothing is loading, the preview is the outcome of the last issued request, whichever earlier responses came
      back in whatever order; that request was issued for the selected node and page, and table metadata is that node's. */
  lemma {:induction false} StaleResponsesNeverWin(es: seq<Event>)
    ensures Inv(Run(START, es))
    ensures var v := Run(START, es);
            v.selected.Some? && !v.loading ==>
              && v.requestId > 0 && v.requests[v.requestId - 1] == RequestFor(v.selected.value, v.page)
              && v.requestId in v.results && v.preview == Expected(v.requests[v.requestId - 1], v.results[v.requestId])
  {
    if es != [] {
      StaleResponsesNeverWin(es[..|es| - 1]);
      StepKeeps(Run(START, es[..|es| - 1]), es[|es| - 1]);
    }
  }

  // ---- What a tree reload does to the guard -----------------------------------------------

  /** Since the last request: no reload of the tree yet, or the latest one came while that request was under way, or after it
      had settled. */
  datatype Reload = NoReload | WhilePending | AfterSettled

  function LatestReload(es: seq<Event>): Reload {
    if es == [] then NoReload
    else
      var before, last := Run(START, es[..|es| - 1]), es[|es| - 1];
      if Step(before, last).requestId > before.requestId then NoReload
      else if !last.TreeReloaded? then LatestReload(es[..|es| - 1])
      else if before.loading then WhilePending
      else AfterSettled
  }

  /** What is shown of an outcome once nothing is selected. */
  function Unselected(outcome: Outcome): Option<Shown> {
    if outcome.Answer? && !outcome.response.isTable then Some(Shown(outcome.response, None)) else None
  }

  ghost predicate ReloadInv(v: View, reload: Reload) {
    && (v.selected.Some? ==> reload == NoReload)
    && (v.selected.None? && v.requestId > 0 ==> reload != NoReload)
    && (v.requestId > 0 && !v.loading ==> v.requestId in v.results)
    && (v.selected.None? && (v.requestId == 0 || v.loading || reload == AfterSettled) ==> v.preview == None)
    && (reload == AfterSettled ==> !v.loading)
    && (reload == WhilePending && v.requestId > 0 && !v.loading ==> v.preview == Unselected(v.results[v.requestId]))
  }

  lemma {:induction false} ReloadRun(es: seq<Event>)
    ensures Inv(Run(START, es)) && ReloadInv(Run(START, es), LatestReload(es))
  {
    if es != [] {
      ReloadRun(es[..|es| - 1]);
      StepKeeps(Run(START, es[..|es| - 1]), es[|es| - 1]);
    }
  }

  /** Over every interleaving, once the last request has settled its outcome is on the screen exactly when a node is still
      selected, or the request failed, or the tree was reloaded while it was under way and it did not bring a table. */
  lemma SettledShowsLast(es: seq<Event>)
    requires Run(START, es).requestId > 0 && !Run(START, es).loading
    ensures var v := Run(START, es);
            && v.requestId == |v.requests| && v.requestId in v.results
            && var outcome := v.results[v.requestId];
               v.preview == Expected(v.requests[v.requestId - 1], outcome) <==>
                 v.selected.Some? || outcome.Failure? || (LatestReload(es) == WhilePending && !outcome.response.isTable)
  {
    ReloadRun(es);
  }

  /** A preview is shown with nothing selected exactly when the tree was reloaded while the last request was under way and
      that request has since brought something other than a table. */
  lemma ShownUnselected(es: seq<Event>)
    ensures var v := Run(START, es);
            v.selected.None? && v.preview.Some? <==>
              && LatestReload(es) == WhilePending && v.requestId in v.results
              && v.results[v.requestId].Answer? && !v.results[v.requestId].response.isTable
  {
    ReloadRun(es);
  }

  /** Such runs exist: a reload clears the selection but not the counter, and a response still under way is then shown with
      nothing selected, or is taken for a failure if it carries a table. */
  lemma ReloadBreaksTheGuard(n: TreeNode, body: string)
    ensures var v := Run(START, [Click(n), TreeReloaded, Settle(1, Answer(Response(false, body)))]);
            v.selected == None && v.preview == Some(Shown(Response(false, body), None))
    ensures var v := Run(START, [Click(n), TreeReloaded, Settle(1, Answer(Response(true, body)))]);
            !v.loading && v.preview == None && v.requests == [RequestFor(n, 1)] && v.results == map[1 := Answer(Response(true, body))]
    ensures Expected(RequestFor(n, 1), Answer(Response(true, body))) != None
  {
    var es := [Click(n), TreeReloaded, Settle(1, Answer(Response(false, body)))];
    var fs := [Click(n), TreeReloaded, Settle(1, Answer(Response(true, body)))];
    assert es[..2] == fs[..2] == [Click(n), TreeReloaded] && [Click(n), TreeReloaded][..1] == [Click(n)] && [Click(n)][..0] == [];
    var two := Run(START, [Click(n), TreeReloaded]);
    assert Run(START, [Click(n)]) == Step(START, Click(n));
    assert two == Step(Step(START, Click(n)), TreeReloaded);
    assert Run(START, es) == Step(two, es[2]) && Run(START, fs) == Step(two, fs[2]);
  }
}
