/**
 * internal/analyzer/impersonation.go: principal-type parsing, the service
 * account impersonation rules, the impersonation graph built from the
 * bindings, and the breadth-first search that collects the access a
 * principal gains by impersonating service accounts.
 */
module Impersonation {
  import opened Util
  import opened ParserTypes
  import opened Definitions
  import opened Analyzer

  /** A resource reached through impersonation, and the chain of principals impersonated to reach it. */
  datatype AccessVia = AccessVia(resource: ResourceMetadata, viaChain: seq<string>)

  /** The direct access of a principal and what it reaches through impersonation, per resource ID. */
  datatype TransitiveAccess = TransitiveAccess(
    principal: string,
    directAccess: PrincipalData,
    transitiveAccess: map<string, AccessVia>)

  const ServiceAccountPrefix := "serviceAccount:"

  // ---------------------------------------------------------------------
  // Principal strings.

  /** The principal type: the text before the first ':', or "unknown" when there is none. */
  function GetPrincipalType(principal: string): (r: string)
    ensures ':' !in principal ==> r == "unknown"
    ensures ':' in principal ==> ':' !in r && HasPrefix(principal, r + ":")
  {
    var parts := SplitN2(principal, ':');
    if |parts| != 2 then "unknown"
    else
      assert principal[..|parts[0]| + 1] == parts[0] + ":" by {
        assert principal == (parts[0] + ":") + parts[1];
      }
      parts[0]
  }

  lemma PrincipalTypeOf(t: string, rest: string)
    requires ':' !in t
    ensures GetPrincipalType(t + ":" + rest) == t
  {
    SplitN2Concat(t, ':', rest);
  }

  /** Service accounts, and only they, can be impersonated, by service accounts, users, groups and principal sets. */
  function CanImpersonate(sourceType: string, targetType: string): (r: bool)
    ensures r <==> (targetType == "serviceAccount" &&
      (sourceType == "serviceAccount" || sourceType == "user" || sourceType == "group" || sourceType == "principalSet"))
  {
    if targetType == "principalSet" then false
    else if targetType == "user" || targetType == "group" then false
    else if targetType == "serviceAccount" then
      sourceType == "serviceAccount" || sourceType == "user" || sourceType == "group" || sourceType == "principalSet"
    else false
  }

  /** A resource ID of the form projects/P/serviceAccounts/E[/...]. */
  predicate IsServiceAccountPath(resourceID: string) {
    var parts := Split(resourceID, '/');
    |parts| >= 4 && parts[0] == "projects" && parts[2] == "serviceAccounts"
  }

  /**
   * extractServiceAccountEmail: the fourth path segment of a service account
   * path, else the ID itself when it contains '@', else "".
   */
  function ExtractServiceAccountEmail(resourceID: string): (r: string)
    ensures IsServiceAccountPath(resourceID) ==> r == Split(resourceID, '/')[3] && '/' !in r
    ensures !IsServiceAccountPath(resourceID) ==> r == (if '@' in resourceID then resourceID else "")
  {
    var parts := Split(resourceID, '/');
    if |parts| >= 4 && parts[0] == "projects" && parts[2] == "serviceAccounts" then parts[3]
    else if '@' in resourceID then resourceID
    else ""
  }

  /** Splitting a/b/c/d on '/' when no segment contains '/'. */
  lemma SplitFour(a: string, b: string, c: string, d: string)
    requires '/' !in a && '/' !in b && '/' !in c && '/' !in d
    ensures Split(a + ['/'] + (b + ['/'] + (c + ['/'] + d)), '/') == [a] + ([b] + ([c] + [d]))
  {
    SplitNoSep(d, '/');
    SplitCons(c, '/', d);
    SplitCons(b, '/', c + ['/'] + d);
    SplitCons(a, '/', b + ['/'] + (c + ['/'] + d));
  }

  /** Splitting a/b/c/d/rest on '/': the first four segments, then those of rest. */
  lemma SplitFourMore(a: string, b: string, c: string, d: string, rest: string)
    requires '/' !in a && '/' !in b && '/' !in c && '/' !in d
    ensures Split(a + ['/'] + (b + ['/'] + (c + ['/'] + (d + ['/'] + rest))), '/') ==
      [a] + ([b] + ([c] + ([d] + Split(rest, '/'))))
  {
    SplitCons(d, '/', rest);
    SplitCons(c, '/', d + ['/'] + rest);
    SplitCons(b, '/', c + ['/'] + (d + ['/'] + rest));
    SplitCons(a, '/', b + ['/'] + (c + ['/'] + (d + ['/'] + rest)));
  }

  /** The email segment of projects/P/serviceAccounts/E. */
  lemma ExtractFromPath(project: string, email: string)
    requires '/' !in project && '/' !in email
    ensures ExtractServiceAccountEmail("projects/" + project + "/serviceAccounts/" + email) == email
  {
    var s := "projects" + ['/'] + (project + ['/'] + ("serviceAccounts" + ['/'] + email));
    assert "projects/" + project + "/serviceAccounts/" + email == s;
    PathSegments(project, email);
  }

  lemma PathSegments(project: string, email: string)
    requires '/' !in project && '/' !in email
    ensures ExtractServiceAccountEmail("projects" + ['/'] + (project + ['/'] + ("serviceAccounts" + ['/'] + email))) == email
  {
    var s := "projects" + ['/'] + (project + ['/'] + ("serviceAccounts" + ['/'] + email));
    SplitFour("projects", project, "serviceAccounts", email);
    var parts := Split(s, '/');
    assert |parts| == 4 && parts[0] == "projects" && parts[2] == "serviceAccounts" && parts[3] == email;
  }

  /** Further segments after the email do not change the result. */
  lemma ExtractFromLongerPath(project: string, email: string, rest: string)
    requires '/' !in project && '/' !in email
    ensures ExtractServiceAccountEmail("projects/" + project + "/serviceAccounts/" + email + "/" + rest) == email
  {
    var s := "projects" + ['/'] + (project + ['/'] + ("serviceAccounts" + ['/'] + (email + ['/'] + rest)));
    assert "projects/" + project + "/serviceAccounts/" + email + "/" + rest == s;
    LongerPathSegments(project, email, rest);
  }

  lemma LongerPathSegments(project: string, email: string, rest: string)
    requires '/' !in project && '/' !in email
    ensures ExtractServiceAccountEmail("projects" + ['/'] + (project + ['/'] + ("serviceAccounts" + ['/'] + (email + ['/'] + rest)))) == email
  {
    var s := "projects" + ['/'] + (project + ['/'] + ("serviceAccounts" + ['/'] + (email + ['/'] + rest)));
    SplitFourMore("projects", project, "serviceAccounts", email, rest);
    var parts := Split(s, '/');
    assert |parts| >= 4 && parts[0] == "projects" && parts[2] == "serviceAccounts" && parts[3] == email;
  }

  /** An ID without '/' is either an email (returned unchanged) or not a service account at all. */
  lemma ExtractPlainId(resourceID: string)
    requires '/' !in resourceID
    ensures ExtractServiceAccountEmail(resourceID) == (if '@' in resourceID then resourceID else "")
  {
    SplitNoSep(resourceID, '/');
  }

  /**
   * MatchesPrincipalEmail: the principal has a type prefix and the text
   * after it equals or ends with the email. Equality is a special case of
   * the suffix test, so the suffix test alone decides.
   */
  function MatchesPrincipalEmail(principal: string, email: string): (r: bool)
    ensures ':' !in principal ==> !r
    ensures ':' in principal ==> (r <==> HasSuffix(SplitN2(principal, ':')[1], email))
    ensures r ==> HasSuffix(principal, email)
  {
    var parts := SplitN2(principal, ':');
    if |parts| != 2 then false
    else
      var ok := parts[1] == email || HasSuffix(parts[1], email);
      assert ok ==> HasSuffix(principal, email) by {
        if ok {
          assert principal == (parts[0] + ":") + parts[1];
          assert principal[|principal| - |email|..] == parts[1][|parts[1]| - |email|..];
        }
      }
      ok
  }

  /** A principal matches its own email. */
  lemma MatchesOwnEmail(t: string, email: string)
    requires ':' !in t
    ensures MatchesPrincipalEmail(t + ":" + email, email)
  {
    SplitN2Concat(t, ':', email);
  }

  /** The suffix test also accepts a longer address that merely ends with the email. */
  lemma MatchesLongerAddress(t: string, before: string, email: string)
    requires ':' !in t
    ensures MatchesPrincipalEmail(t + ":" + before + email, email)
  {
    assert t + ":" + before + email == t + ":" + (before + email);
    SplitN2Concat(t, ':', before + email);
    assert (before + email)[|before + email| - |email|..] == email;
  }

  // ---------------------------------------------------------------------
  // The impersonation graph.

  /** principal -> the service account principals it can impersonate, in discovery order. */
  type Graph = map<string, seq<string>>

  datatype Edge = Edge(source: string, target: string)

  /** The principal a binding grants impersonation of: "serviceAccount:" + the extracted email. */
  function TargetPrincipal(b: IAMBinding): string {
    ServiceAccountPrefix + ExtractServiceAccountEmail(b.resourceID)
  }

  /** The binding-level checks: an impersonation role on a resource naming a service account. */
  predicate ImpersonationBinding(b: IAMBinding, impersonationRoles: seq<string>) {
    IsImpersonationRole(impersonationRoles, b.role) && ExtractServiceAccountEmail(b.resourceID) != ""
  }

  /** The checks BuildImpersonationGraphWithFunc applies to one member of one binding. */
  predicate IsEdge(g: Grant, impersonationRoles: seq<string>, canImpersonate: (string, string) -> bool) {
    ImpersonationBinding(g.binding, impersonationRoles) &&
    canImpersonate(GetPrincipalType(g.member), GetPrincipalType(TargetPrincipal(g.binding))) &&
    g.member != TargetPrincipal(g.binding)
  }

  /** The edge a qualifying grant contributes: member -> target service account. */
  function EdgeOf(g: Grant): Edge {
    Edge(g.member, TargetPrincipal(g.binding))
  }

  /** The edges of the kept grants, in order. */
  function Selected(gs: seq<Grant>, keep: Grant -> bool, edge: Grant -> Edge): seq<Edge> {
    if |gs| == 0 then []
    else
      var g := gs[|gs| - 1];
      Selected(gs[..|gs| - 1], keep, edge) + (if keep(g) then [edge(g)] else [])
  }

  /** The edges contributed by the grants, in order. */
  function EdgesOf(gs: seq<Grant>, impersonationRoles: seq<string>, canImpersonate: (string, string) -> bool): seq<Edge> {
    if |gs| == 0 then []
    else
      var g := gs[|gs| - 1];
      EdgesOf(gs[..|gs| - 1], impersonationRoles, canImpersonate) +
        (if IsEdge(g, impersonationRoles, canImpersonate) then [EdgeOf(g)] else [])
  }

  /** EdgesOf is Selected with IsEdge as the filter. */
  lemma {:induction false} EdgesSelected(gs: seq<Grant>, impersonationRoles: seq<string>, canImpersonate: (string, string) -> bool)
    ensures EdgesOf(gs, impersonationRoles, canImpersonate) == Selected(gs, EdgeFilter(impersonationRoles, canImpersonate), EdgeOf)
  {
    if |gs| > 0 {
      EdgesSelected(gs[..|gs| - 1], impersonationRoles, canImpersonate);
    }
  }

  /** IsEdge as a value, for Selected. */
  function EdgeFilter(impersonationRoles: seq<string>, canImpersonate: (string, string) -> bool): Grant -> bool {
    g => IsEdge(g, impersonationRoles, canImpersonate)
  }

  lemma SelectedSnoc(gs: seq<Grant>, g: Grant, keep: Grant -> bool, edge: Grant -> Edge)
    ensures Selected(gs + [g], keep, edge) == Selected(gs, keep, edge) + (if keep(g) then [edge(g)] else [])
  {
    assert (gs + [g])[..|gs|] == gs;
  }

  lemma {:induction false} SelectedNone(done: seq<Grant>, more: seq<Grant>, keep: Grant -> bool, edge: Grant -> Edge)
    requires forall k :: 0 <= k < |more| ==> !keep(more[k])
    ensures Selected(done + more, keep, edge) == Selected(done, keep, edge)
  {
    if |more| > 0 {
      var init := more[..|more| - 1];
      var last := more[|more| - 1];
      assert done + more == (done + init) + [last];
      SelectedSnoc(done + init, last, keep, edge);
      assert Selected(done + init, keep, edge) + [] == Selected(done + init, keep, edge);
      SelectedNone(done, init, keep, edge);
    } else {
      assert done + more == done;
    }
  }

  lemma {:induction false} SelectedSource(gs: seq<Grant>, keep: Grant -> bool, edge: Grant -> Edge, e: Edge)
    requires e in Selected(gs, keep, edge)
    ensures exists k :: 0 <= k < |gs| && keep(gs[k]) && e == edge(gs[k])
  {
    var init := gs[..|gs| - 1];
    if e in Selected(init, keep, edge) {
      SelectedSource(init, keep, edge, e);
      var k :| 0 <= k < |init| && keep(init[k]) && e == edge(init[k]);
      assert gs[k] == init[k];
    } else {
      assert keep(gs[|gs| - 1]) && e == edge(gs[|gs| - 1]);
    }
  }

  lemma {:induction false} SelectedComplete(gs: seq<Grant>, keep: Grant -> bool, edge: Grant -> Edge, k: int)
    requires 0 <= k < |gs| && keep(gs[k])
    ensures edge(gs[k]) in Selected(gs, keep, edge)
  {
    var init := gs[..|gs| - 1];
    if k < |init| {
      assert init[k] == gs[k];
      SelectedComplete(init, keep, edge, k);
    }
  }

  /** Appending one target to a source's adjacency list (creating the list if needed). */
  function AddEdge(graph: Graph, e: Edge): (r: Graph)
    ensures r.Keys == graph.Keys + {e.source}
    ensures r[e.source] == (if e.source in graph then graph[e.source] else []) + [e.target]
    ensures forall a :: a in graph && a != e.source ==> r[a] == graph[a]
  {
    graph[e.source := (if e.source in graph then graph[e.source] else []) + [e.target]]
  }

  /** The adjacency lists after appending every edge in order. */
  function Adjacency(es: seq<Edge>): Graph {
    if |es| == 0 then map[]
    else AddEdge(Adjacency(es[..|es| - 1]), es[|es| - 1])
  }

  lemma EdgesSnoc(gs: seq<Grant>, g: Grant, impersonationRoles: seq<string>, canImpersonate: (string, string) -> bool)
    ensures EdgesOf(gs + [g], impersonationRoles, canImpersonate) ==
      EdgesOf(gs, impersonationRoles, canImpersonate) + (if IsEdge(g, impersonationRoles, canImpersonate) then [EdgeOf(g)] else [])
  {
    assert (gs + [g])[..|gs|] == gs;
  }

  lemma AdjacencySnoc(es: seq<Edge>, e: Edge)
    ensures Adjacency(es + [e]) == AddEdge(Adjacency(es), e)
  {
    assert (es + [e])[..|es|] == es;
  }

  /** The target type of every impersonation binding is "serviceAccount". */
  lemma TargetIsServiceAccount(b: IAMBinding)
    ensures GetPrincipalType(TargetPrincipal(b)) == "serviceAccount"
    ensures HasPrefix(TargetPrincipal(b), ServiceAccountPrefix)
  {
    PrincipalTypeOf("serviceAccount", ExtractServiceAccountEmail(b.resourceID));
    assert TargetPrincipal(b) == "serviceAccount" + ":" + ExtractServiceAccountEmail(b.resourceID);
  }

  /** BuildImpersonationGraphWithFunc: one edge per qualifying (binding, member), appended in order. */
  method BuildImpersonationGraphWithFunc(bindings: seq<IAMBinding>, impersonationRoles: seq<string>,
                                         canImpersonate: (string, string) -> bool)
    returns (graph: Graph)
    ensures graph == Adjacency(EdgesOf(Grants(bindings), impersonationRoles, canImpersonate))
  {
    graph := map[];
    var i := 0;
    while i < |bindings|
      invariant 0 <= i <= |bindings|
      invariant graph == Adjacency(EdgesOf(Grants(bindings[..i]), impersonationRoles, canImpersonate))
    {
      assert bindings[..i + 1][..i] == bindings[..i];
      assert Grants(bindings[..i + 1]) == Grants(bindings[..i]) + MemberGrants(bindings[i]);
      graph := AddBindingEdges(graph, bindings[i], impersonationRoles, canImpersonate, Grants(bindings[..i]));
      i := i + 1;
    }
    assert bindings[..i] == bindings;
  }

  /**
   * BuildImpersonationGraph: the graph under the built-in service-account
   * rule, so every edge runs from a user, group, principal set or service
   * account to a different service account.
   */
  method BuildImpersonationGraph(bindings: seq<IAMBinding>, impersonationRoles: seq<string>)
    returns (graph: Graph)
    ensures graph == Adjacency(EdgesOf(Grants(bindings), impersonationRoles, CanImpersonate))
    ensures forall a, t :: a in graph && t in graph[a] ==>
      GetPrincipalType(t) == "serviceAccount" && a != t &&
      GetPrincipalType(a) in {"serviceAccount", "user", "group", "principalSet"}
  {
    graph := BuildImpersonationGraphWithFunc(bindings, impersonationRoles, CanImpersonate);
    forall a, t | a in graph && t in graph[a]
      ensures GetPrincipalType(t) == "serviceAccount"
    {
      GraphEdgesSound(bindings, impersonationRoles, CanImpersonate, a, t);
      var i :| 0 <= i < |bindings| && a in bindings[i].members &&
        IsImpersonationRole(impersonationRoles, bindings[i].role) && t == TargetPrincipal(bindings[i]);
      TargetIsServiceAccount(bindings[i]);
    }
    forall a, t | a in graph && t in graph[a]
      ensures a != t && GetPrincipalType(a) in {"serviceAccount", "user", "group", "principalSet"}
    {
      GraphEdgesSound(bindings, impersonationRoles, CanImpersonate, a, t);
    }
  }

  /** The body of the binding loop: skip a binding that is not an impersonation grant, else add each member's edge. */
  method AddBindingEdges(graph0: Graph, b: IAMBinding, impersonationRoles: seq<string>,
                         canImpersonate: (string, string) -> bool, ghost done: seq<Grant>)
    returns (graph: Graph)
    requires graph0 == Adjacency(EdgesOf(done, impersonationRoles, canImpersonate))
    ensures graph == Adjacency(EdgesOf(done + MemberGrants(b), impersonationRoles, canImpersonate))
  {
    graph := graph0;
    if !IsImpersonationRole(impersonationRoles, b.role) || ExtractServiceAccountEmail(b.resourceID) == "" {
      NoEdges(done, MemberGrants(b), impersonationRoles, canImpersonate);
      return;
    }
    var targetSA := ExtractServiceAccountEmail(b.resourceID);
    var targetPrincipal := ServiceAccountPrefix + targetSA;
    var targetType := GetPrincipalType(targetPrincipal);
    graph := AddMemberEdges(graph, b, targetPrincipal, targetType, impersonationRoles, canImpersonate, done);
  }

  /** The member loop for an impersonation binding on the service account `targetPrincipal`. */
  method AddMemberEdges(graph0: Graph, b: IAMBinding, targetPrincipal: string, targetType: string,
                        impersonationRoles: seq<string>, canImpersonate: (string, string) -> bool, ghost done: seq<Grant>)
    returns (graph: Graph)
    requires ImpersonationBinding(b, impersonationRoles) && targetPrincipal == TargetPrincipal(b)
    requires targetType == GetPrincipalType(targetPrincipal)
    requires graph0 == Adjacency(EdgesOf(done, impersonationRoles, canImpersonate))
    ensures graph == Adjacency(EdgesOf(done + MemberGrants(b), impersonationRoles, canImpersonate))
  {
    graph := graph0;
    assert done + MemberGrants(b)[..0] == done;
    ghost var es := EdgesOf(done, impersonationRoles, canImpersonate);
    for j := 0 to |b.members|
      invariant es == EdgesOf(done + MemberGrants(b)[..j], impersonationRoles, canImpersonate)
      invariant graph == Adjacency(es)
    {
      graph, es := AddMemberEdge(graph, b, j, targetPrincipal, targetType, impersonationRoles, canImpersonate, done, es);
    }
    assert MemberGrants(b)[..|b.members|] == MemberGrants(b);
  }

  /** One iteration of the member loop: the member's edge is appended when its type may impersonate the target and it is not the target. */
  method AddMemberEdge(graph0: Graph, b: IAMBinding, j: nat, targetPrincipal: string, targetType: string,
                       impersonationRoles: seq<string>, canImpersonate: (string, string) -> bool,
                       ghost done: seq<Grant>, ghost es0: seq<Edge>)
    returns (graph: Graph, ghost es: seq<Edge>)
    requires j < |b.members|
    requires ImpersonationBinding(b, impersonationRoles) && targetPrincipal == TargetPrincipal(b)
    requires targetType == GetPrincipalType(targetPrincipal)
    requires es0 == EdgesOf(done + MemberGrants(b)[..j], impersonationRoles, canImpersonate) && graph0 == Adjacency(es0)
    ensures es == EdgesOf(done + MemberGrants(b)[..j + 1], impersonationRoles, canImpersonate) && graph == Adjacency(es)
  {
    graph, es := graph0, es0;
    var member := b.members[j];
    var sourceType := GetPrincipalType(member);
    MemberEdgeStep(done, b, j, impersonationRoles, canImpersonate);
    if !canImpersonate(sourceType, targetType) || member == targetPrincipal {
      assert es0 + [] == es0;
      return;
    }
    AdjacencySnoc(es, Edge(member, targetPrincipal));
    graph := AppendTarget(graph, member, targetPrincipal);
    es := es + [Edge(member, targetPrincipal)];
  }

  /** Appending one target to a member's list, creating the list first when the member has none. */
  method AppendTarget(graph0: Graph, member: string, targetPrincipal: string) returns (graph: Graph)
    ensures graph == AddEdge(graph0, Edge(member, targetPrincipal))
  {
    graph := graph0;
    if member !in graph {
      graph := graph[member := []];
    }
    graph := graph[member := graph[member] + [targetPrincipal]];
  }

  /** The edges after one more member of an impersonation binding. */
  lemma MemberEdgeStep(done: seq<Grant>, b: IAMBinding, j: nat, impersonationRoles: seq<string>,
                       canImpersonate: (string, string) -> bool)
    requires j < |b.members|
    requires ImpersonationBinding(b, impersonationRoles)
    ensures var m := b.members[j];
      var t := TargetPrincipal(b);
      EdgesOf(done + MemberGrants(b)[..j + 1], impersonationRoles, canImpersonate) ==
        EdgesOf(done + MemberGrants(b)[..j], impersonationRoles, canImpersonate) +
        (if canImpersonate(GetPrincipalType(m), GetPrincipalType(t)) && m != t then [Edge(m, t)] else [])
  {
    var g := Grant(b, b.members[j]);
    PrefixSnoc(done, MemberGrants(b), j);
    EdgesSnoc(done + MemberGrants(b)[..j], g, impersonationRoles, canImpersonate);
  }

  /** Grants whose binding fails the binding-level checks contribute no edges. */
  lemma NoEdges(done: seq<Grant>, more: seq<Grant>, impersonationRoles: seq<string>,
                canImpersonate: (string, string) -> bool)
    requires forall k :: 0 <= k < |more| ==> !ImpersonationBinding(more[k].binding, impersonationRoles)
    ensures EdgesOf(done + more, impersonationRoles, canImpersonate) == EdgesOf(done, impersonationRoles, canImpersonate)
  {
    EdgesSelected(done + more, impersonationRoles, canImpersonate);
    EdgesSelected(done, impersonationRoles, canImpersonate);
    SelectedNone(done, more, EdgeFilter(impersonationRoles, canImpersonate), EdgeOf);
  }

  /** An edge is in the graph iff it is one of the edges, and every key has at least one target. */
  lemma {:induction false} AdjacencyEdges(es: seq<Edge>, a: string, t: string)
    ensures (a in Adjacency(es) && t in Adjacency(es)[a]) <==> Edge(a, t) in es
    ensures a in Adjacency(es) ==> |Adjacency(es)[a]| > 0
  {
    if |es| > 0 {
      var init := es[..|es| - 1];
      AdjacencyEdges(init, a, t);
      assert es == init + [es[|es| - 1]];
    }
  }

  /** Each edge comes from a grant that passes the checks. */
  lemma EdgeSource(gs: seq<Grant>, impersonationRoles: seq<string>, canImpersonate: (string, string) -> bool, e: Edge)
    requires e in EdgesOf(gs, impersonationRoles, canImpersonate)
    ensures exists k :: 0 <= k < |gs| && IsEdge(gs[k], impersonationRoles, canImpersonate) && e == EdgeOf(gs[k])
  {
    EdgesSelected(gs, impersonationRoles, canImpersonate);
    SelectedSource(gs, EdgeFilter(impersonationRoles, canImpersonate), EdgeOf, e);
  }

  /** Every qualifying grant contributes its edge. */
  lemma EdgeComplete(gs: seq<Grant>, impersonationRoles: seq<string>, canImpersonate: (string, string) -> bool, k: int)
    requires 0 <= k < |gs| && IsEdge(gs[k], impersonationRoles, canImpersonate)
    ensures EdgeOf(gs[k]) in EdgesOf(gs, impersonationRoles, canImpersonate)
  {
    EdgesSelected(gs, impersonationRoles, canImpersonate);
    SelectedComplete(gs, EdgeFilter(impersonationRoles, canImpersonate), EdgeOf, k);
  }

  /**
   * Every edge a -> t of the graph comes from a member a of a binding with an
   * impersonation role on a service account t that a's type may impersonate,
   * and t is never a itself; conversely every such member has its edge.
   */
  lemma GraphEdges(bindings: seq<IAMBinding>, impersonationRoles: seq<string>, canImpersonate: (string, string) -> bool,
                   a: string, t: string)
    ensures var graph := Adjacency(EdgesOf(Grants(bindings), impersonationRoles, canImpersonate));
      a in graph && t in graph[a] ==>
        HasPrefix(t, ServiceAccountPrefix) && a != t &&
        canImpersonate(GetPrincipalType(a), "serviceAccount") &&
        exists i :: (0 <= i < |bindings| && a in bindings[i].members &&
          IsImpersonationRole(impersonationRoles, bindings[i].role) && t == TargetPrincipal(bindings[i]))
    ensures var graph := Adjacency(EdgesOf(Grants(bindings), impersonationRoles, canImpersonate));
      forall i :: (0 <= i < |bindings| && a in bindings[i].members &&
        IsEdge(Grant(bindings[i], a), impersonationRoles, canImpersonate) && t == TargetPrincipal(bindings[i])) ==>
        a in graph && t in graph[a]
  {
    GraphEdgesSound(bindings, impersonationRoles, canImpersonate, a, t);
    GraphEdgesComplete(bindings, impersonationRoles, canImpersonate, a, t);
  }

  lemma GraphEdgesSound(bindings: seq<IAMBinding>, impersonationRoles: seq<string>, canImpersonate: (string, string) -> bool,
                        a: string, t: string)
    ensures var graph := Adjacency(EdgesOf(Grants(bindings), impersonationRoles, canImpersonate));
      a in graph && t in graph[a] ==>
        HasPrefix(t, ServiceAccountPrefix) && a != t &&
        canImpersonate(GetPrincipalType(a), "serviceAccount") &&
        exists i :: (0 <= i < |bindings| && a in bindings[i].members &&
          IsImpersonationRole(impersonationRoles, bindings[i].role) && t == TargetPrincipal(bindings[i]))
  {
    var gs := Grants(bindings);
    var es := EdgesOf(gs, impersonationRoles, canImpersonate);
    AdjacencyEdges(es, a, t);
    if Edge(a, t) in es {
      EdgeSource(gs, impersonationRoles, canImpersonate, Edge(a, t));
      var k :| 0 <= k < |gs| && IsEdge(gs[k], impersonationRoles, canImpersonate) &&
        Edge(a, t) == EdgeOf(gs[k]);
      GrantsOfBindings(bindings);
      assert gs[k] in gs;
      SoundGrant(bindings, gs[k], impersonationRoles, canImpersonate);
    }
  }

  /** A qualifying grant of one of the bindings has the properties its edge must have. */
  lemma SoundGrant(bindings: seq<IAMBinding>, g: Grant, impersonationRoles: seq<string>,
                   canImpersonate: (string, string) -> bool)
    requires FromBinding(bindings, g) && IsEdge(g, impersonationRoles, canImpersonate)
    ensures HasPrefix(TargetPrincipal(g.binding), ServiceAccountPrefix) && g.member != TargetPrincipal(g.binding)
    ensures canImpersonate(GetPrincipalType(g.member), "serviceAccount")
    ensures exists i :: (0 <= i < |bindings| && g.member in bindings[i].members &&
      IsImpersonationRole(impersonationRoles, bindings[i].role) && TargetPrincipal(g.binding) == TargetPrincipal(bindings[i]))
  {
    TargetIsServiceAccount(g.binding);
    var i :| 0 <= i < |bindings| && g.binding == bindings[i] && g.member in bindings[i].members;
  }

  lemma GraphEdgesComplete(bindings: seq<IAMBinding>, impersonationRoles: seq<string>,
                           canImpersonate: (string, string) -> bool, a: string, t: string)
    ensures var graph := Adjacency(EdgesOf(Grants(bindings), impersonationRoles, canImpersonate));
      forall i :: (0 <= i < |bindings| && a in bindings[i].members &&
        IsEdge(Grant(bindings[i], a), impersonationRoles, canImpersonate) && t == TargetPrincipal(bindings[i])) ==>
        a in graph && t in graph[a]
  {
    var gs := Grants(bindings);
    var es := EdgesOf(gs, impersonationRoles, canImpersonate);
    AdjacencyEdges(es, a, t);
    GrantsOfBindings(bindings);
    forall i | 0 <= i < |bindings| && a in bindings[i].members &&
        IsEdge(Grant(bindings[i], a), impersonationRoles, canImpersonate) && t == TargetPrincipal(bindings[i])
      ensures Edge(a, t) in es
    {
      assert FromBinding(bindings, Grant(bindings[i], a));
      var k :| 0 <= k < |gs| && gs[k] == Grant(bindings[i], a);
      EdgeComplete(gs, impersonationRoles, canImpersonate, k);
    }
  }

  /** The same grant seen twice yields the same target twice: duplicate edges are kept. */
  lemma DuplicateEdgesKept(es: seq<Edge>, e: Edge)
    ensures var g := Adjacency(es + [e, e]);
      e.source in g && |g[e.source]| >= 2 && g[e.source][|g[e.source]| - 2..] == [e.target, e.target]
  {
    assert (es + [e, e])[..|es| + 1] == es + [e];
    assert (es + [e])[..|es|] == es;
  }

  // ---------------------------------------------------------------------
  // Transitive access: the breadth-first search.

  predicate HasEdge(graph: Graph, a: string, b: string) {
    a in graph && b in graph[a]
  }

  /** `chain` is a walk of impersonation edges starting at `root` (the root itself excluded). */
  ghost predicate IsPath(graph: Graph, root: string, chain: seq<string>) {
    (|chain| > 0 ==> HasEdge(graph, root, chain[0])) &&
    forall i :: 0 <= i < |chain| - 1 ==> HasEdge(graph, chain[i], chain[i + 1])
  }

  /** p is the root or the end of some impersonation walk from the root. */
  ghost predicate Reachable(graph: Graph, root: string, p: string) {
    p == root || exists c :: IsPath(graph, root, c) && |c| > 0 && c[|c| - 1] == p
  }

  /** The end of every walk from the root lies in a list that holds the root and is closed under edges. */
  lemma {:induction false} PathEndInClosed(graph: Graph, root: string, c: seq<string>, s: seq<string>)
    requires root in s
    requires forall a, t :: a in s && HasEdge(graph, a, t) ==> t in s
    requires IsPath(graph, root, c) && |c| > 0
    ensures c[|c| - 1] in s
    decreases |c|
  {
    if |c| > 1 {
      var c' := c[..|c| - 1];
      forall i | 0 <= i < |c'| - 1
        ensures HasEdge(graph, c'[i], c'[i + 1])
      {
        assert c'[i] == c[i] && c'[i + 1] == c[i + 1];
      }
      PathEndInClosed(graph, root, c', s);
      assert HasEdge(graph, c[|c| - 2], c[|c| - 1]);
    }
  }

  /** Everything reachable from the root lies in such a list. */
  lemma ReachableInClosed(graph: Graph, root: string, s: seq<string>, p: string)
    requires root in s
    requires forall a, t :: a in s && HasEdge(graph, a, t) ==> t in s
    requires Reachable(graph, root, p)
    ensures p in s
  {
    if p != root {
      var c :| IsPath(graph, root, c) && |c| > 0 && c[|c| - 1] == p;
      PathEndInClosed(graph, root, c, s);
    }
  }

  /** The roles the root holds directly on resource r. */
  function DirectRoles(rootData: PrincipalData, r: string): set<string> {
    if r in rootData.resourceAccess then rootData.resourceAccess[r].roles else {}
  }

  /** The roles of `meta` the root does not already hold directly on r. */
  ghost function Novel(meta: ResourceMetadata, rootData: PrincipalData, r: string): set<string> {
    meta.roles - DirectRoles(rootData, r)
  }

  /** The role loop of AnalyzeTransitiveAccess: the resource's roles the root does not hold directly. */
  method NewRoles(meta: ResourceMetadata, rootData: PrincipalData, resID: string) returns (newRoles: set<string>)
    ensures newRoles == Novel(meta, rootData, resID)
  {
    newRoles := {};
    var pending := meta.roles;
    while pending != {}
      invariant pending <= meta.roles
      invariant newRoles == Novel(meta, rootData, resID) - pending
      decreases |pending|
    {
      var role :| role in pending;
      var hasRole := false;
      if resID in rootData.resourceAccess {
        hasRole := role in rootData.resourceAccess[resID].roles;
      }
      if !hasRole {
        newRoles := newRoles + {role};
      }
      pending := pending - {role};
    }
  }

  /** Target data adds an entry for r: it has r and some role on r is new to the root. */
  ghost predicate Adds(targetData: PrincipalData, rootData: PrincipalData, r: string) {
    r in targetData.resourceAccess && Novel(targetData.resourceAccess[r], rootData, r) != {}
  }

  /** Every resource on which a principal reachable from the root holds a role new to the root has an entry. */
  ghost predicate ReachesAll(directAccess: map<string, PrincipalData>, graph: Graph, root: string, rootData: PrincipalData,
                             trans: map<string, AccessVia>) {
    forall p, r :: Reachable(graph, root, p) && p in directAccess && Adds(directAccess[p], rootData, r) ==> r in trans
  }

  /** The entry a target's access on r contributes. */
  ghost function EntryFor(targetData: PrincipalData, rootData: PrincipalData, r: string, chain: seq<string>): AccessVia
    requires r in targetData.resourceAccess
  {
    var meta := targetData.resourceAccess[r];
    AccessVia(ResourceMetadata(meta.rtype, Novel(meta, rootData, r), map[]), chain)
  }

  /** Merging a reached principal's own data adds nothing: none of its roles are new to it. */
  lemma NothingNovelFromSelf(rootData: PrincipalData, r: string)
    ensures !Adds(rootData, rootData, r)
  {
    if r in rootData.resourceAccess {
      assert Novel(rootData.resourceAccess[r], rootData, r) == {};
    }
  }

  /**
   * The resource loop of AnalyzeTransitiveAccess: every resource of the
   * target with roles new to the root is (over)written with those roles and
   * the current chain; every other entry is kept. Distinct resources touch
   * distinct keys, so the map's iteration order does not matter.
   */
  method MergeTargetAccess(trans0: map<string, AccessVia>, targetData: PrincipalData, rootData: PrincipalData,
                           chain: seq<string>)
    returns (trans: map<string, AccessVia>)
    ensures forall r :: Adds(targetData, rootData, r) ==> r in trans && trans[r] == EntryFor(targetData, rootData, r, chain)
    ensures forall r :: !Adds(targetData, rootData, r) ==>
      (r in trans <==> r in trans0) && (r in trans ==> trans[r] == trans0[r])
  {
    trans := trans0;
    var pending := targetData.resourceAccess.Keys;
    while pending != {}
      invariant pending <= targetData.resourceAccess.Keys
      invariant forall r :: r !in pending && Adds(targetData, rootData, r) ==>
        r in trans && trans[r] == EntryFor(targetData, rootData, r, chain)
      invariant forall r :: (r in pending || !Adds(targetData, rootData, r)) ==>
        (r in trans <==> r in trans0) && (r in trans ==> trans[r] == trans0[r])
      decreases |pending|
    {
      var resID :| resID in pending;
      var resMeta := targetData.resourceAccess[resID];
      var newRoles := NewRoles(resMeta, rootData, resID);
      if |newRoles| > 0 {
        trans := trans[resID := AccessVia(ResourceMetadata(resMeta.rtype, newRoles, map[]), chain)];
      }
      pending := pending - {resID};
    }
  }

  datatype QueueItem = QueueItem(principal: string, chain: seq<string>)

  /** Every principal the search can ever hold: the root and every graph target. */
  ghost function Universe(graph: Graph, root: string): set<string> {
    {root} + set a, i | a in graph && 0 <= i < |graph[a]| :: graph[a][i]
  }

  lemma InUniverse(graph: Graph, root: string, a: string, t: string)
    requires HasEdge(graph, a, t)
    ensures t in Universe(graph, root)
  {
    var i :| 0 <= i < |graph[a]| && graph[a][i] == t;
  }

  /**
   * A queue entry: its chain is a duplicate-free walk from the root ending at
   * its principal (empty only for the root itself), and every principal on the
   * chain before the last one has already been expanded.
   */
  ghost predicate ItemOk(graph: Graph, root: string, visited: set<string>, q: QueueItem) {
    var c := q.chain;
    NoDup(c) && IsPath(graph, root, c) &&
    (c == [] ==> q.principal == root) &&
    (c != [] ==> q.principal == c[|c| - 1]) &&
    forall i :: 0 <= i < |c| - 1 ==> c[i] in visited
  }

  ghost predicate Queued(queue: seq<QueueItem>, p: string) {
    exists k :: 0 <= k < |queue| && queue[k].principal == p
  }

  /** A recorded entry: a non-empty walk without repeats from the root to a principal whose new roles on r it holds. */
  ghost predicate ValidEntry(directAccess: map<string, PrincipalData>, graph: Graph, root: string, rootData: PrincipalData,
                             r: string, v: AccessVia) {
    var ch := v.viaChain;
    |ch| > 0 && NoDup(ch) && IsPath(graph, root, ch) &&
    ch[|ch| - 1] in directAccess && Adds(directAccess[ch[|ch| - 1]], rootData, r) &&
    v == EntryFor(directAccess[ch[|ch| - 1]], rootData, r, ch)
  }

  /** The facts about the queue, the expanded principals and the entries that every step of the search keeps. */
  ghost predicate SearchInv(directAccess: map<string, PrincipalData>, graph: Graph, root: string, rootData: PrincipalData,
                            visited: set<string>, queue: seq<QueueItem>, merged: set<string>, trans: map<string, AccessVia>) {
    (forall k :: 0 <= k < |queue| ==>
      queue[k].principal in Universe(graph, root) && ItemOk(graph, root, visited, queue[k]) &&
      (queue[k].chain != [] ==> queue[k].principal in merged)) &&
    (forall v :: v in visited ==> v == root || v in merged) &&
    (forall r :: r in trans ==> ValidEntry(directAccess, graph, root, rootData, r, trans[r])) &&
    (forall t, r :: t in merged && t in directAccess && Adds(directAccess[t], rootData, r) ==> r in trans)
  }

  /**
   * AnalyzeTransitiveAccess. Returns None iff no principal of directAccess
   * matches the email; otherwise some matching principal (the Go code takes
   * the first in map order) and the resources it reaches through
   * impersonation. `expanded` lists the principals whose edges the search
   * followed, each once; they are exactly the principals reachable from the
   * root, and every resource on which one of them holds a role new to the
   * root has an entry.
   */
  method AnalyzeTransitiveAccess(accountEmail: string, directAccess: map<string, PrincipalData>, graph: Graph)
    returns (result: Option<TransitiveAccess>, ghost expanded: seq<string>)
    ensures result.None? <==> forall p :: p in directAccess ==> !MatchesPrincipalEmail(p, accountEmail)
    ensures result.Some? ==> result.value.principal in directAccess
    ensures result.Some? ==>
      var root := result.value.principal;
      var rootData := directAccess[root];
      var trans := result.value.transitiveAccess;
      && MatchesPrincipalEmail(root, accountEmail)
      && result.value.directAccess == rootData
      && (forall r :: r in trans ==> ValidEntry(directAccess, graph, root, rootData, r, trans[r]))
      && NoDup(expanded) && root in expanded
      && (forall p :: p in expanded ==> Reachable(graph, root, p))
      && (forall a, t :: a in expanded && HasEdge(graph, a, t) ==> t in expanded)
      && (forall t, r :: t in expanded && t in directAccess && Adds(directAccess[t], rootData, r) ==> r in trans)
    ensures result.Some? ==>
      ReachesAll(directAccess, graph, result.value.principal, directAccess[result.value.principal], result.value.transitiveAccess)
  {
    expanded := [];
    if forall p :: p in directAccess ==> !MatchesPrincipalEmail(p, accountEmail) {
      return None, expanded;
    }
    var principal :| principal in directAccess && MatchesPrincipalEmail(principal, accountEmail);
    var trans;
    trans, expanded := Search(directAccess, graph, principal);
    result := Some(TransitiveAccess(principal, directAccess[principal], trans));
    forall p, r | Reachable(graph, principal, p) && p in directAccess && Adds(directAccess[p], directAccess[principal], r)
      ensures r in trans
    {
      ReachableInClosed(graph, principal, expanded, p);
    }
  }

  /** The breadth-first search of AnalyzeTransitiveAccess from a matched principal. */
  method Search(directAccess: map<string, PrincipalData>, graph: Graph, principal: string)
    returns (trans: map<string, AccessVia>, ghost expanded: seq<string>)
    requires principal in directAccess
    ensures var rootData := directAccess[principal];
      && (forall r :: r in trans ==> ValidEntry(directAccess, graph, principal, rootData, r, trans[r]))
      && NoDup(expanded) && principal in expanded
      && (forall p :: p in expanded ==> Reachable(graph, principal, p))
      && (forall a, t :: a in expanded && HasEdge(graph, a, t) ==> t in expanded)
      && (forall t, r :: t in expanded && t in directAccess && Adds(directAccess[t], rootData, r) ==> r in trans)
  {
    expanded := [];
    var rootData := directAccess[principal];
    trans := map[];
    var visited: set<string> := {};
    var queue := [QueueItem(principal, [])];
    ghost var merged: set<string> := {};
    ghost var universe := Universe(graph, principal);
    SearchStart(directAccess, graph, principal);
    while |queue| > 0
      invariant LoopInv(directAccess, graph, principal, rootData, universe, visited, expanded, queue, merged, trans)
      decreases |universe - visited|, |queue|
    {
      visited, queue, trans, expanded, merged :=
        SearchStep(directAccess, graph, principal, rootData, universe, visited, expanded, queue, merged, trans);
    }
    SearchDone(directAccess, graph, principal, universe, visited, expanded, merged, trans);
  }

  /** The loop invariant holds before the first turn. */
  lemma SearchStart(directAccess: map<string, PrincipalData>, graph: Graph, principal: string)
    requires principal in directAccess
    ensures LoopInv(directAccess, graph, principal, directAccess[principal], Universe(graph, principal), {}, [],
                    [QueueItem(principal, [])], {}, map[])
  {
    assert principal in Universe(graph, principal);
  }

  /** An empty queue leaves the loop with everything Search promises. */
  lemma SearchDone(directAccess: map<string, PrincipalData>, graph: Graph, principal: string, universe: set<string>,
                   visited: set<string>, expanded: seq<string>, merged: set<string>, trans: map<string, AccessVia>)
    requires principal in directAccess
    requires LoopInv(directAccess, graph, principal, directAccess[principal], universe, visited, expanded, [], merged, trans)
    ensures var rootData := directAccess[principal];
      && (forall r :: r in trans ==> ValidEntry(directAccess, graph, principal, rootData, r, trans[r]))
      && NoDup(expanded) && principal in expanded
      && (forall p :: p in expanded ==> Reachable(graph, principal, p))
      && (forall a, t :: a in expanded && HasEdge(graph, a, t) ==> t in expanded)
      && (forall t, r :: t in expanded && t in directAccess && Adds(directAccess[t], rootData, r) ==> r in trans)
  {
    SearchComplete(directAccess, graph, principal, visited, merged, trans);
  }

  /** The invariant of the breadth-first loop. */
  ghost predicate LoopInv(directAccess: map<string, PrincipalData>, graph: Graph, root: string, rootData: PrincipalData,
                          universe: set<string>, visited: set<string>, expanded: seq<string>, queue: seq<QueueItem>,
                          merged: set<string>, trans: map<string, AccessVia>)
  {
    && universe == Universe(graph, root)
    && visited <= universe
    && (forall p :: p in visited <==> p in expanded)
    && NoDup(expanded)
    && (root in visited || queue == [QueueItem(root, [])])
    && SearchInv(directAccess, graph, root, rootData, visited, queue, merged, trans)
    && (forall v :: v in visited ==> Reachable(graph, root, v))
    && (forall v, t :: v in visited && HasEdge(graph, v, t) ==> t in visited || Queued(queue, t))
  }

  /** One turn of the loop: pop the head; skip it if visited, else visit it and expand its targets. */
  method SearchStep(directAccess: map<string, PrincipalData>, graph: Graph, root: string, rootData: PrincipalData,
                    ghost universe: set<string>, visited0: set<string>, ghost expanded0: seq<string>,
                    queue0: seq<QueueItem>, ghost merged0: set<string>, trans0: map<string, AccessVia>)
    returns (visited: set<string>, queue: seq<QueueItem>, trans: map<string, AccessVia>,
             ghost expanded: seq<string>, ghost merged: set<string>)
    requires |queue0| > 0
    requires LoopInv(directAccess, graph, root, rootData, universe, visited0, expanded0, queue0, merged0, trans0)
    ensures LoopInv(directAccess, graph, root, rootData, universe, visited, expanded, queue, merged, trans)
    ensures |universe - visited| < |universe - visited0| ||
      (|universe - visited| == |universe - visited0| && |queue| < |queue0|)
  {
    visited, queue, trans, expanded, merged := visited0, queue0, trans0, expanded0, merged0;
    var current := queue[0];
    queue := queue[1..];
    if current.principal in visited {
      PopVisitedInv(directAccess, graph, root, rootData, universe, visited, expanded, queue0, merged, trans);
      return;
    }
    visited := visited + {current.principal};
    expanded := expanded + [current.principal];
    VisitInv(directAccess, graph, root, rootData, universe, visited0, expanded0, queue0, merged, trans);
    if current.principal !in graph {
      NoTargetsInv(directAccess, graph, root, rootData, universe, visited, expanded, queue, merged, trans, current);
      return;
    }
    ghost var queue1 := queue;
    queue, trans, merged := ExpandTargets(directAccess, graph, root, rootData, visited, current, queue, trans, merged);
    ExpandedInv(directAccess, graph, root, rootData, universe, visited, expanded, queue1, queue, merged, trans, current);
  }

  /** The loop invariant right after `current` has been marked visited and before its targets are queued. */
  ghost predicate VisitedInv(directAccess: map<string, PrincipalData>, graph: Graph, root: string, rootData: PrincipalData,
                             universe: set<string>, visited: set<string>, expanded: seq<string>, queue: seq<QueueItem>,
                             merged: set<string>, trans: map<string, AccessVia>, current: QueueItem)
  {
    && universe == Universe(graph, root)
    && visited <= universe
    && (forall p :: p in visited <==> p in expanded)
    && NoDup(expanded)
    && root in visited
    && current.principal in visited
    && ItemOk(graph, root, visited, current)
    && SearchInv(directAccess, graph, root, rootData, visited, queue, merged, trans)
    && (forall v :: v in visited ==> Reachable(graph, root, v))
    && (forall v, t :: v in visited && v != current.principal && HasEdge(graph, v, t) ==> t in visited || Queued(queue, t))
  }

  /** Popping an already visited head keeps the loop invariant. */
  lemma PopVisitedInv(directAccess: map<string, PrincipalData>, graph: Graph, root: string, rootData: PrincipalData,
                      universe: set<string>, visited: set<string>, expanded: seq<string>, q: seq<QueueItem>,
                      merged: set<string>, trans: map<string, AccessVia>)
    requires |q| > 0 && q[0].principal in visited
    requires LoopInv(directAccess, graph, root, rootData, universe, visited, expanded, q, merged, trans)
    ensures LoopInv(directAccess, graph, root, rootData, universe, visited, expanded, q[1..], merged, trans)
  {
    PopKeepsInv(directAccess, graph, root, rootData, visited, visited, q, merged, trans);
    PopKeepsClosure(graph, visited, visited, q);
  }

  /** Popping an unvisited head and marking it visited gives the intermediate invariant, and shrinks the unexplored part. */
  lemma VisitInv(directAccess: map<string, PrincipalData>, graph: Graph, root: string, rootData: PrincipalData,
                 universe: set<string>, visited0: set<string>, expanded0: seq<string>, q: seq<QueueItem>,
                 merged: set<string>, trans: map<string, AccessVia>)
    requires |q| > 0 && q[0].principal !in visited0
    requires LoopInv(directAccess, graph, root, rootData, universe, visited0, expanded0, q, merged, trans)
    ensures VisitedInv(directAccess, graph, root, rootData, universe, visited0 + {q[0].principal},
                       expanded0 + [q[0].principal], q[1..], merged, trans, q[0])
    ensures |universe - (visited0 + {q[0].principal})| < |universe - visited0|
  {
    var visited := visited0 + {q[0].principal};
    NoDupSnoc(expanded0, q[0].principal);
    PopKeepsInv(directAccess, graph, root, rootData, visited0, visited, q, merged, trans);
    ExpandShrinks(universe, visited0, q[0].principal);
    ReachableFromItem(graph, root, visited, q[0]);
    PopKeepsClosure(graph, visited0, visited, q);
  }

  /** A visited principal without outgoing edges needs no expansion. */
  lemma NoTargetsInv(directAccess: map<string, PrincipalData>, graph: Graph, root: string, rootData: PrincipalData,
                     universe: set<string>, visited: set<string>, expanded: seq<string>, queue: seq<QueueItem>,
                     merged: set<string>, trans: map<string, AccessVia>, current: QueueItem)
    requires current.principal !in graph
    requires VisitedInv(directAccess, graph, root, rootData, universe, visited, expanded, queue, merged, trans, current)
    ensures LoopInv(directAccess, graph, root, rootData, universe, visited, expanded, queue, merged, trans)
  {
  }

  /** Once the targets of the visited principal are queued, the loop invariant holds again. */
  lemma ExpandedInv(directAccess: map<string, PrincipalData>, graph: Graph, root: string, rootData: PrincipalData,
                    universe: set<string>, visited: set<string>, expanded: seq<string>, queue0: seq<QueueItem>,
                    queue: seq<QueueItem>, merged: set<string>, trans: map<string, AccessVia>, current: QueueItem)
    requires exists merged0, trans0 ::
      VisitedInv(directAccess, graph, root, rootData, universe, visited, expanded, queue0, merged0, trans0, current)
    requires SearchInv(directAccess, graph, root, rootData, visited, queue, merged, trans)
    requires |queue0| <= |queue| && queue[..|queue0|] == queue0
    requires forall t :: HasEdge(graph, current.principal, t) ==> t in visited || Queued(queue, t)
    ensures LoopInv(directAccess, graph, root, rootData, universe, visited, expanded, queue, merged, trans)
  {
    QueuedPrefix(queue0, queue);
  }

  /** At the end, every expanded principal other than the root has been merged, and the root adds nothing. */
  lemma SearchComplete(directAccess: map<string, PrincipalData>, graph: Graph, root: string,
                       visited: set<string>, merged: set<string>, trans: map<string, AccessVia>)
    requires root in directAccess
    requires SearchInv(directAccess, graph, root, directAccess[root], visited, [], merged, trans)
    ensures forall t, r :: t in visited && t in directAccess && Adds(directAccess[t], directAccess[root], r) ==> r in trans
  {
    forall t, r | t in visited && t in directAccess && Adds(directAccess[t], directAccess[root], r)
      ensures r in trans
    {
      if t == root {
        NothingNovelFromSelf(directAccess[root], r);
      }
    }
  }

  /**
   * The target loop of AnalyzeTransitiveAccess for the principal just
   * expanded: a target already on the chain is skipped; every other target
   * has its new access merged under the extended chain and is queued.
   */
  method ExpandTargets(directAccess: map<string, PrincipalData>, graph: Graph, root: string, rootData: PrincipalData,
                       ghost visited: set<string>, current: QueueItem,
                       queue0: seq<QueueItem>, trans0: map<string, AccessVia>, ghost merged0: set<string>)
    returns (queue: seq<QueueItem>, trans: map<string, AccessVia>, ghost merged: set<string>)
    requires current.principal in graph && current.principal in visited
    requires ItemOk(graph, root, visited, current)
    requires SearchInv(directAccess, graph, root, rootData, visited, queue0, merged0, trans0)
    ensures SearchInv(directAccess, graph, root, rootData, visited, queue, merged, trans)
    ensures |queue0| <= |queue| && queue[..|queue0|] == queue0
    ensures forall t :: HasEdge(graph, current.principal, t) ==> t in visited || Queued(queue, t)
  {
    queue, trans, merged := queue0, trans0, merged0;
    var targets := graph[current.principal];
    var j := 0;
    while j < |targets|
      invariant 0 <= j <= |targets|
      invariant SearchInv(directAccess, graph, root, rootData, visited, queue, merged, trans)
      invariant |queue0| <= |queue| && queue[..|queue0|] == queue0
      invariant forall t :: t in targets[..j] ==> t in visited || Queued(queue, t)
    {
      var target := targets[j];
      assert HasEdge(graph, current.principal, target) by { assert targets[j] in targets; }
      assert targets[..j + 1] == targets[..j] + [target];
      if target in current.chain {
        ChainVisited(graph, root, visited, current, target);
        j := j + 1;
        continue;
      }
      var newChain := current.chain + [target];
      var item := QueueItem(target, newChain);
      NewItemOk(graph, root, visited, current, target);
      ghost var trans1 := trans;
      if target in directAccess {
        trans := MergeTargetAccess(trans, directAccess[target], rootData, newChain);
        MergeKeepsInv(directAccess, graph, root, rootData, visited, queue, merged, trans1, trans, item);
      }
      InUniverse(graph, root, current.principal, target);
      AppendKeepsInv(directAccess, graph, root, rootData, visited, queue, merged, trans, item);
      QueuedAppend(queue, item);
      queue := queue + [item];
      merged := merged + {target};
      j := j + 1;
    }
    assert targets[..j] == targets;
  }

  /** Merging the access of a newly queued target keeps the entry facts. */
  lemma MergeKeepsInv(directAccess: map<string, PrincipalData>, graph: Graph, root: string, rootData: PrincipalData,
                      visited: set<string>, queue: seq<QueueItem>, merged: set<string>,
                      trans0: map<string, AccessVia>, trans: map<string, AccessVia>, item: QueueItem)
    requires SearchInv(directAccess, graph, root, rootData, visited, queue, merged, trans0)
    requires ItemOk(graph, root, visited, item) && item.chain != [] && item.principal in directAccess
    requires var td := directAccess[item.principal];
      && (forall r :: Adds(td, rootData, r) ==> r in trans && trans[r] == EntryFor(td, rootData, r, item.chain))
      && (forall r :: !Adds(td, rootData, r) ==> (r in trans <==> r in trans0) && (r in trans ==> trans[r] == trans0[r]))
    ensures SearchInv(directAccess, graph, root, rootData, visited, queue, merged, trans)
    ensures forall r :: Adds(directAccess[item.principal], rootData, r) ==> r in trans
  {
  }

  /** Queueing a valid item whose access has been merged keeps the search facts, with the item counted as merged. */
  lemma AppendKeepsInv(directAccess: map<string, PrincipalData>, graph: Graph, root: string, rootData: PrincipalData,
                       visited: set<string>, queue: seq<QueueItem>, merged: set<string>,
                       trans: map<string, AccessVia>, item: QueueItem)
    requires SearchInv(directAccess, graph, root, rootData, visited, queue, merged, trans)
    requires ItemOk(graph, root, visited, item) && item.principal in Universe(graph, root)
    requires item.principal in directAccess ==> forall r :: Adds(directAccess[item.principal], rootData, r) ==> r in trans
    ensures SearchInv(directAccess, graph, root, rootData, visited, queue + [item], merged + {item.principal}, trans)
  {
    var q := queue + [item];
    assert forall k :: 0 <= k < |queue| ==> q[k] == queue[k];
    assert q[|queue|] == item;
  }

  /** Taking the head off the queue and (possibly) marking it expanded keeps the search facts. */
  lemma PopKeepsInv(directAccess: map<string, PrincipalData>, graph: Graph, root: string, rootData: PrincipalData,
                    before: set<string>, visited: set<string>, q: seq<QueueItem>, merged: set<string>,
                    trans: map<string, AccessVia>)
    requires |q| > 0 && visited == before + {q[0].principal}
    requires SearchInv(directAccess, graph, root, rootData, before, q, merged, trans)
    ensures SearchInv(directAccess, graph, root, rootData, visited, q[1..], merged, trans)
    ensures ItemOk(graph, root, visited, q[0]) && q[0].principal in Universe(graph, root)
  {
    assert forall k :: 0 <= k < |q| - 1 ==> q[1..][k] == q[k + 1];
  }

  lemma QueuedPrefix(q0: seq<QueueItem>, q: seq<QueueItem>)
    requires |q0| <= |q| && q[..|q0|] == q0
    ensures forall t :: Queued(q0, t) ==> Queued(q, t)
  {
    forall t | Queued(q0, t)
      ensures Queued(q, t)
    {
      var k :| 0 <= k < |q0| && q0[k].principal == t;
      assert q[k] == q0[k];
    }
  }

  /** Removing a strict subset element from the unexplored principals shrinks them. */
  lemma ExpandShrinks(universe: set<string>, visited: set<string>, p: string)
    requires p in universe && p !in visited
    ensures |universe - (visited + {p})| < |universe - visited|
  {
    assert universe - (visited + {p}) == (universe - visited) - {p};
  }

  /** Dropping the head of the queue keeps the closure facts, when the head has been expanded. */
  lemma PopKeepsClosure(graph: Graph, s: set<string>, visited: set<string>, q: seq<QueueItem>)
    requires |q| > 0 && q[0].principal in visited
    requires forall v, t :: v in s && HasEdge(graph, v, t) ==> t in visited || Queued(q, t)
    ensures forall v, t :: v in s && HasEdge(graph, v, t) ==> t in visited || Queued(q[1..], t)
  {
    forall v, t | v in s && HasEdge(graph, v, t) && t !in visited
      ensures Queued(q[1..], t)
    {
      var k :| 0 <= k < |q| && q[k].principal == t;
      assert q[1..][k - 1] == q[k];
    }
  }

  lemma QueuedAppend(q: seq<QueueItem>, item: QueueItem)
    ensures forall t :: Queued(q, t) ==> Queued(q + [item], t)
    ensures Queued(q + [item], item.principal)
  {
    assert (q + [item])[|q|] == item;
    forall t | Queued(q, t)
      ensures Queued(q + [item], t)
    {
      var k :| 0 <= k < |q| && q[k].principal == t;
      assert (q + [item])[k] == q[k];
    }
  }

  /** The principal of a queue entry is reachable from the root. */
  lemma ReachableFromItem(graph: Graph, root: string, visited: set<string>, q: QueueItem)
    requires ItemOk(graph, root, visited, q)
    ensures Reachable(graph, root, q.principal)
  {
    if q.chain != [] {
      assert IsPath(graph, root, q.chain) && |q.chain| > 0 && q.chain[|q.chain| - 1] == q.principal;
    }
  }

  /** Every principal on the chain of an entry being expanded has been visited. */
  lemma ChainVisited(graph: Graph, root: string, visited: set<string>, q: QueueItem, t: string)
    requires ItemOk(graph, root, visited, q) && q.principal in visited && t in q.chain
    ensures t in visited
  {
    var i :| 0 <= i < |q.chain| && q.chain[i] == t;
  }

  /** Extending an entry's chain by an edge to a principal not on it gives a valid entry. */
  lemma NewItemOk(graph: Graph, root: string, visited: set<string>, q: QueueItem, t: string)
    requires ItemOk(graph, root, visited, q) && q.principal in visited
    requires HasEdge(graph, q.principal, t) && t !in q.chain
    ensures ItemOk(graph, root, visited, QueueItem(t, q.chain + [t]))
  {
    var c := q.chain;
    var c' := c + [t];
    assert forall i :: 0 <= i < |c| ==> c'[i] == c[i];
    assert forall i :: 0 <= i < |c'| - 1 ==> c'[i] in visited by {
      forall i | 0 <= i < |c'| - 1
        ensures c'[i] in visited
      {
        if i < |c| - 1 {
        } else {
          assert c'[i] == c[|c| - 1] == q.principal;
        }
      }
    }
  }
}
