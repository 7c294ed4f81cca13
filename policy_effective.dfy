/**
 * validateEffectiveAccess of internal/policy/transitive.go: who can reach a
 * selected resource, directly or through impersonation, and which of them
 * the policy does not admit.
 *
 * The Go code gathers a `map[resourceID]map[principal]bool`; here that is an
 * `EffectiveMap` from resource ID to the set of principals.
 */
module PolicyEffective {
  import opened Util
  import opened Bags
  import opened Analyzer
  import opened Impersonation
  import opened PolicyModels
  import opened PolicyMatchers
  import opened PolicyTransitive

  type EffectiveMap = map<string, set<string>>

  predicate InEffective(ea: EffectiveMap, resourceID: string, principal: string) {
    resourceID in ea && principal in ea[resourceID]
  }

  /** The principal holds a role on the resource, which the selector picks by pattern and type. */
  predicate DirectlySelected(glob: Glob, directAccess: DirectAccessMap, sel: ResourceSelector,
                             principal: string, resourceID: string)
  {
    principal in directAccess && resourceID in directAccess[principal].resourceAccess &&
    Matches(glob, resourceID, sel.resourcePattern) &&
    (sel.resourceType == "" || sel.resourceType == "*" ||
     directAccess[principal].resourceAccess[resourceID].rtype == sel.resourceType)
  }

  /** The principal reaches the resource through impersonation, and the selector's pattern picks it (its type is not looked at). */
  predicate TransitivelySelected(glob: Glob, sel: ResourceSelector, tas: map<string, Option<TransitiveAccess>>,
                                 principal: string, resourceID: string)
  {
    principal in tas && tas[principal].Some? && resourceID in tas[principal].value.transitiveAccess &&
    Matches(glob, resourceID, sel.resourcePattern)
  }

  /** `effectiveAccess[resourceID][principal] = true`, creating the inner map when it is missing. */
  function AddAccess(ea: EffectiveMap, resourceID: string, principal: string): (e: EffectiveMap)
    ensures forall r, p :: InEffective(e, r, p) <==> InEffective(ea, r, p) || (r == resourceID && p == principal)
    ensures e.Keys == ea.Keys + {resourceID}
  {
    if resourceID in ea then ea[resourceID := ea[resourceID] + {principal}] else ea[resourceID := {principal}]
  }

  /** The first loop over one principal's direct access. */
  method AddDirectFor(glob: Glob, directAccess: DirectAccessMap, sel: ResourceSelector, principal: string,
                      ea0: EffectiveMap)
    returns (ea: EffectiveMap)
    requires principal in directAccess
    ensures forall r, p :: InEffective(ea, r, p) <==>
      InEffective(ea0, r, p) || (p == principal && DirectlySelected(glob, directAccess, sel, p, r))
  {
    ea := ea0;
    var resources := directAccess[principal].resourceAccess;
    var pending := resources.Keys;
    while pending != {}
      invariant pending <= resources.Keys
      invariant forall r, p :: InEffective(ea, r, p) <==>
        InEffective(ea0, r, p) ||
        (p == principal && r !in pending && DirectlySelected(glob, directAccess, sel, p, r))
      decreases pending
    {
      var resourceID :| resourceID in pending;
      if Matches(glob, resourceID, sel.resourcePattern) &&
         (sel.resourceType == "" || sel.resourceType == "*" || resources[resourceID].rtype == sel.resourceType) {
        ea := AddAccess(ea, resourceID, principal);
      }
      pending := pending - {resourceID};
    }
  }

  /** The first loop: every selected resource a principal holds a role on. */
  method AddDirect(glob: Glob, directAccess: DirectAccessMap, sel: ResourceSelector) returns (ea: EffectiveMap)
    ensures forall r, p :: InEffective(ea, r, p) <==> DirectlySelected(glob, directAccess, sel, p, r)
  {
    ea := map[];
    var pending := directAccess.Keys;
    while pending != {}
      invariant pending <= directAccess.Keys
      invariant forall r, p :: InEffective(ea, r, p) <==> p !in pending && DirectlySelected(glob, directAccess, sel, p, r)
      decreases pending
    {
      var principal :| principal in pending;
      ea := AddDirectFor(glob, directAccess, sel, principal, ea);
      pending := pending - {principal};
    }
  }

  /** The second loop over the resources one principal reaches through impersonation. */
  method AddTransitiveFor(glob: Glob, sel: ResourceSelector, principal: string, t: TransitiveAccess,
                          ea0: EffectiveMap)
    returns (ea: EffectiveMap)
    ensures forall r, p :: InEffective(ea, r, p) <==>
      InEffective(ea0, r, p) ||
      (p == principal && r in t.transitiveAccess && Matches(glob, r, sel.resourcePattern))
  {
    ea := ea0;
    var pending := t.transitiveAccess.Keys;
    while pending != {}
      invariant pending <= t.transitiveAccess.Keys
      invariant forall r, p :: InEffective(ea, r, p) <==>
        InEffective(ea0, r, p) ||
        (p == principal && r in t.transitiveAccess && r !in pending && Matches(glob, r, sel.resourcePattern))
      decreases pending
    {
      var resourceID :| resourceID in pending;
      if Matches(glob, resourceID, sel.resourcePattern) {
        ea := AddAccess(ea, resourceID, principal);
      }
      pending := pending - {resourceID};
    }
  }

  /**
   * The second loop: for each principal of directAccess, the transitive
   * access of its email, recorded in `tas`, and every selected resource
   * reached that way.
   */
  method AddTransitive(glob: Glob, directAccess: DirectAccessMap, graph: Graph, sel: ResourceSelector,
                       ea0: EffectiveMap)
    returns (ea: EffectiveMap, ghost tas: map<string, Option<TransitiveAccess>>)
    ensures TransitiveResults(directAccess, graph, tas)
    ensures forall r, p :: InEffective(ea, r, p) <==>
      InEffective(ea0, r, p) || TransitivelySelected(glob, sel, tas, p, r)
  {
    ea := ea0;
    tas := map[];
    var pending := directAccess.Keys;
    while pending != {}
      invariant pending <= directAccess.Keys
      invariant tas.Keys == directAccess.Keys - pending
      invariant Analyzed(directAccess, graph, tas)
      invariant forall r, p :: InEffective(ea, r, p) <==>
        InEffective(ea0, r, p) || TransitivelySelected(glob, sel, tas, p, r)
      decreases pending
    {
      var principal :| principal in pending;
      var access := TransitiveAccessOf(principal, directAccess, graph);
      TransitiveTableStep(directAccess, graph, tas, principal, access);
      if access.Some? {
        ea := AddTransitiveFor(glob, sel, principal, access.value, ea);
      }
      tas := tas[principal := access];
      pending := pending - {principal};
    }
  }

  /** A pattern-matching resource on which a principal reachable by impersonation holds a role new to the root is transitively selected. */
  lemma ReachedIsSelected(glob: Glob, directAccess: DirectAccessMap, graph: Graph, sel: ResourceSelector,
                          tas: map<string, Option<TransitiveAccess>>, p: string, q: string, r: string)
    requires TransitiveResults(directAccess, graph, tas)
    requires p in directAccess && p in tas && tas[p].Some?
    requires Reachable(graph, tas[p].value.principal, q)
    requires q in directAccess && Adds(directAccess[q], tas[p].value.directAccess, r)
    requires Matches(glob, r, sel.resourcePattern)
    ensures TransitivelySelected(glob, sel, tas, p, r)
  {
    assert IsTransitiveAccessOf(ExtractPrincipalEmail(p), directAccess, graph, tas[p]);
    ReachedHasEntry(ExtractPrincipalEmail(p), directAccess, graph, tas[p], q, r);
  }

  /** Who can reach what: the directly selected pairs, and when `transitive` holds the transitively selected ones. */
  ghost predicate EffectiveOf(glob: Glob, directAccess: DirectAccessMap, sel: ResourceSelector, transitive: bool,
                        tas: map<string, Option<TransitiveAccess>>, ea: EffectiveMap)
  {
    forall r, p :: InEffective(ea, r, p) <==>
      DirectlySelected(glob, directAccess, sel, p, r) || (transitive && TransitivelySelected(glob, sel, tas, p, r))
  }

  /** A principal the policy does not admit: a forbidden one, or one outside a non-empty allow list. */
  predicate Flagged(glob: Glob, e: EffectiveAccessPolicy, principal: string) {
    IsPrincipalIn(glob, principal, e.forbiddenEffectivePrincipals) ||
    !(|e.allowedEffectivePrincipals| == 0 || IsPrincipalIn(glob, principal, e.allowedEffectivePrincipals))
  }

  /** "direct" when directAccess records any role of the principal on the resource, else "transitive". */
  function AccessTag(directAccess: DirectAccessMap, principal: string, resourceID: string): string {
    if principal in directAccess && resourceID in directAccess[principal].resourceAccess then "direct"
    else "transitive"
  }

  function EffectiveV(policy: Policy, principal: string, resourceID: string, tag: string): Violation {
    Violation(policy.name, EffectiveAccess, policy.severity, principal, resourceID, "",
              UnauthorizedEffectiveAccess(tag), [])
  }

  ghost function EffectivePrincipalF(glob: Glob, directAccess: DirectAccessMap, policy: Policy, e: EffectiveAccessPolicy,
                                     resourceID: string): string -> multiset<Violation>
  {
    p => EffectiveFor(glob, directAccess, policy, e, resourceID, p)
  }

  /** The violation for one principal that can reach one resource, when it is not admitted. */
  ghost function EffectiveFor(glob: Glob, directAccess: DirectAccessMap, policy: Policy, e: EffectiveAccessPolicy,
                              resourceID: string, principal: string): multiset<Violation>
  {
    if Flagged(glob, e, principal)
    then multiset{EffectiveV(policy, principal, resourceID, AccessTag(directAccess, principal, resourceID))}
    else multiset{}
  }

  /** The violations for one resource: one per principal that can reach it and is not admitted. */
  ghost function EffectiveResourceBag(glob: Glob, directAccess: DirectAccessMap, policy: Policy, e: EffectiveAccessPolicy,
                                      resourceID: string, principals: set<string>): multiset<Violation>
  {
    Bag(principals, EffectivePrincipalF(glob, directAccess, policy, e, resourceID))
  }

  ghost function EffectiveResF(glob: Glob, directAccess: DirectAccessMap, policy: Policy, e: EffectiveAccessPolicy,
                               ea: EffectiveMap): string -> multiset<Violation>
  {
    r => if r in ea then EffectiveResourceBag(glob, directAccess, policy, e, r, ea[r]) else multiset{}
  }

  ghost function EffectiveBag(glob: Glob, directAccess: DirectAccessMap, policy: Policy, e: EffectiveAccessPolicy,
                              ea: EffectiveMap): multiset<Violation>
  {
    Bag(ea.Keys, EffectiveResF(glob, directAccess, policy, e, ea))
  }

  /** The body of the third loop: one principal that can reach one resource. */
  method CheckEffectivePrincipal(glob: Glob, directAccess: DirectAccessMap, policy: Policy, e: EffectiveAccessPolicy,
                                 resourceID: string, principal: string)
    returns (violations: seq<Violation>)
    ensures multiset(violations) == EffectiveFor(glob, directAccess, policy, e, resourceID, principal)
  {
    violations := [];
    var isAllowed := |e.allowedEffectivePrincipals| == 0 || IsPrincipalIn(glob, principal, e.allowedEffectivePrincipals);
    var isForbidden := IsPrincipalIn(glob, principal, e.forbiddenEffectivePrincipals);
    if isForbidden || !isAllowed {
      var isDirect := false;
      if principal in directAccess && resourceID in directAccess[principal].resourceAccess {
        isDirect := true;
      }
      var accessType := if isDirect then "direct" else "transitive";
      violations := [EffectiveV(policy, principal, resourceID, accessType)];
    }
  }

  /** The third loop, for one resource. */
  method CheckEffectiveResource(glob: Glob, directAccess: DirectAccessMap, policy: Policy, e: EffectiveAccessPolicy,
                                resourceID: string, principals: set<string>)
    returns (violations: seq<Violation>)
    ensures multiset(violations) == EffectiveResourceBag(glob, directAccess, policy, e, resourceID, principals)
  {
    violations := [];
    ghost var f := EffectivePrincipalF(glob, directAccess, policy, e, resourceID);
    var pending := principals;
    while pending != {}
      invariant pending <= principals
      invariant multiset(violations) + Bag(pending, f) == Bag(principals, f)
      decreases pending
    {
      var principal :| principal in pending;
      BagPick(pending, f, principal);
      var found := CheckEffectivePrincipal(glob, directAccess, policy, e, resourceID, principal);
      violations := violations + found;
      pending := pending - {principal};
    }
  }

  /** The third loop: every resource with everyone who can reach it. */
  method CheckEffective(glob: Glob, directAccess: DirectAccessMap, policy: Policy, e: EffectiveAccessPolicy,
                        ea: EffectiveMap)
    returns (violations: seq<Violation>)
    ensures multiset(violations) == EffectiveBag(glob, directAccess, policy, e, ea)
  {
    violations := [];
    ghost var f := EffectiveResF(glob, directAccess, policy, e, ea);
    var pending := ea.Keys;
    while pending != {}
      invariant pending <= ea.Keys
      invariant multiset(violations) + Bag(pending, f) == Bag(ea.Keys, f)
      decreases pending
    {
      var resourceID :| resourceID in pending;
      BagPick(pending, f, resourceID);
      var found := CheckEffectiveResource(glob, directAccess, policy, e, resourceID, ea[resourceID]);
      violations := violations + found;
      pending := pending - {resourceID};
    }
  }

  /**
   * validateEffectiveAccess. `ea` is who can reach which resource: directly,
   * by pattern and type, and, when the policy asks for it, through
   * impersonation, by pattern; `tas` holds the transitive access of each
   * principal of directAccess. The violations are those EffectiveBag names.
   */
  method ValidateEffectiveAccess(glob: Glob, directAccess: DirectAccessMap, graph: Graph, policy: Policy)
    returns (violations: seq<Violation>, ghost ea: EffectiveMap, ghost tas: map<string, Option<TransitiveAccess>>)
    ensures policy.effectiveAccess.None? ==> violations == []
    ensures policy.effectiveAccess.Some? ==>
      var e := policy.effectiveAccess.value;
      && (e.validateEffectiveAccess ==> TransitiveResults(directAccess, graph, tas))
      && EffectiveOf(glob, directAccess, e.selector, e.validateEffectiveAccess, tas, ea)
      && multiset(violations) == EffectiveBag(glob, directAccess, policy, e, ea)
  {
    violations := [];
    ea := map[];
    tas := map[];
    if policy.effectiveAccess.None? {
      return;
    }
    var e := policy.effectiveAccess.value;
    var access := AddDirect(glob, directAccess, e.selector);
    if e.validateEffectiveAccess {
      access, tas := AddTransitive(glob, directAccess, graph, e.selector, access);
    }
    ea := access;
    violations := CheckEffective(glob, directAccess, policy, e, access);
  }

  /** A violation is raised exactly for a principal that can reach a resource and is not admitted. */
  lemma EffectiveMember(glob: Glob, directAccess: DirectAccessMap, policy: Policy, e: EffectiveAccessPolicy,
                        ea: EffectiveMap, v: Violation)
    ensures v in EffectiveBag(glob, directAccess, policy, e, ea) <==>
      exists r, p :: InEffective(ea, r, p) && Flagged(glob, e, p) &&
        v == EffectiveV(policy, p, r, AccessTag(directAccess, p, r))
  {
    var f := EffectiveResF(glob, directAccess, policy, e, ea);
    BagMember(ea.Keys, f, v);
    forall r | r in ea
      ensures v in f(r) <==> exists p :: (p in ea[r] && Flagged(glob, e, p) &&
        v == EffectiveV(policy, p, r, AccessTag(directAccess, p, r)))
    {
      BagMember(ea[r], EffectivePrincipalF(glob, directAccess, policy, e, r), v);
    }
  }

  /** Every violation is about one resource of the map and one principal that can reach it. */
  lemma EffectiveAbout(glob: Glob, directAccess: DirectAccessMap, policy: Policy, e: EffectiveAccessPolicy,
                       ea: EffectiveMap, v: Violation)
    requires v in EffectiveBag(glob, directAccess, policy, e, ea)
    ensures InEffective(ea, v.resource, v.principal) && Flagged(glob, e, v.principal)
    ensures v == EffectiveV(policy, v.principal, v.resource, AccessTag(directAccess, v.principal, v.resource))
  {
    EffectiveMember(glob, directAccess, policy, e, ea, v);
  }

  /** Each principal that can reach a resource and is not admitted is reported once for it. */
  lemma EffectiveOnce(glob: Glob, directAccess: DirectAccessMap, policy: Policy, e: EffectiveAccessPolicy,
                      ea: EffectiveMap, resourceID: string, principal: string)
    requires InEffective(ea, resourceID, principal) && Flagged(glob, e, principal)
    ensures EffectiveBag(glob, directAccess, policy, e, ea)
              [EffectiveV(policy, principal, resourceID, AccessTag(directAccess, principal, resourceID))] == 1
  {
    var v := EffectiveV(policy, principal, resourceID, AccessTag(directAccess, principal, resourceID));
    var f := EffectiveResF(glob, directAccess, policy, e, ea);
    var g := EffectivePrincipalF(glob, directAccess, policy, e, resourceID);
    forall r | r in ea && r != resourceID
      ensures v !in f(r)
    {
      BagMember(ea[r], EffectivePrincipalF(glob, directAccess, policy, e, r), v);
    }
    BagCountSingle(ea.Keys, f, resourceID, v);
    BagCountSingle(ea[resourceID], g, principal, v);
  }

  /** A pair tagged "transitive" was reached through impersonation, and a directly selected pair is tagged "direct". */
  lemma AccessTagSound(glob: Glob, directAccess: DirectAccessMap, sel: ResourceSelector, transitive: bool,
                       tas: map<string, Option<TransitiveAccess>>, ea: EffectiveMap, resourceID: string, principal: string)
    requires EffectiveOf(glob, directAccess, sel, transitive, tas, ea)
    requires InEffective(ea, resourceID, principal)
    ensures AccessTag(directAccess, principal, resourceID) == "transitive" ==>
      transitive && TransitivelySelected(glob, sel, tas, principal, resourceID)
    ensures DirectlySelected(glob, directAccess, sel, principal, resourceID) ==>
      AccessTag(directAccess, principal, resourceID) == "direct"
  {
  }

  /**
   * With validateEffectiveAccess set, a principal reaching a selected
   * resource through impersonation is in the effective access map, and is
   * reported when the policy does not admit it.
   */
  lemma ReachedResourceIsEffective(glob: Glob, directAccess: DirectAccessMap, graph: Graph, policy: Policy,
                                   violations: seq<Violation>, ea: EffectiveMap, tas: map<string, Option<TransitiveAccess>>,
                                   p: string, q: string, r: string)
    requires policy.effectiveAccess.Some? && policy.effectiveAccess.value.validateEffectiveAccess
    requires TransitiveResults(directAccess, graph, tas)
    requires EffectiveOf(glob, directAccess, policy.effectiveAccess.value.selector, true, tas, ea)
    requires multiset(violations) == EffectiveBag(glob, directAccess, policy, policy.effectiveAccess.value, ea)
    requires p in directAccess && p in tas && tas[p].Some?
    requires Reachable(graph, tas[p].value.principal, q)
    requires q in directAccess && Adds(directAccess[q], tas[p].value.directAccess, r)
    requires Matches(glob, r, policy.effectiveAccess.value.selector.resourcePattern)
    ensures InEffective(ea, r, p)
    ensures Flagged(glob, policy.effectiveAccess.value, p) ==>
      EffectiveV(policy, p, r, AccessTag(directAccess, p, r)) in violations
  {
    var e := policy.effectiveAccess.value;
    ReachedIsSelected(glob, directAccess, graph, e.selector, tas, p, q, r);
    if Flagged(glob, e, p) {
      var v := EffectiveV(policy, p, r, AccessTag(directAccess, p, r));
      EffectiveMember(glob, directAccess, policy, e, ea, v);
      assert v in multiset(violations);
    }
  }
}
