/**
 * internal/policy/transitive.go: the persona checks (required and forbidden
 * direct bindings, and the constraints on what a principal reaches by
 * impersonation), privilege escalation through impersonation, and effective
 * (direct plus transitive) access to selected resources.
 *
 * The validator's state is passed as parameters: the direct access per
 * principal and the impersonation graph. Loops over Go maps and sets visit
 * their keys in an unspecified order, so what they produce is specified as
 * a multiset (`Bag`). AnalyzeTransitiveAccess picks one of possibly several
 * matching principals; each method that calls it also returns, as ghost
 * values, the results it got, and its contract is stated against those.
 */
module PolicyTransitive {
  import opened Util
  import opened Bags
  import opened Analyzer
  import opened Impersonation
  import opened PolicyModels
  import opened PolicyMatchers

  type DirectAccessMap = map<string, PrincipalData>

  // ---------------------------------------------------------------------
  // The transitive access of one principal.

  /**
   * `r` is a result AnalyzeTransitiveAccess can return for this email: None
   * iff no principal matches; otherwise a matching principal, every entry a
   * walk to a principal that holds new roles there, and an entry for every
   * resource on which a reachable principal holds a role new to the root.
   */
  ghost predicate IsTransitiveAccessOf(email: string, directAccess: DirectAccessMap, graph: Graph,
                                       r: Option<TransitiveAccess>)
  {
    (r.None? <==> forall p :: p in directAccess ==> !MatchesPrincipalEmail(p, email)) &&
    (r.Some? ==>
      var t := r.value;
      && t.principal in directAccess
      && MatchesPrincipalEmail(t.principal, email)
      && t.directAccess == directAccess[t.principal]
      && (forall res :: res in t.transitiveAccess ==>
           ValidEntry(directAccess, graph, t.principal, t.directAccess, res, t.transitiveAccess[res]))
      && ReachesAll(directAccess, graph, t.principal, t.directAccess, t.transitiveAccess))
  }

  /** `analyzer.AnalyzeTransitiveAccess(ExtractPrincipalEmail(principal), ...)`. */
  method TransitiveAccessOf(principal: string, directAccess: DirectAccessMap, graph: Graph)
    returns (r: Option<TransitiveAccess>)
    ensures IsTransitiveAccessOf(ExtractPrincipalEmail(principal), directAccess, graph, r)
  {
    ghost var expanded;
    r, expanded := AnalyzeTransitiveAccess(ExtractPrincipalEmail(principal), directAccess, graph);
  }

  /** A resource on which a principal reachable from the matched root holds a role new to it has an entry. */
  lemma ReachedHasEntry(email: string, directAccess: DirectAccessMap, graph: Graph, ta: Option<TransitiveAccess>,
                        q: string, r: string)
    requires IsTransitiveAccessOf(email, directAccess, graph, ta)
    requires ta.Some? && Reachable(graph, ta.value.principal, q)
    requires q in directAccess && Adds(directAccess[q], ta.value.directAccess, r)
    ensures r in ta.value.transitiveAccess
  {
  }

  // ---------------------------------------------------------------------
  // checkRequiredBindings

  /** Some resource the principal holds matches the pattern and the type (when given) and carries the role. */
  ghost predicate HasRequired(glob: Glob, data: PrincipalData, rb: RequiredBinding) {
    exists r :: r in data.resourceAccess && Matches(glob, r, rb.resourcePattern) &&
      (rb.resourceType == "" || data.resourceAccess[r].rtype == rb.resourceType) &&
      rb.role in data.resourceAccess[r].roles
  }

  function MissingV(principal: string, rb: RequiredBinding): Violation {
    Violation("", MissingRole, "", principal, rb.resourcePattern, rb.role,
              RequiredBindingMissing(rb.role, rb.resourcePattern), [])
  }

  /**
   * One missing_role violation per required binding that is not satisfied;
   * every required binding is missing for a principal without direct access.
   */
  ghost function RequiredViolations(glob: Glob, directAccess: DirectAccessMap, principal: string,
                                    rbs: seq<RequiredBinding>): (r: seq<Violation>)
    ensures |r| <= |rbs|
    ensures principal !in directAccess ==> |r| == |rbs|
  {
    if |rbs| == 0 then []
    else
      var rb := rbs[|rbs| - 1];
      RequiredViolations(glob, directAccess, principal, rbs[..|rbs| - 1]) +
      (if principal !in directAccess || !HasRequired(glob, directAccess[principal], rb) then [MissingV(principal, rb)] else [])
  }

  /** A violation is raised for a required binding iff the binding is missing. */
  lemma {:induction false} RequiredViolationsIff(glob: Glob, directAccess: DirectAccessMap, principal: string,
                                                 rbs: seq<RequiredBinding>, v: Violation)
    ensures v in RequiredViolations(glob, directAccess, principal, rbs) <==>
      exists i :: 0 <= i < |rbs| && v == MissingV(principal, rbs[i]) &&
        (principal !in directAccess || !HasRequired(glob, directAccess[principal], rbs[i]))
  {
    if |rbs| > 0 {
      var init := rbs[..|rbs| - 1];
      RequiredViolationsIff(glob, directAccess, principal, init, v);
      assert forall i :: 0 <= i < |init| ==> init[i] == rbs[i];
    }
  }

  /** Missing-binding violations carry no policy name or severity. */
  lemma RequiredKinds(glob: Glob, directAccess: DirectAccessMap, principal: string, rbs: seq<RequiredBinding>)
    ensures forall v :: v in RequiredViolations(glob, directAccess, principal, rbs) ==>
      v.policyName == "" && v.severity == "" && v.violationType == MissingRole
  {
    forall v | v in RequiredViolations(glob, directAccess, principal, rbs)
      ensures v.policyName == "" && v.severity == "" && v.violationType == MissingRole
    {
      RequiredViolationsIff(glob, directAccess, principal, rbs, v);
    }
  }

  /** The inner search with `break`: does some resource satisfy the required binding? */
  method FindRequired(glob: Glob, data: PrincipalData, rb: RequiredBinding) returns (found: bool)
    ensures found <==> HasRequired(glob, data, rb)
  {
    var pending := data.resourceAccess.Keys;
    while pending != {}
      invariant pending <= data.resourceAccess.Keys
      invariant forall r :: r in data.resourceAccess.Keys - pending ==>
        !(Matches(glob, r, rb.resourcePattern) &&
          (rb.resourceType == "" || data.resourceAccess[r].rtype == rb.resourceType) &&
          rb.role in data.resourceAccess[r].roles)
      decreases pending
    {
      var resourceID :| resourceID in pending;
      var meta := data.resourceAccess[resourceID];
      pending := pending - {resourceID};
      if !Matches(glob, resourceID, rb.resourcePattern) {
        continue;
      }
      if rb.resourceType != "" && meta.rtype != rb.resourceType {
        continue;
      }
      if rb.role in meta.roles {
        return true;
      }
    }
    return false;
  }

  method CheckRequiredBindings(glob: Glob, directAccess: DirectAccessMap, principal: string, persona: PersonaPolicy)
    returns (violations: seq<Violation>)
    ensures violations == RequiredViolations(glob, directAccess, principal, persona.requiredBindings)
  {
    var rbs := persona.requiredBindings;
    violations := [];
    if principal !in directAccess {
      for i := 0 to |rbs|
        invariant violations == RequiredViolations(glob, directAccess, principal, rbs[..i])
      {
        assert rbs[..i + 1][..i] == rbs[..i];
        violations := violations + [MissingV(principal, rbs[i])];
      }
      assert rbs[..|rbs|] == rbs;
      return;
    }
    var data := directAccess[principal];
    for i := 0 to |rbs|
      invariant violations == RequiredViolations(glob, directAccess, principal, rbs[..i])
    {
      assert rbs[..i + 1][..i] == rbs[..i];
      var found := FindRequired(glob, data, rbs[i]);
      if !found {
        violations := violations + [MissingV(principal, rbs[i])];
      }
    }
    assert rbs[..|rbs|] == rbs;
  }

  // ---------------------------------------------------------------------
  // checkForbiddenBindings

  function ForbiddenAnyRoleV(principal: string, resourceID: string, role: string): Violation {
    Violation("", ForbiddenRole, "", principal, resourceID, role, ForbiddenAccess(resourceID), [])
  }

  function ForbiddenRoleV(principal: string, resourceID: string, role: string): Violation {
    Violation("", ForbiddenRole, "", principal, resourceID, role, ForbiddenRoleOnResource(role, resourceID), [])
  }

  /** The resource matches the forbidden binding's pattern, and its type unless the type is "" or "*". */
  predicate ForbiddenApplies(glob: Glob, fb: ForbiddenBinding, resourceID: string, meta: ResourceMetadata) {
    Matches(glob, resourceID, fb.resourcePattern) &&
    (fb.resourceType == "" || fb.resourceType == "*" || meta.rtype == fb.resourceType)
  }

  ghost function AnyRoleF(principal: string, resourceID: string): string -> multiset<Violation> {
    role => multiset{ForbiddenAnyRoleV(principal, resourceID, role)}
  }

  /** What one forbidden binding raises on one resource: every role for "*", else the one role if held. */
  ghost function ForbiddenOnResourceBag(glob: Glob, principal: string, fb: ForbiddenBinding,
                                        resourceID: string, meta: ResourceMetadata): multiset<Violation>
  {
    if !ForbiddenApplies(glob, fb, resourceID, meta) then multiset{}
    else if fb.role == "*" then Bag(meta.roles, AnyRoleF(principal, resourceID))
    else if fb.role in meta.roles then multiset{ForbiddenRoleV(principal, resourceID, fb.role)}
    else multiset{}
  }

  ghost function ForbiddenResourceF(glob: Glob, principal: string, fb: ForbiddenBinding, data: PrincipalData)
    : string -> multiset<Violation>
  {
    r => if r in data.resourceAccess then ForbiddenOnResourceBag(glob, principal, fb, r, data.resourceAccess[r])
         else multiset{}
  }

  ghost function ForbiddenBindingF(glob: Glob, principal: string, fbs: seq<ForbiddenBinding>, data: PrincipalData)
    : nat -> multiset<Violation>
  {
    (i: nat) => if i < |fbs| then Bag(data.resourceAccess.Keys, ForbiddenResourceF(glob, principal, fbs[i], data))
         else multiset{}
  }

  /** Every forbidden binding, over every resource the principal holds directly. */
  ghost function ForbiddenBag(glob: Glob, directAccess: DirectAccessMap, principal: string,
                              fbs: seq<ForbiddenBinding>): multiset<Violation>
  {
    if principal !in directAccess then multiset{}
    else SumUpTo(|fbs|, ForbiddenBindingF(glob, principal, fbs, directAccess[principal]))
  }

  method ForbiddenOnResource(glob: Glob, principal: string, fb: ForbiddenBinding,
                             resourceID: string, meta: ResourceMetadata)
    returns (violations: seq<Violation>)
    ensures multiset(violations) == ForbiddenOnResourceBag(glob, principal, fb, resourceID, meta)
  {
    violations := [];
    if !Matches(glob, resourceID, fb.resourcePattern) {
      return;
    }
    if fb.resourceType != "" && fb.resourceType != "*" && meta.rtype != fb.resourceType {
      return;
    }
    if fb.role == "*" {
      var f := AnyRoleF(principal, resourceID);
      var pending := meta.roles;
      while pending != {}
        invariant pending <= meta.roles
        invariant multiset(violations) + Bag(pending, f) == Bag(meta.roles, f)
        decreases pending
      {
        var role :| role in pending;
        BagPick(pending, f, role);
        violations := violations + [ForbiddenAnyRoleV(principal, resourceID, role)];
        pending := pending - {role};
      }
    } else if fb.role in meta.roles {
      violations := [ForbiddenRoleV(principal, resourceID, fb.role)];
    }
  }

  method ForbiddenOnPrincipal(glob: Glob, principal: string, fb: ForbiddenBinding, data: PrincipalData)
    returns (violations: seq<Violation>)
    ensures multiset(violations) == Bag(data.resourceAccess.Keys, ForbiddenResourceF(glob, principal, fb, data))
  {
    violations := [];
    ghost var f := ForbiddenResourceF(glob, principal, fb, data);
    var pending := data.resourceAccess.Keys;
    while pending != {}
      invariant pending <= data.resourceAccess.Keys
      invariant multiset(violations) + Bag(pending, f) == Bag(data.resourceAccess.Keys, f)
      decreases pending
    {
      var resourceID :| resourceID in pending;
      BagPick(pending, f, resourceID);
      var found := ForbiddenOnResource(glob, principal, fb, resourceID, data.resourceAccess[resourceID]);
      violations := violations + found;
      pending := pending - {resourceID};
    }
  }

  method CheckForbiddenBindings(glob: Glob, directAccess: DirectAccessMap, principal: string, persona: PersonaPolicy)
    returns (violations: seq<Violation>)
    ensures multiset(violations) == ForbiddenBag(glob, directAccess, principal, persona.forbiddenBindings)
  {
    violations := [];
    if principal !in directAccess {
      return;
    }
    var data := directAccess[principal];
    var fbs := persona.forbiddenBindings;
    ghost var f := ForbiddenBindingF(glob, principal, fbs, data);
    for i := 0 to |fbs|
      invariant multiset(violations) == SumUpTo(i, f)
    {
      var found := ForbiddenOnPrincipal(glob, principal, fbs[i], data);
      violations := violations + found;
    }
  }

  /** With role "*", every role on every resource the binding applies to is flagged. */
  lemma WildcardRoleFlagsEveryRole(glob: Glob, directAccess: DirectAccessMap, principal: string,
                                   fbs: seq<ForbiddenBinding>, i: nat, resourceID: string, role: string)
    requires principal in directAccess && i < |fbs| && fbs[i].role == "*"
    requires resourceID in directAccess[principal].resourceAccess
    requires var meta := directAccess[principal].resourceAccess[resourceID];
      ForbiddenApplies(glob, fbs[i], resourceID, meta) && role in meta.roles
    ensures ForbiddenAnyRoleV(principal, resourceID, role) in ForbiddenBag(glob, directAccess, principal, fbs)
  {
    var data := directAccess[principal];
    var meta := data.resourceAccess[resourceID];
    var v := ForbiddenAnyRoleV(principal, resourceID, role);
    var h := AnyRoleF(principal, resourceID);
    assert v in h(role);
    BagMember(meta.roles, h, v);
    assert v in ForbiddenOnResourceBag(glob, principal, fbs[i], resourceID, meta);
    var g := ForbiddenResourceF(glob, principal, fbs[i], data);
    assert v in g(resourceID);
    BagMember(data.resourceAccess.Keys, g, v);
    var f := ForbiddenBindingF(glob, principal, fbs, data);
    assert v in f(i);
    SumUpToMember(|fbs|, f, v);
  }

  /** A forbidden-binding violation always names a role the principal holds directly on a resource the binding applies to. */
  lemma ForbiddenSound(glob: Glob, directAccess: DirectAccessMap, principal: string,
                       fbs: seq<ForbiddenBinding>, v: Violation)
    requires v in ForbiddenBag(glob, directAccess, principal, fbs)
    ensures principal in directAccess && v.principal == principal && v.violationType == ForbiddenRole
    ensures v.policyName == "" && v.severity == ""
    ensures v.resource in directAccess[principal].resourceAccess &&
      v.role in directAccess[principal].resourceAccess[v.resource].roles
    ensures exists i :: (0 <= i < |fbs| &&
      ForbiddenApplies(glob, fbs[i], v.resource, directAccess[principal].resourceAccess[v.resource]) &&
      (fbs[i].role == "*" || fbs[i].role == v.role))
  {
    var data := directAccess[principal];
    var f := ForbiddenBindingF(glob, principal, fbs, data);
    SumUpToMember(|fbs|, f, v);
    var i :| 0 <= i < |fbs| && v in f(i);
    var g := ForbiddenResourceF(glob, principal, fbs[i], data);
    BagMember(data.resourceAccess.Keys, g, v);
    var r :| r in data.resourceAccess.Keys && v in g(r);
    if fbs[i].role == "*" {
      BagMember(data.resourceAccess[r].roles, AnyRoleF(principal, r), v);
    }
  }

  // ---------------------------------------------------------------------
  // calculateTransitiveDepth

  /** d is the length of the longest chain among the entries, 0 when there are none. */
  ghost predicate IsLongestChain(trans: map<string, AccessVia>, d: nat) {
    (forall r :: r in trans ==> |trans[r].viaChain| <= d) &&
    (d == 0 || exists r :: r in trans && |trans[r].viaChain| == d)
  }

  ghost function LongestChain(trans: map<string, AccessVia>): (d: nat)
    ensures IsLongestChain(trans, d)
    decreases |trans|
  {
    if trans == map[] then 0
    else
      var k := Pick(trans.Keys);
      var rest := trans - {k};
      assert rest.Keys == trans.Keys - {k};
      assert |rest| < |trans| by {
        assert |rest.Keys| < |trans.Keys|;
      }
      var d := LongestChain(rest);
      assert forall r :: r in rest ==> rest[r] == trans[r];
      assert forall r :: r in trans ==> r == k || r in rest;
      if |trans[k].viaChain| > d then |trans[k].viaChain| else d
  }

  lemma LongestChainUnique(trans: map<string, AccessVia>, d1: nat, d2: nat)
    requires IsLongestChain(trans, d1) && IsLongestChain(trans, d2)
    ensures d1 == d2
  {
  }

  method CalculateTransitiveDepth(t: TransitiveAccess) returns (maxDepth: int)
    ensures maxDepth == LongestChain(t.transitiveAccess)
  {
    var trans := t.transitiveAccess;
    maxDepth := 0;
    var pending := trans.Keys;
    while pending != {}
      invariant pending <= trans.Keys
      invariant maxDepth >= 0
      invariant forall r :: r in trans.Keys - pending ==> |trans[r].viaChain| <= maxDepth
      invariant maxDepth == 0 || exists r :: r in trans.Keys - pending && |trans[r].viaChain| == maxDepth
      decreases pending
    {
      var r :| r in pending;
      pending := pending - {r};
      if |trans[r].viaChain| > maxDepth {
        maxDepth := |trans[r].viaChain|;
      }
    }
    LongestChainUnique(trans, maxDepth, LongestChain(trans));
  }

  function DepthV(principal: string, depth: int, allowed: int): Violation {
    Violation("", ImpersonationDepth, "", principal, "", "", DepthExceeded(depth, allowed), [])
  }

  ghost function DepthViolations(principal: string, trans: map<string, AccessVia>, allowed: int): seq<Violation> {
    var d := LongestChain(trans);
    if d > allowed then [DepthV(principal, d, allowed)] else []
  }

  /**
   * The depth violation fires iff some chain is longer than allowed (or the
   * allowed depth is negative, which even no chains exceed); an unset
   * maximum of 0 therefore flags any transitive access at all.
   */
  lemma DepthFires(principal: string, trans: map<string, AccessVia>, allowed: int)
    ensures |DepthViolations(principal, trans, allowed)| <= 1
    ensures |DepthViolations(principal, trans, allowed)| == 1 <==>
      (allowed < 0 || exists r :: r in trans && |trans[r].viaChain| > allowed)
  {
    var d := LongestChain(trans);
    if d > allowed && allowed >= 0 {
      var r :| r in trans && |trans[r].viaChain| == d;
    }
  }

  // ---------------------------------------------------------------------
  // validateTransitiveAccess

  function TransRoleV(principal: string, resourceID: string, role: string, chain: seq<string>): Violation {
    Violation("", TransitiveRole, "", principal, resourceID, role, ForbiddenTransitiveRole(role, chain), chain)
  }

  function TransResourceV(principal: string, resourceID: string, chain: seq<string>): Violation {
    Violation("", TransitiveResource, "", principal, resourceID, "", ForbiddenTransitiveResource(resourceID, chain), chain)
  }

  function TargetV(principal: string, target: string): Violation {
    Violation("", TransitiveResource, "", principal, target, "", UnauthorizedTarget(target), [target])
  }

  ghost function TransRoleF(glob: Glob, principal: string, c: TransitiveConstraints, resourceID: string,
                            chain: seq<string>): string -> multiset<Violation>
  {
    role => TransRoleBag(glob, principal, c, resourceID, chain, role)
  }

  /** What one role held through impersonation raises: a violation when it is a forbidden transitive role. */
  ghost function TransRoleBag(glob: Glob, principal: string, c: TransitiveConstraints, resourceID: string,
                              chain: seq<string>, role: string): multiset<Violation>
  {
    if IsRoleIn(glob, role, c.forbiddenTransitiveRoles)
    then multiset{TransRoleV(principal, resourceID, role, chain)} else multiset{}
  }

  /** Some forbidden transitive resource matches the resource's ID, and its type when one is given. */
  predicate ForbiddenResourceHit(glob: Glob, c: TransitiveConstraints, resourceID: string, av: AccessVia) {
    exists i :: 0 <= i < |c.forbiddenTransitiveResources| &&
      Matches(glob, resourceID, c.forbiddenTransitiveResources[i].resourcePattern) &&
      (c.forbiddenTransitiveResources[i].resourceType == "" ||
       c.forbiddenTransitiveResources[i].resourceType == av.resource.rtype)
  }

  /** What one transitively reached resource raises: its forbidden roles, and one resource violation at most. */
  ghost function TransOnResourceBag(glob: Glob, principal: string, c: TransitiveConstraints,
                                    resourceID: string, av: AccessVia): multiset<Violation>
  {
    Bag(av.resource.roles, TransRoleF(glob, principal, c, resourceID, av.viaChain)) +
    (if ForbiddenResourceHit(glob, c, resourceID, av)
     then multiset{TransResourceV(principal, resourceID, av.viaChain)} else multiset{})
  }

  ghost function TransResF(glob: Glob, principal: string, c: TransitiveConstraints, trans: map<string, AccessVia>)
    : string -> multiset<Violation>
  {
    r => if r in trans then TransOnResourceBag(glob, principal, c, r, trans[r]) else multiset{}
  }

  /** The edge targets the allowed list does not admit, in edge order, duplicates included. */
  function Disallowed(glob: Glob, targets: seq<string>, allowed: seq<string>): (r: seq<string>)
  {
    if |targets| == 0 then []
    else
      var t := targets[|targets| - 1];
      Disallowed(glob, targets[..|targets| - 1], allowed) + (if !IsPrincipalIn(glob, t, allowed) then [t] else [])
  }

  /** A disallowed target is kept as often as it occurs among the edges; an allowed one never. */
  lemma {:induction false} DisallowedCount(glob: Glob, targets: seq<string>, allowed: seq<string>, t: string)
    ensures multiset(Disallowed(glob, targets, allowed))[t] ==
      if IsPrincipalIn(glob, t, allowed) then 0 else multiset(targets)[t]
  {
    if |targets| > 0 {
      var init := targets[..|targets| - 1];
      var last := targets[|targets| - 1];
      DisallowedCount(glob, init, allowed, t);
      assert targets == init + [last];
    }
  }

  function TargetsFlagged(principal: string, targets: seq<string>): (r: seq<Violation>) {
    seq(|targets|, i requires 0 <= i < |targets| => TargetV(principal, targets[i]))
  }

  /** Each target is flagged as often as it is listed. */
  lemma {:induction false} TargetsFlaggedCount(principal: string, targets: seq<string>, t: string)
    ensures multiset(TargetsFlagged(principal, targets))[TargetV(principal, t)] == multiset(targets)[t]
  {
    if |targets| > 0 {
      var init := targets[..|targets| - 1];
      var last := targets[|targets| - 1];
      TargetsFlaggedCount(principal, init, t);
      assert targets == init + [last];
      assert TargetsFlagged(principal, targets) == TargetsFlagged(principal, init) + [TargetV(principal, last)];
    }
  }

  /** The allowed-target check looks only at the principal's own edges, and only when a list is given. */
  function TargetViolations(glob: Glob, graph: Graph, principal: string, allowed: seq<string>): seq<Violation> {
    if |allowed| > 0 && principal in graph then TargetsFlagged(principal, Disallowed(glob, graph[principal], allowed)) else []
  }

  /** One violation per disallowed edge of the principal, duplicate edges included. */
  lemma TargetViolationsCount(glob: Glob, graph: Graph, principal: string, allowed: seq<string>, t: string)
    ensures multiset(TargetViolations(glob, graph, principal, allowed))[TargetV(principal, t)] ==
      if |allowed| > 0 && principal in graph && !IsPrincipalIn(glob, t, allowed) then multiset(graph[principal])[t] else 0
  {
    if |allowed| > 0 && principal in graph {
      TargetsFlaggedCount(principal, Disallowed(glob, graph[principal], allowed), t);
      DisallowedCount(glob, graph[principal], allowed, t);
    }
  }

  /** Everything validateTransitiveAccess raises for a principal, given the transitive access it was computed from. */
  ghost function TransitiveBag(glob: Glob, graph: Graph, principal: string, c: TransitiveConstraints,
                               ta: Option<TransitiveAccess>): multiset<Violation>
  {
    if ta.None? then multiset{}
    else
      var trans := ta.value.transitiveAccess;
      multiset(DepthViolations(principal, trans, c.maxImpersonationDepth)) +
      Bag(trans.Keys, TransResF(glob, principal, c, trans)) +
      multiset(TargetViolations(glob, graph, principal, c.allowedImpersonationTargets))
  }

  /** The search over forbidden transitive resources, which stops at the first hit. */
  method FindForbiddenResource(glob: Glob, c: TransitiveConstraints, resourceID: string, av: AccessVia)
    returns (hit: bool)
    ensures hit <==> ForbiddenResourceHit(glob, c, resourceID, av)
  {
    var frs := c.forbiddenTransitiveResources;
    for i := 0 to |frs|
      invariant forall j :: 0 <= j < i ==>
        !(Matches(glob, resourceID, frs[j].resourcePattern) &&
          (frs[j].resourceType == "" || frs[j].resourceType == av.resource.rtype))
    {
      if Matches(glob, resourceID, frs[i].resourcePattern) {
        if frs[i].resourceType == "" || frs[i].resourceType == av.resource.rtype {
          return true;
        }
      }
    }
    return false;
  }

  method TransitiveOnResource(glob: Glob, principal: string, c: TransitiveConstraints,
                              resourceID: string, av: AccessVia)
    returns (violations: seq<Violation>)
    ensures multiset(violations) == TransOnResourceBag(glob, principal, c, resourceID, av)
  {
    violations := TransitiveRoles(glob, principal, c, resourceID, av);
    var hit := FindForbiddenResource(glob, c, resourceID, av);
    if hit {
      violations := violations + [TransResourceV(principal, resourceID, av.viaChain)];
    }
  }

  /** The loop over the roles held on one transitively reached resource. */
  method TransitiveRoles(glob: Glob, principal: string, c: TransitiveConstraints, resourceID: string, av: AccessVia)
    returns (violations: seq<Violation>)
    ensures multiset(violations) == Bag(av.resource.roles, TransRoleF(glob, principal, c, resourceID, av.viaChain))
  {
    violations := [];
    ghost var f := TransRoleF(glob, principal, c, resourceID, av.viaChain);
    var pending := av.resource.roles;
    while pending != {}
      invariant pending <= av.resource.roles
      invariant multiset(violations) + Bag(pending, f) == Bag(av.resource.roles, f)
      decreases pending
    {
      var role :| role in pending;
      BagPick(pending, f, role);
      if IsRoleIn(glob, role, c.forbiddenTransitiveRoles) {
        violations := violations + [TransRoleV(principal, resourceID, role, av.viaChain)];
      }
      pending := pending - {role};
    }
  }

  method CheckTargets(glob: Glob, graph: Graph, principal: string, allowed: seq<string>)
    returns (violations: seq<Violation>)
    ensures violations == TargetViolations(glob, graph, principal, allowed)
  {
    violations := [];
    if |allowed| > 0 && principal in graph {
      var targets := graph[principal];
      for i := 0 to |targets|
        invariant violations == TargetsFlagged(principal, Disallowed(glob, targets[..i], allowed))
      {
        assert targets[..i + 1][..i] == targets[..i];
        if !IsPrincipalIn(glob, targets[i], allowed) {
          assert Disallowed(glob, targets[..i + 1], allowed) == Disallowed(glob, targets[..i], allowed) + [targets[i]];
          violations := violations + [TargetV(principal, targets[i])];
        }
      }
      assert targets[..|targets|] == targets;
    }
  }

  /**
   * validateTransitiveAccess, for a persona whose transitive constraints are
   * set (its only caller checks that). `ta` is the transitive access the
   * analysis returned for the principal's email.
   */
  method ValidateTransitiveAccess(glob: Glob, directAccess: DirectAccessMap, graph: Graph,
                                  principal: string, c: TransitiveConstraints)
    returns (violations: seq<Violation>, ghost ta: Option<TransitiveAccess>)
    ensures IsTransitiveAccessOf(ExtractPrincipalEmail(principal), directAccess, graph, ta)
    ensures multiset(violations) == TransitiveBag(glob, graph, principal, c, ta)
  {
    violations := [];
    var access := TransitiveAccessOf(principal, directAccess, graph);
    ta := access;
    if access.None? {
      return;
    }
    var t := access.value;
    var trans := t.transitiveAccess;
    var depth := CheckDepth(principal, t, c);
    var reached := TransitiveOnResources(glob, principal, c, trans);
    var targets := CheckTargets(glob, graph, principal, c.allowedImpersonationTargets);
    violations := depth + reached + targets;
  }

  /**
   * A resource on which a principal reachable by impersonation holds a role
   * new to the root, and which a type-free forbidden transitive resource
   * matches, is reported by validateTransitiveAccess.
   */
  lemma ReachedForbiddenResourceRaised(glob: Glob, directAccess: DirectAccessMap, graph: Graph, principal: string,
                                       c: TransitiveConstraints, ta: Option<TransitiveAccess>, violations: seq<Violation>,
                                       q: string, r: string, i: int)
    requires IsTransitiveAccessOf(ExtractPrincipalEmail(principal), directAccess, graph, ta)
    requires multiset(violations) == TransitiveBag(glob, graph, principal, c, ta)
    requires ta.Some? && Reachable(graph, ta.value.principal, q)
    requires q in directAccess && Adds(directAccess[q], ta.value.directAccess, r)
    requires 0 <= i < |c.forbiddenTransitiveResources|
    requires Matches(glob, r, c.forbiddenTransitiveResources[i].resourcePattern)
    requires c.forbiddenTransitiveResources[i].resourceType == ""
    ensures r in ta.value.transitiveAccess
    ensures TransResourceV(principal, r, ta.value.transitiveAccess[r].viaChain) in violations
  {
    var trans := ta.value.transitiveAccess;
    ReachedHasEntry(ExtractPrincipalEmail(principal), directAccess, graph, ta, q, r);
    var v := TransResourceV(principal, r, trans[r].viaChain);
    assert ForbiddenResourceHit(glob, c, r, trans[r]);
    assert v in TransResF(glob, principal, c, trans)(r);
    BagMember(trans.Keys, TransResF(glob, principal, c, trans), v);
    assert v in multiset(violations);
  }

  /** The depth check of validateTransitiveAccess. */
  method CheckDepth(principal: string, t: TransitiveAccess, c: TransitiveConstraints) returns (violations: seq<Violation>)
    ensures violations == DepthViolations(principal, t.transitiveAccess, c.maxImpersonationDepth)
  {
    violations := [];
    var maxDepth := CalculateTransitiveDepth(t);
    if maxDepth > c.maxImpersonationDepth {
      violations := violations + [DepthV(principal, maxDepth, c.maxImpersonationDepth)];
    }
  }

  /** The loop over the transitively reached resources. */
  method TransitiveOnResources(glob: Glob, principal: string, c: TransitiveConstraints, trans: map<string, AccessVia>)
    returns (violations: seq<Violation>)
    ensures multiset(violations) == Bag(trans.Keys, TransResF(glob, principal, c, trans))
  {
    violations := [];
    ghost var f := TransResF(glob, principal, c, trans);
    var pending := trans.Keys;
    while pending != {}
      invariant pending <= trans.Keys
      invariant multiset(violations) + Bag(pending, f) == Bag(trans.Keys, f)
      decreases pending
    {
      var resourceID :| resourceID in pending;
      BagPick(pending, f, resourceID);
      var found := TransitiveOnResource(glob, principal, c, resourceID, trans[resourceID]);
      violations := violations + found;
      pending := pending - {resourceID};
    }
  }

  /** A resource reached transitively raises the forbidden-resource violation at most once, because of the `break`. */
  lemma TransitiveResourceAtMostOnce(glob: Glob, principal: string, c: TransitiveConstraints,
                                     trans: map<string, AccessVia>, resourceID: string)
    requires resourceID in trans
    ensures var v := TransResourceV(principal, resourceID, trans[resourceID].viaChain);
      Bag(trans.Keys, TransResF(glob, principal, c, trans))[v] ==
        if ForbiddenResourceHit(glob, c, resourceID, trans[resourceID]) then 1 else 0
  {
    var av := trans[resourceID];
    var v := TransResourceV(principal, resourceID, av.viaChain);
    var f := TransResF(glob, principal, c, trans);
    forall j | j in trans.Keys && j != resourceID
      ensures v !in f(j)
    {
      TransRoleKinds(glob, principal, c, j, trans[j], v);
    }
    BagCountSingle(trans.Keys, f, resourceID, v);
    TransRoleKinds(glob, principal, c, resourceID, av, v);
  }

  /** The violations one resource raises all name that resource; the role ones are transitive_role. */
  lemma TransRoleKinds(glob: Glob, principal: string, c: TransitiveConstraints, resourceID: string,
                       av: AccessVia, v: Violation)
    ensures v in Bag(av.resource.roles, TransRoleF(glob, principal, c, resourceID, av.viaChain)) ==>
      v.violationType == TransitiveRole && v.resource == resourceID && v.role in av.resource.roles &&
      IsRoleIn(glob, v.role, c.forbiddenTransitiveRoles) && v == TransRoleV(principal, resourceID, v.role, av.viaChain)
    ensures v in TransOnResourceBag(glob, principal, c, resourceID, av) ==>
      v.resource == resourceID && (v.violationType == TransitiveRole || v.violationType == TransitiveResource)
  {
    BagMember(av.resource.roles, TransRoleF(glob, principal, c, resourceID, av.viaChain), v);
  }

  // ---------------------------------------------------------------------
  // validatePersona

  /** The policy's name and severity written into each violation, in place. */
  function Stamped(vs: seq<Violation>, name: string, severity: string): seq<Violation> {
    seq(|vs|, i requires 0 <= i < |vs| => vs[i].(policyName := name, severity := severity))
  }

  method StampPolicy(vs: seq<Violation>, name: string, severity: string) returns (out: seq<Violation>)
    ensures out == Stamped(vs, name, severity)
  {
    out := vs;
    for i := 0 to |vs|
      invariant |out| == |vs|
      invariant forall j :: 0 <= j < i ==> out[j] == vs[j].(policyName := name, severity := severity)
      invariant forall j :: i <= j < |vs| ==> out[j] == vs[j]
    {
      out := out[i := out[i].(policyName := name, severity := severity)];
    }
  }

  predicate TransitiveEnabled(persona: PersonaPolicy) {
    persona.validateTransitiveAccess && persona.transitiveConstraints.Some?
  }

  /**
   * What validatePersona appends for one listed principal: its missing
   * required bindings, then its forbidden direct bindings (`forb`, in some
   * order), then, when enabled, the transitive violations (`trans`, computed
   * from `ta`) stamped with the policy's name and severity.
   */
  ghost predicate PersonaPart(glob: Glob, directAccess: DirectAccessMap, graph: Graph, policy: Policy,
                              persona: PersonaPolicy, principal: string, part: seq<Violation>,
                              forb: seq<Violation>, trans: seq<Violation>, ta: Option<TransitiveAccess>)
  {
    && part == RequiredViolations(glob, directAccess, principal, persona.requiredBindings) + forb +
               (if TransitiveEnabled(persona) then Stamped(trans, policy.name, policy.severity) else [])
    && multiset(forb) == ForbiddenBag(glob, directAccess, principal, persona.forbiddenBindings)
    && (TransitiveEnabled(persona) ==>
          IsTransitiveAccessOf(ExtractPrincipalEmail(principal), directAccess, graph, ta) &&
          multiset(trans) == TransitiveBag(glob, graph, principal, persona.transitiveConstraints.value, ta))
  }

  /** Required and forbidden violations carry no policy name or severity; every other kind carries the policy's. */
  predicate PersonaNamed(policy: Policy, v: Violation) {
    if v.violationType == MissingRole || v.violationType == ForbiddenRole then v.policyName == "" && v.severity == ""
    else v.policyName == policy.name && v.severity == policy.severity
  }

  /** The transitive checks raise only depth, transitive-role and transitive-resource violations. */
  lemma TransitiveBagKinds(glob: Glob, graph: Graph, principal: string, c: TransitiveConstraints,
                           ta: Option<TransitiveAccess>, v: Violation)
    requires v in TransitiveBag(glob, graph, principal, c, ta)
    ensures v.violationType == ImpersonationDepth || v.violationType == TransitiveRole ||
      v.violationType == TransitiveResource
  {
    var trans := ta.value.transitiveAccess;
    var f := TransResF(glob, principal, c, trans);
    var depth := DepthViolations(principal, trans, c.maxImpersonationDepth);
    var targets := TargetViolations(glob, graph, principal, c.allowedImpersonationTargets);
    assert v in multiset(depth) || v in Bag(trans.Keys, f) || v in multiset(targets);
    if v in multiset(depth) {
      assert v in depth;
      assert v.violationType == ImpersonationDepth;
    } else if v in Bag(trans.Keys, f) {
      BagMember(trans.Keys, f, v);
      var r :| r in trans.Keys && v in f(r);
      TransRoleKinds(glob, principal, c, r, trans[r], v);
    } else {
      assert v in targets;
      var d := Disallowed(glob, graph[principal], c.allowedImpersonationTargets);
      var i :| 0 <= i < |d| && v == TargetsFlagged(principal, d)[i];
      assert v.violationType == TransitiveResource;
    }
  }

  /** Stamping gives every violation that is not a required or forbidden one the policy's name and severity. */
  lemma StampedNamed(vs: seq<Violation>, policy: Policy)
    requires forall v :: v in multiset(vs) ==>
      v.violationType == ImpersonationDepth || v.violationType == TransitiveRole || v.violationType == TransitiveResource
    ensures forall v :: v in Stamped(vs, policy.name, policy.severity) ==> PersonaNamed(policy, v)
  {
    var out := Stamped(vs, policy.name, policy.severity);
    forall v | v in out
      ensures PersonaNamed(policy, v)
    {
      var i :| 0 <= i < |out| && out[i] == v;
      assert vs[i] in multiset(vs);
    }
  }

  method PersonaPrincipal(glob: Glob, directAccess: DirectAccessMap, graph: Graph, policy: Policy,
                          persona: PersonaPolicy, principal: string)
    returns (part: seq<Violation>, ghost forb: seq<Violation>, ghost trans: seq<Violation>,
             ghost ta: Option<TransitiveAccess>)
    ensures PersonaPart(glob, directAccess, graph, policy, persona, principal, part, forb, trans, ta)
    ensures forall v :: v in part ==> PersonaNamed(policy, v)
  {
    var required := CheckRequiredBindings(glob, directAccess, principal, persona);
    RequiredKinds(glob, directAccess, principal, persona.requiredBindings);
    var forbidden := CheckForbiddenBindings(glob, directAccess, principal, persona);
    forb := forbidden;
    forall v | v in forbidden
      ensures PersonaNamed(policy, v)
    {
      assert v in multiset(forbidden);
      ForbiddenSound(glob, directAccess, principal, persona.forbiddenBindings, v);
    }
    part := required + forbidden;
    trans := [];
    ta := None;
    if persona.validateTransitiveAccess && persona.transitiveConstraints.Some? {
      var c := persona.transitiveConstraints.value;
      var found: seq<Violation>;
      found, ta := ValidateTransitiveAccess(glob, directAccess, graph, principal, c);
      trans := found;
      forall v | v in multiset(found)
        ensures v.violationType == ImpersonationDepth || v.violationType == TransitiveRole ||
          v.violationType == TransitiveResource
      {
        TransitiveBagKinds(glob, graph, principal, c, ta, v);
      }
      var stamped := StampPolicy(found, policy.name, policy.severity);
      StampedNamed(found, policy);
      part := part + stamped;
    }
  }

  /**
   * validatePersona: the principals in listed order, each contributing its
   * part; a policy without a persona block raises nothing.
   */
  method ValidatePersona(glob: Glob, directAccess: DirectAccessMap, graph: Graph, policy: Policy)
    returns (violations: seq<Violation>, ghost parts: seq<seq<Violation>>, ghost forbs: seq<seq<Violation>>,
             ghost trans: seq<seq<Violation>>, ghost tas: seq<Option<TransitiveAccess>>)
    ensures policy.persona.None? ==> violations == []
    ensures policy.persona.Some? ==>
      var persona := policy.persona.value;
      && |parts| == |forbs| == |trans| == |tas| == |persona.principals|
      && violations == Flatten(parts)
      && forall i :: 0 <= i < |persona.principals| ==>
           PersonaPart(glob, directAccess, graph, policy, persona, persona.principals[i],
                       parts[i], forbs[i], trans[i], tas[i])
    ensures forall v :: v in violations ==> PersonaNamed(policy, v)
  {
    violations, parts, forbs, trans, tas := [], [], [], [], [];
    if policy.persona.None? {
      return;
    }
    var persona := policy.persona.value;
    var principals := persona.principals;
    for i := 0 to |principals|
      invariant |parts| == |forbs| == |trans| == |tas| == i
      invariant violations == Flatten(parts)
      invariant forall k :: 0 <= k < i ==>
        PersonaPart(glob, directAccess, graph, policy, persona, principals[k], parts[k], forbs[k], trans[k], tas[k])
      invariant forall v :: v in violations ==> PersonaNamed(policy, v)
    {
      var part;
      ghost var forb, tr, ta;
      part, forb, tr, ta := PersonaPrincipal(glob, directAccess, graph, policy, persona, principals[i]);
      FlattenSnoc(parts, part);
      violations := violations + part;
      parts, forbs, trans, tas := parts + [part], forbs + [forb], trans + [tr], tas + [ta];
    }
  }

  // ---------------------------------------------------------------------
  // validateImpersonationEscalation

  /** Every role the principal holds directly, on any resource (the `directRoles` / `allRoles` sets of the Go code). */
  function AllRoles(data: PrincipalData): set<string> {
    set r, role | r in data.resourceAccess && role in data.resourceAccess[r].roles :: role
  }

  method CollectRoles(data: PrincipalData) returns (roles: set<string>)
    ensures roles == AllRoles(data)
  {
    roles := {};
    var pending := data.resourceAccess.Keys;
    while pending != {}
      invariant pending <= data.resourceAccess.Keys
      invariant forall role :: role in roles <==>
        exists r :: r in data.resourceAccess.Keys - pending && role in data.resourceAccess[r].roles
      decreases pending
    {
      var r :| r in pending;
      roles := roles + data.resourceAccess[r].roles;
      pending := pending - {r};
    }
  }

  /** The result of AnalyzeTransitiveAccess for the email of each principal of directAccess. */
  ghost predicate TransitiveResults(directAccess: DirectAccessMap, graph: Graph, tas: map<string, Option<TransitiveAccess>>) {
    tas.Keys == directAccess.Keys && Analyzed(directAccess, graph, tas)
  }

  /** Each recorded result is the analysis of its principal's email. */
  ghost predicate Analyzed(directAccess: DirectAccessMap, graph: Graph, tas: map<string, Option<TransitiveAccess>>) {
    forall p :: p in tas ==> IsTransitiveAccessOf(ExtractPrincipalEmail(p), directAccess, graph, tas[p])
  }

  function EscRoleV(policy: Policy, principal: string, directRole: string, transitiveRole: string,
                    chain: seq<string>): Violation
  {
    Violation(policy.name, PrivilegeEscalation, policy.severity, principal, "", transitiveRole,
              EscalationByRole(directRole, transitiveRole), chain)
  }

  function EscResourceV(policy: Policy, principal: string, resourceID: string, chain: seq<string>): Violation {
    Violation(policy.name, PrivilegeEscalation, policy.severity, principal, resourceID, "",
              EscalationToResource(resourceID), chain)
  }

  ghost function EscRoleF(glob: Glob, policy: Policy, principal: string, rule: EscalationRule,
                          directRole: string, chain: seq<string>): string -> multiset<Violation>
  {
    tr => if Matches(glob, tr, rule.toRolePattern)
          then multiset{EscRoleV(policy, principal, directRole, tr, chain)} else multiset{}
  }

  ghost function EscViaF(glob: Glob, policy: Policy, principal: string, rule: EscalationRule,
                         directRole: string, trans: map<string, AccessVia>): string -> multiset<Violation>
  {
    r => if r in trans then EscViaBag(glob, policy, principal, rule, directRole, trans[r]) else multiset{}
  }

  /** The escalations from one direct role through one transitively reached resource. */
  ghost function EscViaBag(glob: Glob, policy: Policy, principal: string, rule: EscalationRule,
                           directRole: string, av: AccessVia): multiset<Violation>
  {
    Bag(av.resource.roles, EscRoleF(glob, policy, principal, rule, directRole, av.viaChain))
  }

  /** The escalations from one direct role. */
  ghost function EscDirectBag(glob: Glob, policy: Policy, principal: string, rule: EscalationRule,
                              directRole: string, trans: map<string, AccessVia>): multiset<Violation>
  {
    Bag(trans.Keys, EscViaF(glob, policy, principal, rule, directRole, trans))
  }

  ghost function EscDirectF(glob: Glob, policy: Policy, principal: string, rule: EscalationRule,
                            trans: map<string, AccessVia>): string -> multiset<Violation>
  {
    dr => EscFromRole(glob, policy, principal, rule, dr, trans)
  }

  /** The escalations from one direct role, when it matches the rule's source role. */
  ghost function EscFromRole(glob: Glob, policy: Policy, principal: string, rule: EscalationRule,
                             directRole: string, trans: map<string, AccessVia>): multiset<Violation>
  {
    if Matches(glob, directRole, rule.fromRolePattern) then EscDirectBag(glob, policy, principal, rule, directRole, trans)
    else multiset{}
  }

  /** Role-based escalation: each matching direct role, with each matching role held on a transitively reached resource. */
  ghost function RoleEscalationBag(glob: Glob, policy: Policy, principal: string, rule: EscalationRule,
                                   directRoles: set<string>, trans: map<string, AccessVia>): multiset<Violation>
  {
    if rule.fromRolePattern != "" && rule.toRolePattern != ""
    then Bag(directRoles, EscDirectF(glob, policy, principal, rule, trans))
    else multiset{}
  }

  ghost function EscResF(glob: Glob, policy: Policy, principal: string, rule: EscalationRule,
                         trans: map<string, AccessVia>): string -> multiset<Violation>
  {
    r => if r in trans && Matches(glob, r, rule.toResourcePattern)
         then multiset{EscResourceV(policy, principal, r, trans[r].viaChain)} else multiset{}
  }

  /** Principal-based escalation: each matching transitively reached resource, for a matching principal. */
  ghost function PrincipalEscalationBag(glob: Glob, policy: Policy, principal: string, rule: EscalationRule,
                                        t: TransitiveAccess): multiset<Violation>
  {
    if rule.fromPrincipalPattern != "" && rule.toResourcePattern != "" &&
       Matches(glob, principal, rule.fromPrincipalPattern)
    then Bag(t.transitiveAccess.Keys, EscResF(glob, policy, principal, rule, t.transitiveAccess))
    else multiset{}
  }

  ghost function EscRuleF(glob: Glob, policy: Policy, principal: string, rules: seq<EscalationRule>,
                          t: TransitiveAccess): nat -> multiset<Violation>
  {
    (i: nat) => if i < |rules| then RoleEscalationBag(glob, policy, principal, rules[i], AllRoles(t.directAccess), t.transitiveAccess) +
                                    PrincipalEscalationBag(glob, policy, principal, rules[i], t)
                else multiset{}
  }

  /** Everything the escalation rules raise for one principal, given its transitive access. */
  ghost function EscalationOf(glob: Glob, policy: Policy, principal: string, rules: seq<EscalationRule>,
                              ta: Option<TransitiveAccess>): multiset<Violation>
  {
    if ta.None? then multiset{} else SumUpTo(|rules|, EscRuleF(glob, policy, principal, rules, ta.value))
  }

  method EscalateToRoles(glob: Glob, policy: Policy, principal: string, rule: EscalationRule,
                         directRole: string, av: AccessVia)
    returns (violations: seq<Violation>)
    ensures multiset(violations) == EscViaBag(glob, policy, principal, rule, directRole, av)
  {
    violations := [];
    ghost var f := EscRoleF(glob, policy, principal, rule, directRole, av.viaChain);
    var pending := av.resource.roles;
    while pending != {}
      invariant pending <= av.resource.roles
      invariant multiset(violations) + Bag(pending, f) == Bag(av.resource.roles, f)
      decreases pending
    {
      var tr :| tr in pending;
      BagPick(pending, f, tr);
      if Matches(glob, tr, rule.toRolePattern) {
        violations := violations + [EscRoleV(policy, principal, directRole, tr, av.viaChain)];
      }
      pending := pending - {tr};
    }
  }

  method EscalateVia(glob: Glob, policy: Policy, principal: string, rule: EscalationRule,
                     directRole: string, trans: map<string, AccessVia>)
    returns (violations: seq<Violation>)
    ensures multiset(violations) == EscDirectBag(glob, policy, principal, rule, directRole, trans)
  {
    violations := [];
    ghost var f := EscViaF(glob, policy, principal, rule, directRole, trans);
    var pending := trans.Keys;
    while pending != {}
      invariant pending <= trans.Keys
      invariant multiset(violations) + Bag(pending, f) == Bag(trans.Keys, f)
      decreases pending
    {
      var r :| r in pending;
      BagPick(pending, f, r);
      var found := EscalateToRoles(glob, policy, principal, rule, directRole, trans[r]);
      violations := violations + found;
      pending := pending - {r};
    }
  }

  method EscalateByRole(glob: Glob, policy: Policy, principal: string, rule: EscalationRule,
                        directRoles: set<string>, trans: map<string, AccessVia>)
    returns (violations: seq<Violation>)
    ensures multiset(violations) == RoleEscalationBag(glob, policy, principal, rule, directRoles, trans)
  {
    violations := [];
    if rule.fromRolePattern == "" || rule.toRolePattern == "" {
      return;
    }
    ghost var f := EscDirectF(glob, policy, principal, rule, trans);
    var pending := directRoles;
    while pending != {}
      invariant pending <= directRoles
      invariant multiset(violations) + Bag(pending, f) == Bag(directRoles, f)
      decreases pending
    {
      var dr :| dr in pending;
      BagPick(pending, f, dr);
      if Matches(glob, dr, rule.fromRolePattern) {
        var found := EscalateVia(glob, policy, principal, rule, dr, trans);
        violations := violations + found;
      }
      pending := pending - {dr};
    }
  }

  method EscalateToResources(glob: Glob, policy: Policy, principal: string, rule: EscalationRule, t: TransitiveAccess)
    returns (violations: seq<Violation>)
    ensures multiset(violations) == PrincipalEscalationBag(glob, policy, principal, rule, t)
  {
    violations := [];
    if rule.fromPrincipalPattern == "" || rule.toResourcePattern == "" ||
       !Matches(glob, principal, rule.fromPrincipalPattern) {
      return;
    }
    var trans := t.transitiveAccess;
    ghost var f := EscResF(glob, policy, principal, rule, trans);
    var pending := trans.Keys;
    while pending != {}
      invariant pending <= trans.Keys
      invariant multiset(violations) + Bag(pending, f) == Bag(trans.Keys, f)
      decreases pending
    {
      var r :| r in pending;
      BagPick(pending, f, r);
      if Matches(glob, r, rule.toResourcePattern) {
        violations := violations + [EscResourceV(policy, principal, r, trans[r].viaChain)];
      }
      pending := pending - {r};
    }
  }

  method EscalationForPrincipal(glob: Glob, policy: Policy, principal: string, rules: seq<EscalationRule>,
                                t: TransitiveAccess)
    returns (violations: seq<Violation>)
    ensures multiset(violations) == EscalationOf(glob, policy, principal, rules, Some(t))
  {
    var directRoles := CollectRoles(t.directAccess);
    violations := [];
    ghost var f := EscRuleF(glob, policy, principal, rules, t);
    for i := 0 to |rules|
      invariant multiset(violations) == SumUpTo(i, f)
    {
      var byRole := EscalateByRole(glob, policy, principal, rules[i], directRoles, t.transitiveAccess);
      var toResources := EscalateToResources(glob, policy, principal, rules[i], t);
      violations := violations + byRole + toResources;
    }
  }

  /** What the escalation rules raised for each principal, given the transitive access recorded for it. */
  ghost predicate EscalationTable(glob: Glob, policy: Policy, rules: seq<EscalationRule>,
                                  tas: map<string, Option<TransitiveAccess>>, perPrincipal: map<string, multiset<Violation>>)
  {
    perPrincipal.Keys == tas.Keys &&
    forall p :: p in perPrincipal ==> perPrincipal[p] == EscalationOf(glob, policy, p, rules, tas[p])
  }

  /** Recording one more principal's transitive access keeps the recorded results those of the analysis. */
  lemma TransitiveTableStep(directAccess: DirectAccessMap, graph: Graph, tas: map<string, Option<TransitiveAccess>>,
                            principal: string, ta: Option<TransitiveAccess>)
    requires Analyzed(directAccess, graph, tas)
    requires IsTransitiveAccessOf(ExtractPrincipalEmail(principal), directAccess, graph, ta)
    ensures Analyzed(directAccess, graph, tas[principal := ta])
  {
  }

  /** Recording one more principal with what the rules raise for it keeps the table. */
  lemma EscalationTableStep(glob: Glob, policy: Policy, rules: seq<EscalationRule>,
                            tas: map<string, Option<TransitiveAccess>>, perPrincipal: map<string, multiset<Violation>>,
                            principal: string, ta: Option<TransitiveAccess>, found: multiset<Violation>)
    requires EscalationTable(glob, policy, rules, tas, perPrincipal)
    requires found == EscalationOf(glob, policy, principal, rules, ta)
    ensures EscalationTable(glob, policy, rules, tas[principal := ta], perPrincipal[principal := found])
  {
  }

  /**
   * validateImpersonationEscalation. `tas` holds the transitive access the
   * analysis returned for each principal of directAccess, and `perPrincipal`
   * what the rules raised for it; the violations are all of those together.
   */
  method ValidateImpersonationEscalation(glob: Glob, directAccess: DirectAccessMap, graph: Graph, policy: Policy)
    returns (violations: seq<Violation>, ghost tas: map<string, Option<TransitiveAccess>>,
             ghost perPrincipal: map<string, multiset<Violation>>)
    ensures policy.impersonationEscalation.None? ==> violations == []
    ensures policy.impersonationEscalation.Some? ==>
      && TransitiveResults(directAccess, graph, tas)
      && EscalationTable(glob, policy, policy.impersonationEscalation.value.forbiddenEscalations, tas, perPrincipal)
      && multiset(violations) == Bag(directAccess.Keys, Recorded(perPrincipal))
  {
    violations := [];
    tas := map[];
    perPrincipal := map[];
    if policy.impersonationEscalation.None? {
      return;
    }
    var rules := policy.impersonationEscalation.value.forbiddenEscalations;
    var pending := directAccess.Keys;
    while pending != {}
      invariant pending <= directAccess.Keys
      invariant tas.Keys == directAccess.Keys - pending
      invariant Analyzed(directAccess, graph, tas)
      invariant EscalationTable(glob, policy, rules, tas, perPrincipal)
      invariant multiset(violations) == Bag(perPrincipal.Keys, Recorded(perPrincipal))
      decreases pending
    {
      var principal :| principal in pending;
      var found;
      ghost var access;
      found, access := EscalationStep(glob, directAccess, graph, policy, rules, principal);
      TransitiveTableStep(directAccess, graph, tas, principal, access);
      EscalationTableStep(glob, policy, rules, tas, perPrincipal, principal, access, multiset(found));
      BagLookupInsert(perPrincipal, principal, multiset(found));
      tas := tas[principal := access];
      perPrincipal := perPrincipal[principal := multiset(found)];
      violations := violations + found;
      pending := pending - {principal};
    }
  }

  /** One principal of the escalation loop: its transitive access, then every rule. */
  method EscalationStep(glob: Glob, directAccess: DirectAccessMap, graph: Graph, policy: Policy,
                        rules: seq<EscalationRule>, principal: string)
    returns (violations: seq<Violation>, ghost ta: Option<TransitiveAccess>)
    ensures IsTransitiveAccessOf(ExtractPrincipalEmail(principal), directAccess, graph, ta)
    ensures multiset(violations) == EscalationOf(glob, policy, principal, rules, ta)
  {
    var access := TransitiveAccessOf(principal, directAccess, graph);
    ta := access;
    violations := [];
    if access.Some? {
      violations := EscalationForPrincipal(glob, policy, principal, rules, access.value);
    }
  }

  /** A role-based violation is raised exactly for a matching direct role and a matching role on a transitively reached resource. */
  lemma RoleEscalationMember(glob: Glob, policy: Policy, principal: string, rule: EscalationRule,
                             directRoles: set<string>, trans: map<string, AccessVia>, v: Violation)
    ensures v in RoleEscalationBag(glob, policy, principal, rule, directRoles, trans) <==>
      rule.fromRolePattern != "" && rule.toRolePattern != "" &&
      exists dr, r, tr :: dr in directRoles && Matches(glob, dr, rule.fromRolePattern) &&
        r in trans && tr in trans[r].resource.roles && Matches(glob, tr, rule.toRolePattern) &&
        v == EscRoleV(policy, principal, dr, tr, trans[r].viaChain)
  {
    var f := EscDirectF(glob, policy, principal, rule, trans);
    if rule.fromRolePattern != "" && rule.toRolePattern != "" {
      BagMember(directRoles, f, v);
      forall dr | dr in directRoles
        ensures v in f(dr) <==> (Matches(glob, dr, rule.fromRolePattern) &&
          exists r, tr :: (r in trans && tr in trans[r].resource.roles && Matches(glob, tr, rule.toRolePattern) &&
            v == EscRoleV(policy, principal, dr, tr, trans[r].viaChain)))
      {
        var g := EscViaF(glob, policy, principal, rule, dr, trans);
        BagMember(trans.Keys, g, v);
        forall r | r in trans
          ensures v in g(r) <==> exists tr :: (tr in trans[r].resource.roles && Matches(glob, tr, rule.toRolePattern) &&
            v == EscRoleV(policy, principal, dr, tr, trans[r].viaChain))
        {
          BagMember(trans[r].resource.roles, EscRoleF(glob, policy, principal, rule, dr, trans[r].viaChain), v);
        }
      }
    }
  }

  /** A principal-based rule raises exactly one violation per matching transitively reached resource. */
  lemma PrincipalEscalationCount(glob: Glob, policy: Policy, principal: string, rule: EscalationRule,
                                 t: TransitiveAccess, resourceID: string)
    requires resourceID in t.transitiveAccess
    ensures var v := EscResourceV(policy, principal, resourceID, t.transitiveAccess[resourceID].viaChain);
      PrincipalEscalationBag(glob, policy, principal, rule, t)[v] ==
        if rule.fromPrincipalPattern != "" && rule.toResourcePattern != "" &&
           Matches(glob, principal, rule.fromPrincipalPattern) && Matches(glob, resourceID, rule.toResourcePattern)
        then 1 else 0
  {
    var trans := t.transitiveAccess;
    var v := EscResourceV(policy, principal, resourceID, trans[resourceID].viaChain);
    if rule.fromPrincipalPattern != "" && rule.toResourcePattern != "" &&
       Matches(glob, principal, rule.fromPrincipalPattern) {
      BagCountSingle(trans.Keys, EscResF(glob, policy, principal, rule, trans), resourceID, v);
    }
  }

  /** A principal-based rule that matches the principal and a reached resource puts its violation among the principal's escalations. */
  lemma EscalationOfReached(glob: Glob, policy: Policy, p: string, rules: seq<EscalationRule>, t: TransitiveAccess,
                            r: string, k: int)
    requires r in t.transitiveAccess
    requires 0 <= k < |rules| && rules[k].fromPrincipalPattern != "" && rules[k].toResourcePattern != ""
    requires Matches(glob, p, rules[k].fromPrincipalPattern) && Matches(glob, r, rules[k].toResourcePattern)
    ensures EscResourceV(policy, p, r, t.transitiveAccess[r].viaChain) in EscalationOf(glob, policy, p, rules, Some(t))
  {
    var v := EscResourceV(policy, p, r, t.transitiveAccess[r].viaChain);
    PrincipalEscalationCount(glob, policy, p, rules[k], t, r);
    var f := EscRuleF(glob, policy, p, rules, t);
    assert v in f(k);
    SumUpToMember(|rules|, f, v);
  }

  /**
   * A principal-based rule that matches a principal and a resource on which
   * some principal reachable from it by impersonation holds a role new to it
   * raises its violation in validateImpersonationEscalation.
   */
  lemma ReachedEscalationRaised(glob: Glob, directAccess: DirectAccessMap, graph: Graph, policy: Policy,
                                violations: seq<Violation>, tas: map<string, Option<TransitiveAccess>>,
                                perPrincipal: map<string, multiset<Violation>>, p: string, q: string, r: string, k: int)
    requires policy.impersonationEscalation.Some?
    requires TransitiveResults(directAccess, graph, tas)
    requires EscalationTable(glob, policy, policy.impersonationEscalation.value.forbiddenEscalations, tas, perPrincipal)
    requires multiset(violations) == Bag(directAccess.Keys, Recorded(perPrincipal))
    requires p in directAccess && p in tas && tas[p].Some?
    requires Reachable(graph, tas[p].value.principal, q)
    requires q in directAccess && Adds(directAccess[q], tas[p].value.directAccess, r)
    requires var rules := policy.impersonationEscalation.value.forbiddenEscalations;
      0 <= k < |rules| && rules[k].fromPrincipalPattern != "" && rules[k].toResourcePattern != "" &&
      Matches(glob, p, rules[k].fromPrincipalPattern) && Matches(glob, r, rules[k].toResourcePattern)
    ensures r in tas[p].value.transitiveAccess
    ensures EscResourceV(policy, p, r, tas[p].value.transitiveAccess[r].viaChain) in violations
  {
    var rules := policy.impersonationEscalation.value.forbiddenEscalations;
    var ta := tas[p];
    assert IsTransitiveAccessOf(ExtractPrincipalEmail(p), directAccess, graph, ta);
    ReachedHasEntry(ExtractPrincipalEmail(p), directAccess, graph, ta, q, r);
    var v := EscResourceV(policy, p, r, ta.value.transitiveAccess[r].viaChain);
    EscalationOfReached(glob, policy, p, rules, ta.value, r, k);
    assert perPrincipal[p] == EscalationOf(glob, policy, p, rules, ta);
    BagMember(directAccess.Keys, Recorded(perPrincipal), v);
    assert v in multiset(violations);
  }
}
