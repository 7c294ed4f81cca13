/**
 * internal/policy/validator.go: the role-restriction, resource-access and
 * separation-of-duty validators, the dispatch over policy kinds, the report
 * and the breadth-first estimate of the longest impersonation chain.
 */
module PolicyValidator {
  import opened Util
  import opened Bags
  import opened ParserTypes
  import opened Analyzer
  import opened Impersonation
  import opened PolicyModels
  import opened PolicyMatchers
  import opened PolicyTransitive
  import opened PolicyEffective

  // ---------------------------------------------------------------------
  // validateRoleRestriction.

  function DeniedV(policy: Policy, principal: string, resourceID: string, role: string): Violation {
    Violation(policy.name, ForbiddenRole, policy.severity, principal, resourceID, role, HasForbiddenRole, [])
  }

  function NotAllowedV(policy: Policy, principal: string, resourceID: string, role: string): Violation {
    Violation(policy.name, ForbiddenRole, policy.severity, principal, resourceID, role, RoleNotAllowed, [])
  }

  /** The two checks on one role: a non-empty deny list that holds it, and a non-empty allow list that does not. */
  function RoleChecks(glob: Glob, policy: Policy, rr: RoleRestrictionPolicy, principal: string, resourceID: string,
                      role: string): multiset<Violation>
  {
    (if |rr.deniedRoles| > 0 && IsRoleIn(glob, role, rr.deniedRoles)
     then multiset{DeniedV(policy, principal, resourceID, role)} else multiset{}) +
    (if |rr.allowedRoles| > 0 && !IsRoleIn(glob, role, rr.allowedRoles)
     then multiset{NotAllowedV(policy, principal, resourceID, role)} else multiset{})
  }

  ghost function RoleCheckF(glob: Glob, policy: Policy, rr: RoleRestrictionPolicy, principal: string,
                            resourceID: string): string -> multiset<Violation>
  {
    role => RoleChecks(glob, policy, rr, principal, resourceID, role)
  }

  /** The violations for the roles a selected principal holds on one resource. */
  ghost function RestrictedResourceBag(glob: Glob, policy: Policy, rr: RoleRestrictionPolicy, principal: string,
                                       resourceID: string, roles: set<string>): multiset<Violation>
  {
    Bag(roles, RoleCheckF(glob, policy, rr, principal, resourceID))
  }

  ghost function RestrictedResourceF(glob: Glob, policy: Policy, rr: RoleRestrictionPolicy, principal: string,
                                     access: map<string, ResourceMetadata>): string -> multiset<Violation>
  {
    r => if r in access then RestrictedResourceBag(glob, policy, rr, principal, r, access[r].roles) else multiset{}
  }

  /** The violations for one principal: none unless the selector's pattern matches it. */
  ghost function RestrictedPrincipalBag(glob: Glob, policy: Policy, rr: RoleRestrictionPolicy, principal: string,
                                        data: PrincipalData): multiset<Violation>
  {
    if Matches(glob, principal, rr.selector.principalPattern)
    then Bag(data.resourceAccess.Keys, RestrictedResourceF(glob, policy, rr, principal, data.resourceAccess))
    else multiset{}
  }

  ghost function RestrictedPrincipalF(glob: Glob, directAccess: DirectAccessMap, policy: Policy,
                                      rr: RoleRestrictionPolicy): string -> multiset<Violation>
  {
    p => if p in directAccess then RestrictedPrincipalBag(glob, policy, rr, p, directAccess[p]) else multiset{}
  }

  ghost function RoleRestrictionBag(glob: Glob, directAccess: DirectAccessMap, policy: Policy): multiset<Violation> {
    if policy.roleRestriction.None? then multiset{}
    else Bag(directAccess.Keys, RestrictedPrincipalF(glob, directAccess, policy, policy.roleRestriction.value))
  }

  method CheckRestrictedRoles(glob: Glob, policy: Policy, rr: RoleRestrictionPolicy, principal: string,
                              resourceID: string, roles: set<string>)
    returns (violations: seq<Violation>)
    ensures multiset(violations) == RestrictedResourceBag(glob, policy, rr, principal, resourceID, roles)
  {
    violations := [];
    ghost var f := RoleCheckF(glob, policy, rr, principal, resourceID);
    var pending := roles;
    while pending != {}
      invariant pending <= roles
      invariant multiset(violations) + Bag(pending, f) == Bag(roles, f)
      decreases pending
    {
      var role :| role in pending;
      BagPick(pending, f, role);
      var found := CheckRole(glob, policy, rr, principal, resourceID, role);
      violations := violations + found;
      pending := pending - {role};
    }
  }

  /** The body of the innermost loop: both checks on one role, deny list first. */
  method CheckRole(glob: Glob, policy: Policy, rr: RoleRestrictionPolicy, principal: string,
                   resourceID: string, role: string)
    returns (violations: seq<Violation>)
    ensures multiset(violations) == RoleChecks(glob, policy, rr, principal, resourceID, role)
  {
    violations := [];
    if |rr.deniedRoles| > 0 && IsRoleIn(glob, role, rr.deniedRoles) {
      violations := violations + [DeniedV(policy, principal, resourceID, role)];
    }
    if |rr.allowedRoles| > 0 && !IsRoleIn(glob, role, rr.allowedRoles) {
      violations := violations + [NotAllowedV(policy, principal, resourceID, role)];
    }
  }

  method CheckRestrictedPrincipal(glob: Glob, policy: Policy, rr: RoleRestrictionPolicy, principal: string,
                                  data: PrincipalData)
    returns (violations: seq<Violation>)
    ensures multiset(violations) == RestrictedPrincipalBag(glob, policy, rr, principal, data)
  {
    violations := [];
    if !Matches(glob, principal, rr.selector.principalPattern) {
      return;
    }
    var access := data.resourceAccess;
    ghost var f := RestrictedResourceF(glob, policy, rr, principal, access);
    var pending := access.Keys;
    while pending != {}
      invariant pending <= access.Keys
      invariant multiset(violations) + Bag(pending, f) == Bag(access.Keys, f)
      decreases pending
    {
      var resourceID :| resourceID in pending;
      BagPick(pending, f, resourceID);
      var found := CheckRestrictedRoles(glob, policy, rr, principal, resourceID, access[resourceID].roles);
      violations := violations + found;
      pending := pending - {resourceID};
    }
  }

  /** validateRoleRestriction: every role of every selected principal, checked against both lists. */
  method ValidateRoleRestriction(glob: Glob, directAccess: DirectAccessMap, policy: Policy)
    returns (violations: seq<Violation>)
    ensures multiset(violations) == RoleRestrictionBag(glob, directAccess, policy)
  {
    violations := [];
    if policy.roleRestriction.None? {
      return;
    }
    var rr := policy.roleRestriction.value;
    ghost var f := RestrictedPrincipalF(glob, directAccess, policy, rr);
    var pending := directAccess.Keys;
    while pending != {}
      invariant pending <= directAccess.Keys
      invariant multiset(violations) + Bag(pending, f) == Bag(directAccess.Keys, f)
      decreases pending
    {
      var principal :| principal in pending;
      BagPick(pending, f, principal);
      var found := CheckRestrictedPrincipal(glob, policy, rr, principal, directAccess[principal]);
      violations := violations + found;
      pending := pending - {principal};
    }
  }

  /**
   * Each role a selected principal holds on a resource is reported once as
   * denied when a non-empty deny list holds it, and once more as not allowed
   * when a non-empty allow list lacks it; nothing else is reported.
   */
  lemma RoleRestrictionCount(glob: Glob, directAccess: DirectAccessMap, policy: Policy, v: Violation)
    requires policy.roleRestriction.Some?
    ensures var rr := policy.roleRestriction.value;
      RoleRestrictionBag(glob, directAccess, policy)[v] ==
        if v.principal in directAccess && Matches(glob, v.principal, rr.selector.principalPattern) &&
           v.resource in directAccess[v.principal].resourceAccess &&
           v.role in directAccess[v.principal].resourceAccess[v.resource].roles
        then RoleChecks(glob, policy, rr, v.principal, v.resource, v.role)[v]
        else 0
  {
    var rr := policy.roleRestriction.value;
    RestrictedPrincipalCount(glob, directAccess, policy, rr, v);
    if v.principal in directAccess {
      var data := directAccess[v.principal];
      if Matches(glob, v.principal, rr.selector.principalPattern) {
        RestrictedResourceCount(glob, policy, rr, v.principal, data.resourceAccess, v);
        if v.resource in data.resourceAccess {
          RestrictedRoleCount(glob, policy, rr, v.principal, v.resource, data.resourceAccess[v.resource].roles, v);
        }
      }
    }
  }

  /** Only the violation's own principal contributes it. */
  lemma RestrictedPrincipalCount(glob: Glob, directAccess: DirectAccessMap, policy: Policy, rr: RoleRestrictionPolicy,
                                 v: Violation)
    ensures Bag(directAccess.Keys, RestrictedPrincipalF(glob, directAccess, policy, rr))[v] ==
      if v.principal in directAccess
      then RestrictedPrincipalBag(glob, policy, rr, v.principal, directAccess[v.principal])[v] else 0
  {
    var f := RestrictedPrincipalF(glob, directAccess, policy, rr);
    forall p | p in directAccess && p != v.principal
      ensures v !in f(p)
    {
      RestrictedPrincipalAbout(glob, policy, rr, p, directAccess[p]);
    }
    BagCountOnly(directAccess.Keys, f, v.principal, v);
  }

  /** Of a principal's resources, only the violation's own resource contributes it. */
  lemma RestrictedResourceCount(glob: Glob, policy: Policy, rr: RoleRestrictionPolicy, principal: string,
                                access: map<string, ResourceMetadata>, v: Violation)
    ensures Bag(access.Keys, RestrictedResourceF(glob, policy, rr, principal, access))[v] ==
      if v.resource in access then RestrictedResourceBag(glob, policy, rr, principal, v.resource, access[v.resource].roles)[v]
      else 0
  {
    var g := RestrictedResourceF(glob, policy, rr, principal, access);
    forall r | r in access && r != v.resource
      ensures v !in g(r)
    {
      RestrictedResourceAbout(glob, policy, rr, principal, r, access[r].roles);
    }
    BagCountOnly(access.Keys, g, v.resource, v);
  }

  /** Of the roles on a resource, only the violation's own role contributes it. */
  lemma RestrictedRoleCount(glob: Glob, policy: Policy, rr: RoleRestrictionPolicy, principal: string,
                            resourceID: string, roles: set<string>, v: Violation)
    ensures RestrictedResourceBag(glob, policy, rr, principal, resourceID, roles)[v] ==
      if v.role in roles then RoleChecks(glob, policy, rr, principal, resourceID, v.role)[v] else 0
  {
    var h := RoleCheckF(glob, policy, rr, principal, resourceID);
    forall role | role in roles && role != v.role
      ensures v !in h(role)
    {
    }
    BagCountOnly(roles, h, v.role, v);
  }

  /** What the roles on one resource contribute names the principal and the resource. */
  lemma RestrictedResourceAbout(glob: Glob, policy: Policy, rr: RoleRestrictionPolicy, principal: string,
                                resourceID: string, roles: set<string>)
    ensures forall v :: v in RestrictedResourceBag(glob, policy, rr, principal, resourceID, roles) ==>
      v.principal == principal && v.resource == resourceID
  {
    BagForall(roles, RoleCheckF(glob, policy, rr, principal, resourceID),
              (v: Violation) => v.principal == principal && v.resource == resourceID);
  }

  /** What one principal contributes names that principal. */
  lemma RestrictedPrincipalAbout(glob: Glob, policy: Policy, rr: RoleRestrictionPolicy, principal: string,
                                 data: PrincipalData)
    ensures forall v :: v in RestrictedPrincipalBag(glob, policy, rr, principal, data) ==> v.principal == principal
  {
    var access := data.resourceAccess;
    var g := RestrictedResourceF(glob, policy, rr, principal, access);
    forall r | r in access
      ensures forall v :: v in g(r) ==> v.principal == principal
    {
      RestrictedResourceAbout(glob, policy, rr, principal, r, access[r].roles);
    }
    BagForall(access.Keys, g, (v: Violation) => v.principal == principal);
  }

  // ---------------------------------------------------------------------
  // validateResourceAccess.

  function UnauthorizedV(policy: Policy, member: string, b: IAMBinding): Violation {
    Violation(policy.name, UnauthorizedPrincipal, policy.severity, member, b.resourceID, b.role,
              UnauthorizedPrincipalOnResource, [])
  }

  function UnauthorizedRoleV(policy: Policy, member: string, b: IAMBinding): Violation {
    Violation(policy.name, ForbiddenRole, policy.severity, member, b.resourceID, b.role, UnauthorizedRoleOnResource, [])
  }

  /** The selector picks a binding by its resource ID and, unless the selector's type is "" or "*", by its resource type. */
  predicate BindingSelected(glob: Glob, sel: ResourceSelector, b: IAMBinding) {
    Matches(glob, b.resourceID, sel.resourcePattern) &&
    (sel.resourceType == "" || sel.resourceType == "*" || b.resourceType == sel.resourceType)
  }

  /** The checks on one member of a selected binding: the allow list first, then its own role list when it has one. */
  function MemberChecks(glob: Glob, policy: Policy, ra: ResourceAccessPolicy, b: IAMBinding, member: string): seq<Violation> {
    (if !IsPrincipalIn(glob, member, ra.allowedPrincipals) then [UnauthorizedV(policy, member, b)] else []) +
    (if |ra.allowedRolesPerPrincipal| > 0 && member in ra.allowedRolesPerPrincipal &&
        !IsRoleIn(glob, b.role, ra.allowedRolesPerPrincipal[member])
     then [UnauthorizedRoleV(policy, member, b)] else [])
  }

  function PerMember(glob: Glob, policy: Policy, ra: ResourceAccessPolicy, b: IAMBinding, members: seq<string>)
    : seq<seq<Violation>>
  {
    seq(|members|, j requires 0 <= j < |members| => MemberChecks(glob, policy, ra, b, members[j]))
  }

  function BindingChecks(glob: Glob, policy: Policy, ra: ResourceAccessPolicy, b: IAMBinding): seq<Violation> {
    if BindingSelected(glob, ra.selector, b) then Flatten(PerMember(glob, policy, ra, b, b.members)) else []
  }

  function PerBinding(glob: Glob, policy: Policy, ra: ResourceAccessPolicy, bindings: seq<IAMBinding>): seq<seq<Violation>> {
    seq(|bindings|, i requires 0 <= i < |bindings| => BindingChecks(glob, policy, ra, bindings[i]))
  }

  /** The violations of a resource-access policy, binding by binding and member by member. */
  function ResourceAccessViolations(glob: Glob, bindings: seq<IAMBinding>, policy: Policy): seq<Violation> {
    if policy.resourceAccess.None? then []
    else Flatten(PerBinding(glob, policy, policy.resourceAccess.value, bindings))
  }

  method CheckMember(glob: Glob, policy: Policy, ra: ResourceAccessPolicy, b: IAMBinding, member: string)
    returns (found: seq<Violation>)
    ensures found == MemberChecks(glob, policy, ra, b, member)
  {
    found := [];
    if !IsPrincipalIn(glob, member, ra.allowedPrincipals) {
      found := found + [UnauthorizedV(policy, member, b)];
    }
    if |ra.allowedRolesPerPrincipal| > 0 {
      if member in ra.allowedRolesPerPrincipal && !IsRoleIn(glob, b.role, ra.allowedRolesPerPrincipal[member]) {
        found := found + [UnauthorizedRoleV(policy, member, b)];
      }
    }
  }

  method CheckMembers(glob: Glob, policy: Policy, ra: ResourceAccessPolicy, b: IAMBinding)
    returns (violations: seq<Violation>)
    ensures violations == Flatten(PerMember(glob, policy, ra, b, b.members))
  {
    violations := [];
    for j := 0 to |b.members|
      invariant violations == Flatten(PerMember(glob, policy, ra, b, b.members[..j]))
    {
      var member := b.members[j];
      var found := CheckMember(glob, policy, ra, b, member);
      assert PerMember(glob, policy, ra, b, b.members[..j + 1]) ==
             PerMember(glob, policy, ra, b, b.members[..j]) + [MemberChecks(glob, policy, ra, b, member)];
      FlattenSnoc(PerMember(glob, policy, ra, b, b.members[..j]), found);
      violations := violations + found;
    }
    assert b.members[..|b.members|] == b.members;
  }

  /** Checking one more binding appends its checks. */
  lemma PerBindingSnoc(glob: Glob, policy: Policy, ra: ResourceAccessPolicy, bindings: seq<IAMBinding>, i: int)
    requires 0 <= i < |bindings|
    ensures PerBinding(glob, policy, ra, bindings[..i + 1]) ==
            PerBinding(glob, policy, ra, bindings[..i]) + [BindingChecks(glob, policy, ra, bindings[i])]
  {
  }

  /** validateResourceAccess: every member of every selected binding, in binding order. */
  method ValidateResourceAccess(glob: Glob, bindings: seq<IAMBinding>, policy: Policy)
    returns (violations: seq<Violation>)
    ensures violations == ResourceAccessViolations(glob, bindings, policy)
  {
    violations := [];
    if policy.resourceAccess.None? {
      return;
    }
    var ra := policy.resourceAccess.value;
    for i := 0 to |bindings|
      invariant violations == Flatten(PerBinding(glob, policy, ra, bindings[..i]))
    {
      var b := bindings[i];
      var found := [];
      if BindingSelected(glob, ra.selector, b) {
        found := CheckMembers(glob, policy, ra, b);
      }
      PerBindingSnoc(glob, policy, ra, bindings, i);
      FlattenSnoc(PerBinding(glob, policy, ra, bindings[..i]), found);
      violations := violations + found;
    }
    assert bindings[..|bindings|] == bindings;
  }

  /** Within one binding: a violation comes from a check on one of its members, and only when the binding is selected. */
  lemma BindingChecksMember(glob: Glob, policy: Policy, ra: ResourceAccessPolicy, b: IAMBinding, v: Violation)
    ensures v in BindingChecks(glob, policy, ra, b) <==>
      BindingSelected(glob, ra.selector, b) &&
      exists j :: 0 <= j < |b.members| && v in MemberChecks(glob, policy, ra, b, b.members[j])
  {
    var ss := PerMember(glob, policy, ra, b, b.members);
    FlattenMember(ss, v);
    assert forall j :: 0 <= j < |b.members| ==> ss[j] == MemberChecks(glob, policy, ra, b, b.members[j]);
  }

  /** A violation is raised exactly by one of the checks on one member of one selected binding. */
  lemma ResourceAccessMember(glob: Glob, bindings: seq<IAMBinding>, policy: Policy, v: Violation)
    requires policy.resourceAccess.Some?
    ensures var ra := policy.resourceAccess.value;
      v in ResourceAccessViolations(glob, bindings, policy) <==>
        exists i, j :: 0 <= i < |bindings| && BindingSelected(glob, ra.selector, bindings[i]) &&
          0 <= j < |bindings[i].members| && v in MemberChecks(glob, policy, ra, bindings[i], bindings[i].members[j])
  {
    var ra := policy.resourceAccess.value;
    FlattenMember(PerBinding(glob, policy, ra, bindings), v);
    forall i | 0 <= i < |bindings|
      ensures v in PerBinding(glob, policy, ra, bindings)[i] <==>
        (BindingSelected(glob, ra.selector, bindings[i]) &&
         exists j :: 0 <= j < |bindings[i].members| &&
           v in MemberChecks(glob, policy, ra, bindings[i], bindings[i].members[j]))
    {
      BindingChecksMember(glob, policy, ra, bindings[i], v);
    }
  }

  /** With an empty allow list, every member of every selected binding is reported as unauthorized. */
  lemma EmptyAllowListFlagsEveryMember(glob: Glob, bindings: seq<IAMBinding>, policy: Policy, i: int, j: int)
    requires policy.resourceAccess.Some? && |policy.resourceAccess.value.allowedPrincipals| == 0
    requires 0 <= i < |bindings| && BindingSelected(glob, policy.resourceAccess.value.selector, bindings[i])
    requires 0 <= j < |bindings[i].members|
    ensures UnauthorizedV(policy, bindings[i].members[j], bindings[i]) in ResourceAccessViolations(glob, bindings, policy)
  {
    var ra := policy.resourceAccess.value;
    var v := UnauthorizedV(policy, bindings[i].members[j], bindings[i]);
    assert v in MemberChecks(glob, policy, ra, bindings[i], bindings[i].members[j]);
    ResourceAccessMember(glob, bindings, policy, v);
  }

  /** A role violation is raised only for a member with its own role list, and one that does not admit the binding's role. */
  lemma RoleViolationNeedsEntry(glob: Glob, bindings: seq<IAMBinding>, policy: Policy, v: Violation)
    requires policy.resourceAccess.Some?
    requires v in ResourceAccessViolations(glob, bindings, policy) && v.message == UnauthorizedRoleOnResource
    ensures var perPrincipal := policy.resourceAccess.value.allowedRolesPerPrincipal;
      v.principal in perPrincipal && !IsRoleIn(glob, v.role, perPrincipal[v.principal]) && v.violationType == ForbiddenRole
  {
    ResourceAccessMember(glob, bindings, policy, v);
  }

  // ---------------------------------------------------------------------
  // validateSeparationOfDuty.

  /** The entries of a conflict set the principal holds, in order and with repeats (the `conflictingRoles` slice). */
  function Held(roles: set<string>, conflictSet: seq<string>): (r: seq<string>)
    ensures |r| <= |conflictSet|
  {
    if |conflictSet| == 0 then []
    else
      var last := conflictSet[|conflictSet| - 1];
      Held(roles, conflictSet[..|conflictSet| - 1]) + (if last in roles then [last] else [])
  }

  /** A role is among the held entries exactly when the conflict set lists it and the principal holds it. */
  lemma {:induction false} HeldMember(roles: set<string>, conflictSet: seq<string>, x: string)
    ensures x in Held(roles, conflictSet) <==> x in conflictSet && x in roles
    decreases |conflictSet|
  {
    if |conflictSet| > 0 {
      var n := |conflictSet| - 1;
      var init := conflictSet[..n];
      HeldMember(roles, init, x);
      assert conflictSet == init + [conflictSet[n]];
    }
  }

  function ConflictV(policy: Policy, principal: string, held: seq<string>): Violation {
    Violation(policy.name, ConflictingRoles, policy.severity, principal, "", "", HasConflictingRoles(held), [])
  }

  /** The violation for one conflict set: raised when the principal holds more than one of its entries. */
  function ConflictCheck(policy: Policy, principal: string, roles: set<string>, conflictSet: seq<string>): seq<Violation> {
    var held := Held(roles, conflictSet);
    if |held| > 1 then [ConflictV(policy, principal, held)] else []
  }

  function PerConflictSet(policy: Policy, principal: string, roles: set<string>, sets: seq<seq<string>>)
    : seq<seq<Violation>>
  {
    seq(|sets|, i requires 0 <= i < |sets| => ConflictCheck(policy, principal, roles, sets[i]))
  }

  /** The violations of one principal, in the order of the conflict sets. */
  ghost function ConflictsOf(policy: Policy, principal: string, data: PrincipalData, sets: seq<seq<string>>)
    : multiset<Violation>
  {
    multiset(Flatten(PerConflictSet(policy, principal, AllRoles(data), sets)))
  }

  ghost function ConflictsF(directAccess: DirectAccessMap, policy: Policy, sets: seq<seq<string>>)
    : string -> multiset<Violation>
  {
    p => if p in directAccess then ConflictsOf(policy, p, directAccess[p], sets) else multiset{}
  }

  /** Only the "per_principal" scope is checked; any other scope raises nothing. */
  ghost function SeparationBag(directAccess: DirectAccessMap, policy: Policy): multiset<Violation> {
    if policy.separationOfDuty.None? || policy.separationOfDuty.value.scope != "per_principal" then multiset{}
    else Bag(directAccess.Keys, ConflictsF(directAccess, policy, policy.separationOfDuty.value.conflictingRoles))
  }

  /** The loop over one conflict set: `hasCount` counts the held entries, repeats included. */
  method CountHeld(roles: set<string>, conflictSet: seq<string>) returns (hasCount: int, conflicting: seq<string>)
    ensures conflicting == Held(roles, conflictSet) && hasCount == |conflicting|
  {
    hasCount := 0;
    conflicting := [];
    for k := 0 to |conflictSet|
      invariant conflicting == Held(roles, conflictSet[..k]) && hasCount == |conflicting|
    {
      var role := conflictSet[k];
      assert conflictSet[..k + 1][..k] == conflictSet[..k];
      if role in roles {
        hasCount := hasCount + 1;
        conflicting := conflicting + [role];
      }
    }
    assert conflictSet[..|conflictSet|] == conflictSet;
  }

  method CheckConflicts(policy: Policy, principal: string, roles: set<string>, sets: seq<seq<string>>)
    returns (violations: seq<Violation>)
    ensures violations == Flatten(PerConflictSet(policy, principal, roles, sets))
  {
    violations := [];
    for i := 0 to |sets|
      invariant violations == Flatten(PerConflictSet(policy, principal, roles, sets[..i]))
    {
      var hasCount, conflicting := CountHeld(roles, sets[i]);
      var found := [];
      if hasCount > 1 {
        found := [ConflictV(policy, principal, conflicting)];
      }
      assert PerConflictSet(policy, principal, roles, sets[..i + 1]) ==
             PerConflictSet(policy, principal, roles, sets[..i]) + [ConflictCheck(policy, principal, roles, sets[i])];
      FlattenSnoc(PerConflictSet(policy, principal, roles, sets[..i]), found);
      violations := violations + found;
    }
    assert sets[..|sets|] == sets;
  }

  /** validateSeparationOfDuty: with scope "per_principal", every conflict set against the roles of every principal. */
  method ValidateSeparationOfDuty(directAccess: DirectAccessMap, policy: Policy) returns (violations: seq<Violation>)
    ensures multiset(violations) == SeparationBag(directAccess, policy)
  {
    violations := [];
    if policy.separationOfDuty.None? {
      return;
    }
    var sod := policy.separationOfDuty.value;
    if sod.scope == "per_principal" {
      ghost var f := ConflictsF(directAccess, policy, sod.conflictingRoles);
      var pending := directAccess.Keys;
      while pending != {}
        invariant pending <= directAccess.Keys
        invariant multiset(violations) + Bag(pending, f) == Bag(directAccess.Keys, f)
        decreases pending
      {
        var principal :| principal in pending;
        BagPick(pending, f, principal);
        var allRoles := CollectRoles(directAccess[principal]);
        var found := CheckConflicts(policy, principal, allRoles, sod.conflictingRoles);
        violations := violations + found;
        pending := pending - {principal};
      }
    }
  }

  /** Two held positions make more than one held entry. */
  lemma {:induction false} HeldPair(roles: set<string>, conflictSet: seq<string>, i: int, j: int)
    requires 0 <= i < j < |conflictSet| && conflictSet[i] in roles && conflictSet[j] in roles
    ensures |Held(roles, conflictSet)| > 1
    decreases |conflictSet|
  {
    var n := |conflictSet| - 1;
    var init := conflictSet[..n];
    var last := if conflictSet[n] in roles then [conflictSet[n]] else [];
    assert Held(roles, conflictSet) == Held(roles, init) + last;
    if j < n {
      assert init[i] == conflictSet[i] && init[j] == conflictSet[j];
      HeldPair(roles, init, i, j);
    } else {
      assert init[i] == conflictSet[i] && init[i] in init;
      HeldMember(roles, init, init[i]);
      assert |last| == 1;
    }
  }

  /** More than one held entry comes from two different held positions. */
  lemma {:induction false} HeldWitness(roles: set<string>, conflictSet: seq<string>)
    requires |Held(roles, conflictSet)| > 1
    ensures exists i, j :: 0 <= i < j < |conflictSet| && conflictSet[i] in roles && conflictSet[j] in roles
    decreases |conflictSet|
  {
    var n := |conflictSet| - 1;
    var init := conflictSet[..n];
    if |Held(roles, init)| > 1 {
      HeldWitness(roles, init);
      var i, j :| 0 <= i < j < n && init[i] in roles && init[j] in roles;
      assert conflictSet[i] == init[i] && conflictSet[j] == init[j];
    } else {
      var x := Held(roles, init)[0];
      HeldMember(roles, init, x);
      var i :| 0 <= i < n && init[i] == x;
      assert conflictSet[i] == x;
    }
  }

  /** More than one entry is held exactly when two different positions of the conflict set hold roles of the principal. */
  lemma HeldMoreThanOne(roles: set<string>, conflictSet: seq<string>)
    ensures |Held(roles, conflictSet)| > 1 <==>
      exists i, j :: 0 <= i < j < |conflictSet| && conflictSet[i] in roles && conflictSet[j] in roles
  {
    if |Held(roles, conflictSet)| > 1 {
      HeldWitness(roles, conflictSet);
    }
    if exists i, j :: 0 <= i < j < |conflictSet| && conflictSet[i] in roles && conflictSet[j] in roles {
      var i, j :| 0 <= i < j < |conflictSet| && conflictSet[i] in roles && conflictSet[j] in roles;
      HeldPair(roles, conflictSet, i, j);
    }
  }

  /** A role listed twice in a conflict set counts twice, so holding it alone raises a conflict. */
  lemma RepeatedRoleConflicts(policy: Policy, principal: string, roles: set<string>, role: string)
    requires role in roles
    ensures ConflictCheck(policy, principal, roles, [role, role]) == [ConflictV(policy, principal, [role, role])]
  {
    assert [role, role][..1] == [role];
    assert [role][..0] == [];
    assert Held(roles, [role]) == [role];
    assert Held(roles, [role, role]) == [role, role];
  }

  /** One principal's conflicts: one per conflict set of which it holds more than one entry. */
  lemma ConflictsOfMember(policy: Policy, p: string, data: PrincipalData, sets: seq<seq<string>>, v: Violation)
    ensures v in ConflictsOf(policy, p, data, sets) <==>
      exists i :: 0 <= i < |sets| && |Held(AllRoles(data), sets[i])| > 1 && v == ConflictV(policy, p, Held(AllRoles(data), sets[i]))
  {
    var ss := PerConflictSet(policy, p, AllRoles(data), sets);
    FlattenMember(ss, v);
    assert forall i :: 0 <= i < |sets| ==> ss[i] == ConflictCheck(policy, p, AllRoles(data), sets[i]);
  }

  /**
   * A conflict violation is raised exactly for a principal of directAccess
   * and a conflict set of which it holds more than one entry, and it lists
   * the held entries.
   */
  lemma SeparationMember(directAccess: DirectAccessMap, policy: Policy, v: Violation)
    requires policy.separationOfDuty.Some? && policy.separationOfDuty.value.scope == "per_principal"
    ensures var sets := policy.separationOfDuty.value.conflictingRoles;
      v in SeparationBag(directAccess, policy) <==>
        exists p, i :: p in directAccess && 0 <= i < |sets| && |Held(AllRoles(directAccess[p]), sets[i])| > 1 &&
          v == ConflictV(policy, p, Held(AllRoles(directAccess[p]), sets[i]))
  {
    var sets := policy.separationOfDuty.value.conflictingRoles;
    var f := ConflictsF(directAccess, policy, sets);
    BagMember(directAccess.Keys, f, v);
    forall p | p in directAccess
      ensures v in f(p) <==> exists i :: (0 <= i < |sets| && |Held(AllRoles(directAccess[p]), sets[i])| > 1 &&
        v == ConflictV(policy, p, Held(AllRoles(directAccess[p]), sets[i])))
    {
      ConflictsOfMember(policy, p, directAccess[p], sets, v);
    }
  }

  // ---------------------------------------------------------------------
  // ValidatePolicy.

  /** What a validator computed besides its violations: the intermediate results its specification is stated over. */
  datatype Evidence =
    | NoEvidence
    | PersonaEvidence(parts: seq<seq<Violation>>, forbs: seq<seq<Violation>>, trans: seq<seq<Violation>>,
                      personaTas: seq<Option<TransitiveAccess>>)
    | EscalationEvidence(escalationTas: map<string, Option<TransitiveAccess>>, perPrincipal: map<string, multiset<Violation>>)
    | EffectiveEvidence(ea: EffectiveMap, effectiveTas: map<string, Option<TransitiveAccess>>)

  /** The single violation a policy of an unknown kind raises. */
  function UnknownV(policy: Policy): Violation {
    Violation(policy.name, UnknownType, SeverityError, "", "", "", UnknownPolicyType(policy.ptype), [])
  }

  ghost predicate PersonaOutcome(glob: Glob, directAccess: DirectAccessMap, graph: Graph, policy: Policy,
                                 vs: seq<Violation>, ev: Evidence)
  {
    && ev.PersonaEvidence?
    && (policy.persona.None? ==> vs == [])
    && (policy.persona.Some? ==>
          var persona := policy.persona.value;
          && |ev.parts| == |ev.forbs| == |ev.trans| == |ev.personaTas| == |persona.principals|
          && vs == Flatten(ev.parts)
          && forall i :: 0 <= i < |persona.principals| ==>
               PersonaPart(glob, directAccess, graph, policy, persona, persona.principals[i],
                           ev.parts[i], ev.forbs[i], ev.trans[i], ev.personaTas[i]))
    && forall v :: v in vs ==> PersonaNamed(policy, v)
  }

  ghost predicate EscalationOutcome(glob: Glob, directAccess: DirectAccessMap, graph: Graph, policy: Policy,
                                    vs: seq<Violation>, ev: Evidence)
  {
    && ev.EscalationEvidence?
    && (policy.impersonationEscalation.None? ==> vs == [])
    && (policy.impersonationEscalation.Some? ==>
          && TransitiveResults(directAccess, graph, ev.escalationTas)
          && EscalationTable(glob, policy, policy.impersonationEscalation.value.forbiddenEscalations,
                             ev.escalationTas, ev.perPrincipal)
          && multiset(vs) == Bag(directAccess.Keys, Recorded(ev.perPrincipal)))
  }

  ghost predicate EffectiveOutcome(glob: Glob, directAccess: DirectAccessMap, graph: Graph, policy: Policy,
                                   vs: seq<Violation>, ev: Evidence)
  {
    && ev.EffectiveEvidence?
    && (policy.effectiveAccess.None? ==> vs == [])
    && (policy.effectiveAccess.Some? ==>
          var e := policy.effectiveAccess.value;
          && (e.validateEffectiveAccess ==> TransitiveResults(directAccess, graph, ev.effectiveTas))
          && EffectiveOf(glob, directAccess, e.selector, e.validateEffectiveAccess, ev.effectiveTas, ev.ea)
          && multiset(vs) == EffectiveBag(glob, directAccess, policy, e, ev.ea))
  }

  /** The violations of one policy, according to its kind tag. */
  ghost predicate PolicyOutcome(glob: Glob, bindings: seq<IAMBinding>, directAccess: DirectAccessMap, graph: Graph,
                                policy: Policy, vs: seq<Violation>, ev: Evidence)
  {
    if policy.ptype == PolicyTypeRoleRestriction then multiset(vs) == RoleRestrictionBag(glob, directAccess, policy)
    else if policy.ptype == PolicyTypePersona then PersonaOutcome(glob, directAccess, graph, policy, vs, ev)
    else if policy.ptype == PolicyTypeResourceAccess then vs == ResourceAccessViolations(glob, bindings, policy)
    else if policy.ptype == PolicyTypeSeparationOfDuty then multiset(vs) == SeparationBag(directAccess, policy)
    else if policy.ptype == PolicyTypeImpersonationEscalation then
      EscalationOutcome(glob, directAccess, graph, policy, vs, ev)
    else if policy.ptype == PolicyTypeEffectiveAccess then EffectiveOutcome(glob, directAccess, graph, policy, vs, ev)
    else vs == [UnknownV(policy)]
  }

  /** ValidatePolicy: the validator of the policy's kind, or one error for a kind it does not know. */
  method ValidatePolicy(glob: Glob, bindings: seq<IAMBinding>, directAccess: DirectAccessMap, graph: Graph,
                        policy: Policy)
    returns (violations: seq<Violation>, ghost ev: Evidence)
    ensures PolicyOutcome(glob, bindings, directAccess, graph, policy, violations, ev)
  {
    ev := NoEvidence;
    if policy.ptype == PolicyTypeRoleRestriction {
      violations := ValidateRoleRestriction(glob, directAccess, policy);
    } else if policy.ptype == PolicyTypePersona {
      ghost var parts, forbs, trans, tas;
      violations, parts, forbs, trans, tas := ValidatePersona(glob, directAccess, graph, policy);
      ev := PersonaEvidence(parts, forbs, trans, tas);
    } else if policy.ptype == PolicyTypeResourceAccess {
      violations := ValidateResourceAccess(glob, bindings, policy);
    } else if policy.ptype == PolicyTypeSeparationOfDuty {
      violations := ValidateSeparationOfDuty(directAccess, policy);
    } else if policy.ptype == PolicyTypeImpersonationEscalation {
      ghost var tas, perPrincipal;
      violations, tas, perPrincipal := ValidateImpersonationEscalation(glob, directAccess, graph, policy);
      ev := EscalationEvidence(tas, perPrincipal);
    } else if policy.ptype == PolicyTypeEffectiveAccess {
      ghost var ea, tas;
      violations, ea, tas := ValidateEffectiveAccess(glob, directAccess, graph, policy);
      ev := EffectiveEvidence(ea, tas);
    } else {
      violations := [UnknownV(policy)];
    }
  }

  /** Each policy's violations agree with its kind's specification. */
  ghost predicate Outcomes(glob: Glob, bindings: seq<IAMBinding>, directAccess: DirectAccessMap, graph: Graph,
                           policies: seq<Policy>, results: seq<seq<Violation>>, evs: seq<Evidence>)
  {
    && |results| == |evs| == |policies|
    && forall k :: 0 <= k < |policies| ==>
         PolicyOutcome(glob, bindings, directAccess, graph, policies[k], results[k], evs[k])
  }

  /** A policy of an unknown kind is never compliant: it raises exactly one error naming its kind. */
  lemma UnknownKindFails(glob: Glob, bindings: seq<IAMBinding>, directAccess: DirectAccessMap, graph: Graph,
                         policy: Policy, vs: seq<Violation>, ev: Evidence)
    requires PolicyOutcome(glob, bindings, directAccess, graph, policy, vs, ev)
    requires policy.ptype !in {PolicyTypeRoleRestriction, PolicyTypePersona, PolicyTypeResourceAccess,
                               PolicyTypeSeparationOfDuty, PolicyTypeImpersonationEscalation, PolicyTypeEffectiveAccess}
    ensures |vs| == 1 && vs[0].severity == SeverityError && vs[0].violationType == UnknownType
    ensures MessageText(vs[0].message) == "Unknown policy type: " + policy.ptype
  {
  }

  // ---------------------------------------------------------------------
  // Validate: the report.

  /** How many of the violations have the given severity. */
  function CountSeverity(vs: seq<Violation>, severity: string): (n: nat)
    ensures n <= |vs|
  {
    if |vs| == 0 then 0
    else CountSeverity(vs[..|vs| - 1], severity) + (if vs[|vs| - 1].severity == severity then 1 else 0)
  }

  lemma {:induction false} CountSeverityAppend(a: seq<Violation>, b: seq<Violation>, severity: string)
    ensures CountSeverity(a + b, severity) == CountSeverity(a, severity) + CountSeverity(b, severity)
    decreases |b|
  {
    if |b| > 0 {
      var b' := b[..|b| - 1];
      var last := if b[|b| - 1].severity == severity then 1 else 0;
      assert (a + b)[..|a + b| - 1] == a + b';
      assert (a + b)[|a + b| - 1] == b[|b| - 1];
      assert CountSeverity(a + b, severity) == CountSeverity(a + b', severity) + last;
      CountSeverityAppend(a, b', severity);
    } else {
      assert a + b == a;
    }
  }

  /**
   * The three counters never exceed the number of violations, and they add
   * up to it exactly when every violation has one of the three severities
   * (a policy with any other severity string raises uncounted violations).
   */
  lemma {:induction false} SeverityCountsBound(vs: seq<Violation>)
    ensures CountSeverity(vs, SeverityError) + CountSeverity(vs, SeverityWarning) + CountSeverity(vs, SeverityInfo) <= |vs|
    ensures CountSeverity(vs, SeverityError) + CountSeverity(vs, SeverityWarning) + CountSeverity(vs, SeverityInfo) == |vs|
      <==> forall v :: v in vs ==> IsSeverity(v.severity)
  {
    if |vs| > 0 {
      var init := vs[..|vs| - 1];
      SeverityCountsBound(init);
      assert forall v :: v in vs <==> v in init || v == vs[|vs| - 1];
    }
  }

  /** The names of the policies that raised nothing, in configuration order. */
  function CompliantNames(policies: seq<Policy>, results: seq<seq<Violation>>): seq<string>
    requires |policies| == |results|
  {
    if |policies| == 0 then []
    else
      var n := |policies| - 1;
      CompliantNames(policies[..n], results[..n]) + (if |results[n]| == 0 then [policies[n].name] else [])
  }

  /** A name is listed as compliant exactly when some policy of that name raised nothing. */
  lemma {:induction false} CompliantMember(policies: seq<Policy>, results: seq<seq<Violation>>, name: string)
    requires |policies| == |results|
    ensures name in CompliantNames(policies, results) <==>
      exists i :: 0 <= i < |policies| && |results[i]| == 0 && policies[i].name == name
  {
    if |policies| > 0 {
      var n := |policies| - 1;
      CompliantMember(policies[..n], results[..n], name);
      assert forall i :: 0 <= i < n ==> policies[..n][i] == policies[i] && results[..n][i] == results[i];
    }
  }

  /** The report holds no violation exactly when every policy is listed as compliant. */
  lemma {:induction false} NoViolationsAllCompliant(policies: seq<Policy>, results: seq<seq<Violation>>)
    requires |policies| == |results|
    ensures |CompliantNames(policies, results)| <= |policies|
    ensures |Flatten(results)| == 0 <==> |CompliantNames(policies, results)| == |policies|
  {
    if |policies| > 0 {
      var n := |policies| - 1;
      NoViolationsAllCompliant(policies[..n], results[..n]);
    }
  }

  /** The loop over one policy's violations that bumps the severity counters. */
  method TallySeverities(violations: seq<Violation>, errors0: int, warnings0: int, infos0: int)
    returns (errors: int, warnings: int, infos: int)
    ensures errors == errors0 + CountSeverity(violations, SeverityError)
    ensures warnings == warnings0 + CountSeverity(violations, SeverityWarning)
    ensures infos == infos0 + CountSeverity(violations, SeverityInfo)
  {
    errors, warnings, infos := errors0, warnings0, infos0;
    for k := 0 to |violations|
      invariant errors == errors0 + CountSeverity(violations[..k], SeverityError)
      invariant warnings == warnings0 + CountSeverity(violations[..k], SeverityWarning)
      invariant infos == infos0 + CountSeverity(violations[..k], SeverityInfo)
    {
      assert violations[..k + 1][..k] == violations[..k];
      var severity := violations[k].severity;
      if severity == SeverityError {
        errors := errors + 1;
      } else if severity == SeverityWarning {
        warnings := warnings + 1;
      } else if severity == SeverityInfo {
        infos := infos + 1;
      }
    }
    assert violations[..|violations|] == violations;
  }

  /** The parts of the report that sum up the policies validated so far. */
  ghost predicate Summarizes(report: ValidationReport, policies: seq<Policy>, results: seq<seq<Violation>>) {
    && |policies| == |results|
    && report.violations == Flatten(results) && report.totalViolations == |report.violations|
    && report.errorCount == CountSeverity(report.violations, SeverityError)
    && report.warningCount == CountSeverity(report.violations, SeverityWarning)
    && report.infoCount == CountSeverity(report.violations, SeverityInfo)
    && report.compliantPolicies == CompliantNames(policies, results)
  }

  /** The body of Validate's loop after ValidatePolicy: list the policy as compliant, or add and count its violations. */
  method RecordPolicy(report: ValidationReport, ghost policies: seq<Policy>, ghost results: seq<seq<Violation>>,
                      policy: Policy, violations: seq<Violation>)
    returns (r: ValidationReport)
    requires Summarizes(report, policies, results)
    ensures Summarizes(r, policies + [policy], results + [violations])
    ensures r.totalPolicies == report.totalPolicies && r.principalsAnalyzed == report.principalsAnalyzed
    ensures r.maxChainDepth == report.maxChainDepth && r.highRiskFindings == report.highRiskFindings
  {
    r := report;
    assert (policies + [policy])[..|policies|] == policies;
    assert (results + [violations])[..|results|] == results;
    FlattenSnoc(results, violations);
    if |violations| == 0 {
      r := r.(compliantPolicies := r.compliantPolicies + [policy.name]);
    } else {
      CountSeverityAppend(r.violations, violations, SeverityError);
      CountSeverityAppend(r.violations, violations, SeverityWarning);
      CountSeverityAppend(r.violations, violations, SeverityInfo);
      r := r.(violations := r.violations + violations, totalViolations := r.totalViolations + |violations|);
      var errors, warnings, infos := TallySeverities(violations, r.errorCount, r.warningCount, r.infoCount);
      r := r.(errorCount := errors, warningCount := warnings, infoCount := infos);
    }
  }

  /** One turn of Validate's loop: ValidatePolicy on the next policy, and that policy recorded in the report. */
  method ValidateNext(glob: Glob, bindings: seq<IAMBinding>, directAccess: DirectAccessMap, graph: Graph,
                      policies: seq<Policy>, i: int, report: ValidationReport,
                      ghost results: seq<seq<Violation>>, ghost evs: seq<Evidence>)
    returns (r: ValidationReport, ghost results': seq<seq<Violation>>, ghost evs': seq<Evidence>)
    requires 0 <= i < |policies|
    requires Outcomes(glob, bindings, directAccess, graph, policies[..i], results, evs)
    requires Summarizes(report, policies[..i], results)
    ensures Outcomes(glob, bindings, directAccess, graph, policies[..i + 1], results', evs')
    ensures Summarizes(r, policies[..i + 1], results')
    ensures r.totalPolicies == report.totalPolicies && r.principalsAnalyzed == report.principalsAnalyzed
    ensures r.maxChainDepth == report.maxChainDepth && r.highRiskFindings == report.highRiskFindings
  {
    var violations;
    ghost var ev;
    violations, ev := ValidatePolicy(glob, bindings, directAccess, graph, policies[i]);
    r := RecordPolicy(report, policies[..i], results, policies[i], violations);
    assert policies[..i + 1] == policies[..i] + [policies[i]];
    results', evs' := results + [violations], evs + [ev];
  }

  /**
   * Validate: every policy in order, its violations appended to the report
   * and counted by severity, its name listed when it raised nothing; then
   * the longest impersonation chain. `results[i]` is what policy i raised.
   * The Go method also returns an error, which is always nil.
   */
  method Validate(glob: Glob, config: PolicyConfig, bindings: seq<IAMBinding>, directAccess: DirectAccessMap,
                  graph: Graph)
    returns (report: ValidationReport, ghost results: seq<seq<Violation>>, ghost evs: seq<Evidence>,
             ghost start: string, ghost longest: seq<string>)
    ensures Outcomes(glob, bindings, directAccess, graph, config.policies, results, evs)
    ensures Summarizes(report, config.policies, results)
    ensures report.totalPolicies == |config.policies| && report.principalsAnalyzed == |directAccess|
    ensures report.highRiskFindings == []
    ensures report.maxChainDepth >= 0
    ensures forall p, c, t :: p in directAccess && Walk(graph, p, c, t) ==> Within(graph, p, t, report.maxChainDepth)
    ensures report.maxChainDepth > 0 ==> start in directAccess && Leaves(graph, start, longest, report.maxChainDepth)
    ensures report.maxChainDepth > 0 ==> NoShorter(graph, start, longest[|longest| - 1], report.maxChainDepth)
  {
    var policies := config.policies;
    report := ValidationReport(|policies|, 0, 0, 0, 0, [], [], |directAccess|, 0, []);
    results, evs := [], [];
    for i := 0 to |policies|
      invariant Outcomes(glob, bindings, directAccess, graph, policies[..i], results, evs)
      invariant Summarizes(report, policies[..i], results)
      invariant report.totalPolicies == |policies| && report.principalsAnalyzed == |directAccess|
      invariant report.highRiskFindings == []
    {
      report, results, evs := ValidateNext(glob, bindings, directAccess, graph, policies, i, report, results, evs);
    }
    assert policies[..|policies|] == policies;
    var maxDepth;
    maxDepth, start, longest := CalculateMaxChainDepth(directAccess, graph);
    report := report.(maxChainDepth := maxDepth);
  }

  // ---------------------------------------------------------------------
  // calculateMaxChainDepth.

  /** A queue entry of calculateMaxChainDepth: a principal and its distance in edges. */
  datatype DepthItem = DepthItem(principal: string, depth: int)

  /** `c` is a walk of impersonation edges from `root` that ends at `t` (the empty walk ends at the root). */
  ghost predicate Walk(graph: Graph, root: string, c: seq<string>, t: string) {
    IsPath(graph, root, c) && (if |c| == 0 then t == root else c[|c| - 1] == t)
  }

  /** t can be reached from root in at most d impersonation steps. */
  ghost predicate Within(graph: Graph, root: string, t: string, d: int) {
    exists c :: Walk(graph, root, c, t) && |c| <= d
  }

  /** `c` is a walk of length d from the root that ends at another principal. */
  ghost predicate Leaves(graph: Graph, root: string, c: seq<string>, d: int) {
    IsPath(graph, root, c) && |c| == d && |c| > 0 && c[|c| - 1] != root
  }

  ghost predicate InQueue(queue: seq<DepthItem>, p: string) {
    exists k :: 0 <= k < |queue| && queue[k].principal == p
  }

  /** Extending a walk by one edge from its end gives a walk to the edge's target. */
  lemma WalkExtend(graph: Graph, root: string, c: seq<string>, p: string, t: string)
    requires Walk(graph, root, c, p) && HasEdge(graph, p, t)
    ensures Walk(graph, root, c + [t], t)
  {
    var c' := c + [t];
    assert forall i :: 0 <= i < |c| ==> c'[i] == c[i];
  }

  /** A set that holds the root and is closed under edges holds the end of every walk from the root. */
  lemma {:induction false} ClosedHoldsWalks(graph: Graph, root: string, s: set<string>, c: seq<string>, t: string)
    requires root in s
    requires forall v, u :: v in s && HasEdge(graph, v, u) ==> u in s
    requires Walk(graph, root, c, t)
    ensures t in s
    decreases |c|
  {
    if |c| > 0 {
      var c' := c[..|c| - 1];
      var p := if |c'| == 0 then root else c'[|c'| - 1];
      assert Walk(graph, root, c', p) by {
        assert forall i :: 0 <= i < |c'| ==> c'[i] == c[i];
      }
      ClosedHoldsWalks(graph, root, s, c', p);
      if |c'| > 0 {
        assert HasEdge(graph, c[|c| - 2], c[|c| - 1]);
      }
    }
  }

  /** A walk that leaves its root uses an edge from the root to another principal. */
  lemma {:induction false} WalkLeavesRoot(graph: Graph, root: string, c: seq<string>)
    requires IsPath(graph, root, c) && |c| > 0 && c[|c| - 1] != root
    ensures exists t :: HasEdge(graph, root, t) && t != root
    decreases |c|
  {
    if c[0] == root {
      var c' := c[1..];
      assert forall i :: 0 <= i < |c'| ==> c'[i] == c[i + 1];
      WalkLeavesRoot(graph, root, c');
    } else {
      assert HasEdge(graph, root, c[0]);
    }
  }

  /** Each queue entry carries a walk from the root to its principal whose length is its depth. */
  ghost predicate QueueOk(graph: Graph, root: string, universe: set<string>, visited: set<string>,
                          queue: seq<DepthItem>, walks: seq<seq<string>>)
  {
    |walks| == |queue| &&
    forall k :: 0 <= k < |queue| ==>
      queue[k].principal in universe && Walk(graph, root, walks[k], queue[k].principal) &&
      queue[k].depth == |walks[k]| && (queue[k].depth > 0 ==> root in visited)
  }

  /** The visited principals, the queue and the edges still to follow. */
  ghost predicate Frontier(graph: Graph, root: string, universe: set<string>, visited: set<string>,
                           queue: seq<DepthItem>, walks: seq<seq<string>>)
  {
    && universe == Universe(graph, root)
    && visited <= universe
    && QueueOk(graph, root, universe, visited, queue, walks)
    && (forall v, t :: v in visited && HasEdge(graph, v, t) ==> t in visited || InQueue(queue, t))
    && (root in visited || queue == [DepthItem(root, 0)])
  }

  /** A walk of each visited principal within the running maximum, and a walk as long as a raised maximum. */
  ghost predicate WalksRecorded(graph: Graph, root: string, maxDepth0: int, maxDepth: int, visited: set<string>,
                           walkOf: map<string, seq<string>>, longest: seq<string>)
  {
    && walkOf.Keys == visited
    && (forall v :: v in walkOf ==> Walk(graph, root, walkOf[v], v) && |walkOf[v]| <= maxDepth)
    && 0 <= maxDepth0 <= maxDepth
    && (maxDepth0 < maxDepth ==> Leaves(graph, root, longest, maxDepth))
  }

  /** The facts the breadth-first loop of one start principal keeps. */
  ghost predicate DepthInv(graph: Graph, root: string, universe: set<string>, maxDepth0: int, maxDepth: int,
                           visited: set<string>, queue: seq<DepthItem>, walks: seq<seq<string>>,
                           walkOf: map<string, seq<string>>, longest: seq<string>)
  {
    Frontier(graph, root, universe, visited, queue, walks) &&
    WalksRecorded(graph, root, maxDepth0, maxDepth, visited, walkOf, longest)
  }

  lemma DepthInit(graph: Graph, root: string, maxDepth0: int)
    requires maxDepth0 >= 0
    ensures DepthInv(graph, root, Universe(graph, root), maxDepth0, maxDepth0, {}, [DepthItem(root, 0)], [[]], map[], [])
  {
    assert Walk(graph, root, [], root);
  }

  /**
   * The search from one start principal, folded into the running maximum:
   * every principal reachable from the root is reached within `maxDepth`
   * steps, and a raised maximum is the length of a walk that leaves the root.
   */
  method DepthFrom(graph: Graph, root: string, maxDepth0: int)
    returns (maxDepth: int, ghost longest: seq<string>)
    requires maxDepth0 >= 0
    ensures maxDepth0 <= maxDepth
    ensures forall c, t :: Walk(graph, root, c, t) ==> Within(graph, root, t, maxDepth)
    ensures maxDepth0 < maxDepth ==> Leaves(graph, root, longest, maxDepth)
    ensures maxDepth0 < maxDepth ==> NoShorter(graph, root, longest[|longest| - 1], maxDepth)
  {
    maxDepth := maxDepth0;
    longest := [];
    var visited: set<string> := {};
    var queue := [DepthItem(root, 0)];
    ghost var walks: seq<seq<string>> := [[]];
    ghost var walkOf: map<string, seq<string>> := map[];
    ghost var universe := Universe(graph, root);
    DepthInit(graph, root, maxDepth0);
    assert Layered(graph, root, visited, queue, walkOf);
    while |queue| > 0
      invariant DepthInv(graph, root, universe, maxDepth0, maxDepth, visited, queue, walks, walkOf, longest)
      invariant Layered(graph, root, visited, queue, walkOf)
      invariant LongestIsShortest(graph, root, maxDepth0, maxDepth, longest)
      decreases |universe - visited|, |queue|
    {
      visited, queue, maxDepth, walks, walkOf, longest :=
        DepthStep(graph, root, universe, maxDepth0, maxDepth, visited, queue, walks, walkOf, longest);
    }
    AllWithin(graph, root, visited, walkOf, maxDepth);
  }

  /** When the search is over, the recorded walks bound the distance of everything reachable. */
  lemma AllWithin(graph: Graph, root: string, visited: set<string>, walkOf: map<string, seq<string>>, maxDepth: int)
    requires root in visited && walkOf.Keys == visited
    requires forall v :: v in walkOf ==> Walk(graph, root, walkOf[v], v) && |walkOf[v]| <= maxDepth
    requires forall v, t :: v in visited && HasEdge(graph, v, t) ==> t in visited
    ensures forall c, t :: Walk(graph, root, c, t) ==> Within(graph, root, t, maxDepth)
  {
    forall c, t | Walk(graph, root, c, t)
      ensures Within(graph, root, t, maxDepth)
    {
      ClosedHoldsWalks(graph, root, visited, c, t);
      assert Walk(graph, root, walkOf[t], t);
    }
  }

  /** One turn of the loop: pop the head; skip it if visited, else visit it, raise the maximum and queue its targets. */
  method DepthStep(graph: Graph, root: string, ghost universe: set<string>, ghost maxDepth0: int, maxDepth1: int,
                   visited0: set<string>, queue0: seq<DepthItem>, ghost walks0: seq<seq<string>>,
                   ghost walkOf0: map<string, seq<string>>, ghost longest0: seq<string>)
    returns (visited: set<string>, queue: seq<DepthItem>, maxDepth: int, ghost walks: seq<seq<string>>,
             ghost walkOf: map<string, seq<string>>, ghost longest: seq<string>)
    requires |queue0| > 0
    requires DepthInv(graph, root, universe, maxDepth0, maxDepth1, visited0, queue0, walks0, walkOf0, longest0)
    requires Layered(graph, root, visited0, queue0, walkOf0)
    requires LongestIsShortest(graph, root, maxDepth0, maxDepth1, longest0)
    ensures DepthInv(graph, root, universe, maxDepth0, maxDepth, visited, queue, walks, walkOf, longest)
    ensures Layered(graph, root, visited, queue, walkOf)
    ensures LongestIsShortest(graph, root, maxDepth0, maxDepth, longest)
    ensures |universe - visited| < |universe - visited0| ||
      (|universe - visited| == |universe - visited0| && |queue| < |queue0|)
  {
    if queue0[0].principal in visited0 {
      visited, maxDepth, walkOf, longest := visited0, maxDepth1, walkOf0, longest0;
      queue, walks := queue0[1..], walks0[1..];
      PopVisitedDepth(graph, root, universe, maxDepth0, maxDepth, visited, queue0, walks0, walkOf, longest);
      PopVisitedLayered(graph, root, visited, queue0, walkOf);
    } else {
      visited, queue, maxDepth, walks, walkOf, longest :=
        VisitHead(graph, root, universe, maxDepth0, maxDepth1, visited0, queue0, walks0, walkOf0, longest0);
    }
  }

  /** The turn that visits an unvisited head: record it, raise the maximum, and queue its targets. */
  method VisitHead(graph: Graph, root: string, ghost universe: set<string>, ghost maxDepth0: int, maxDepth1: int,
                   visited0: set<string>, queue0: seq<DepthItem>, ghost walks0: seq<seq<string>>,
                   ghost walkOf0: map<string, seq<string>>, ghost longest0: seq<string>)
    returns (visited: set<string>, queue: seq<DepthItem>, maxDepth: int, ghost walks: seq<seq<string>>,
             ghost walkOf: map<string, seq<string>>, ghost longest: seq<string>)
    requires |queue0| > 0 && queue0[0].principal !in visited0
    requires DepthInv(graph, root, universe, maxDepth0, maxDepth1, visited0, queue0, walks0, walkOf0, longest0)
    requires Layered(graph, root, visited0, queue0, walkOf0)
    requires LongestIsShortest(graph, root, maxDepth0, maxDepth1, longest0)
    ensures DepthInv(graph, root, universe, maxDepth0, maxDepth, visited, queue, walks, walkOf, longest)
    ensures Layered(graph, root, visited, queue, walkOf)
    ensures LongestIsShortest(graph, root, maxDepth0, maxDepth, longest)
    ensures |universe - visited| < |universe - visited0|
  {
    var current := queue0[0];
    ghost var w := walks0[0];
    visited := visited0 + {current.principal};
    walkOf := walkOf0[current.principal := w];
    maxDepth, longest := maxDepth1, longest0;
    if current.depth > maxDepth {
      maxDepth := current.depth;
      longest := w;
    }
    queue, walks := PopAndQueue(graph, root, universe, visited0, visited, queue0, walks0);
    VisitDepth(graph, root, universe, maxDepth0, maxDepth1, visited0, queue0, walks0, walkOf0, longest0,
               maxDepth, longest, queue, walks);
    VisitLayered(graph, root, visited0, queue0, w, walkOf0, queue);
    VisitLongest(graph, root, maxDepth0, maxDepth1, longest0, maxDepth, longest, current, w, walkOf);
  }

  /** The queue after the head is taken and its targets are appended one step deeper. */
  ghost predicate QueuedAfter(graph: Graph, queue0: seq<DepthItem>, queue: seq<DepthItem>) {
    && |queue0| > 0 && |queue0| - 1 <= |queue| && queue[..|queue0| - 1] == queue0[1..]
    && (forall k :: |queue0| - 1 <= k < |queue| ==> queue[k].depth == queue0[0].depth + 1)
    && (forall t :: HasEdge(graph, queue0[0].principal, t) ==> InQueueAt(queue, t, queue0[0].depth + 1))
  }

  lemma QueuedAtQueued(graph: Graph, queue0: seq<DepthItem>, queue: seq<DepthItem>)
    requires QueuedAfter(graph, queue0, queue)
    ensures forall t :: HasEdge(graph, queue0[0].principal, t) ==> InQueue(queue, t)
  {
    forall t | HasEdge(graph, queue0[0].principal, t)
      ensures InQueue(queue, t)
    {
      var k :| 0 <= k < |queue| && queue[k] == DepthItem(t, queue0[0].depth + 1);
    }
  }

  /** Take the head off the queue and, when it has targets, queue each of them one step deeper. */
  method PopAndQueue(graph: Graph, root: string, ghost universe: set<string>, ghost visited0: set<string>,
                     ghost visited: set<string>, queue0: seq<DepthItem>, ghost walks0: seq<seq<string>>)
    returns (queue: seq<DepthItem>, ghost walks: seq<seq<string>>)
    requires |queue0| > 0 && visited == visited0 + {queue0[0].principal} && root in visited
    requires universe == Universe(graph, root)
    requires QueueOk(graph, root, universe, visited0, queue0, walks0)
    ensures QueueOk(graph, root, universe, visited, queue, walks)
    ensures QueuedAfter(graph, queue0, queue)
  {
    var current := queue0[0];
    PopQueueOk(graph, root, universe, visited0, visited, queue0, walks0);
    queue, walks := queue0[1..], walks0[1..];
    if current.principal in graph {
      queue, walks := QueueTargets(graph, root, universe, visited, current, walks0[0], queue, walks);
    }
  }

  /** A maximum raised by the visit is the depth, and so the distance, of the principal just visited. */
  lemma VisitLongest(graph: Graph, root: string, maxDepth0: int, maxDepth1: int, longest0: seq<string>,
                     maxDepth: int, longest: seq<string>, current: DepthItem, w: seq<string>,
                     walkOf: map<string, seq<string>>)
    requires 0 <= maxDepth0 <= maxDepth1 && LongestIsShortest(graph, root, maxDepth0, maxDepth1, longest0)
    requires Walk(graph, root, w, current.principal) && current.depth == |w|
    requires current.depth > maxDepth1 ==> maxDepth == current.depth && longest == w
    requires current.depth <= maxDepth1 ==> maxDepth == maxDepth1 && longest == longest0
    requires current.principal in walkOf && walkOf[current.principal] == w && AtDistance(graph, root, walkOf)
    ensures LongestIsShortest(graph, root, maxDepth0, maxDepth, longest)
  {
  }

  /** Popping an already visited head keeps the loop invariant. */
  lemma PopVisitedDepth(graph: Graph, root: string, universe: set<string>, maxDepth0: int, maxDepth: int,
                        visited: set<string>, queue: seq<DepthItem>, walks: seq<seq<string>>,
                        walkOf: map<string, seq<string>>, longest: seq<string>)
    requires |queue| > 0 && queue[0].principal in visited
    requires DepthInv(graph, root, universe, maxDepth0, maxDepth, visited, queue, walks, walkOf, longest)
    ensures DepthInv(graph, root, universe, maxDepth0, maxDepth, visited, queue[1..], walks[1..], walkOf, longest)
  {
    PopQueueOk(graph, root, universe, visited, visited, queue, walks);
    PopQueued(queue);
  }

  /** Popping an unvisited head, recording its walk and queueing its targets keeps the loop invariant. */
  lemma VisitDepth(graph: Graph, root: string, universe: set<string>, maxDepth0: int, maxDepth1: int,
                   visited0: set<string>, queue0: seq<DepthItem>, walks0: seq<seq<string>>,
                   walkOf0: map<string, seq<string>>, longest0: seq<string>,
                   maxDepth: int, longest: seq<string>, queue: seq<DepthItem>, walks: seq<seq<string>>)
    requires |queue0| > 0 && queue0[0].principal !in visited0
    requires DepthInv(graph, root, universe, maxDepth0, maxDepth1, visited0, queue0, walks0, walkOf0, longest0)
    requires queue0[0].depth > maxDepth1 ==> maxDepth == queue0[0].depth && longest == walks0[0]
    requires queue0[0].depth <= maxDepth1 ==> maxDepth == maxDepth1 && longest == longest0
    requires QueueOk(graph, root, universe, visited0 + {queue0[0].principal}, queue, walks)
    requires QueuedAfter(graph, queue0, queue)
    ensures DepthInv(graph, root, universe, maxDepth0, maxDepth, visited0 + {queue0[0].principal}, queue, walks,
                     walkOf0[queue0[0].principal := walks0[0]], longest)
    ensures |universe - (visited0 + {queue0[0].principal})| < |universe - visited0|
  {
    var p := queue0[0].principal;
    assert universe - visited0 == (universe - (visited0 + {p})) + {p};
    QueuedAtQueued(graph, queue0, queue);
    VisitFrontier(graph, root, universe, visited0, queue0, walks0, queue, walks);
    VisitRecorded(graph, root, universe, maxDepth0, maxDepth1, visited0, queue0, walks0, walkOf0, longest0,
                  maxDepth, longest);
  }

  lemma VisitFrontier(graph: Graph, root: string, universe: set<string>, visited0: set<string>,
                      queue0: seq<DepthItem>, walks0: seq<seq<string>>, queue: seq<DepthItem>, walks: seq<seq<string>>)
    requires |queue0| > 0
    requires Frontier(graph, root, universe, visited0, queue0, walks0)
    requires QueueOk(graph, root, universe, visited0 + {queue0[0].principal}, queue, walks)
    requires |queue0| - 1 <= |queue| && queue[..|queue0| - 1] == queue0[1..]
    requires forall t :: HasEdge(graph, queue0[0].principal, t) ==> InQueue(queue, t)
    ensures Frontier(graph, root, universe, visited0 + {queue0[0].principal}, queue, walks)
  {
    assert queue0[0].principal in universe;
    ClosureAfterVisit(graph, visited0, queue0, queue);
  }

  lemma VisitRecorded(graph: Graph, root: string, universe: set<string>, maxDepth0: int, maxDepth1: int,
                      visited0: set<string>, queue0: seq<DepthItem>, walks0: seq<seq<string>>,
                      walkOf0: map<string, seq<string>>, longest0: seq<string>, maxDepth: int, longest: seq<string>)
    requires |queue0| > 0 && queue0[0].principal !in visited0
    requires QueueOk(graph, root, universe, visited0, queue0, walks0)
    requires WalksRecorded(graph, root, maxDepth0, maxDepth1, visited0, walkOf0, longest0)
    requires queue0[0].depth > maxDepth1 ==> maxDepth == queue0[0].depth && longest == walks0[0]
    requires queue0[0].depth <= maxDepth1 ==> maxDepth == maxDepth1 && longest == longest0
    ensures WalksRecorded(graph, root, maxDepth0, maxDepth, visited0 + {queue0[0].principal},
                     walkOf0[queue0[0].principal := walks0[0]], longest)
  {
    var p := queue0[0].principal;
    assert Walk(graph, root, walks0[0], p) && queue0[0].depth == |walks0[0]|;
    if queue0[0].depth > maxDepth1 {
      assert root in visited0 && p != root;
    }
  }

  /** Visiting the head and queueing all its targets keeps every edge from a visited principal covered. */
  lemma ClosureAfterVisit(graph: Graph, visited0: set<string>, queue0: seq<DepthItem>, queue: seq<DepthItem>)
    requires |queue0| > 0
    requires forall v, t :: v in visited0 && HasEdge(graph, v, t) ==> t in visited0 || InQueue(queue0, t)
    requires |queue0| - 1 <= |queue| && queue[..|queue0| - 1] == queue0[1..]
    requires forall t :: HasEdge(graph, queue0[0].principal, t) ==> InQueue(queue, t)
    ensures forall v, t :: v in visited0 + {queue0[0].principal} && HasEdge(graph, v, t) ==>
      t in visited0 + {queue0[0].principal} || InQueue(queue, t)
  {
    PopQueued(queue0);
    QueuedPrefixKept(queue0[1..], queue);
  }

  /** Go's loop over the targets of the principal just visited, each queued one step further. */
  method QueueTargets(graph: Graph, root: string, ghost universe: set<string>, ghost visited: set<string>,
                      current: DepthItem, ghost w: seq<string>, queue0: seq<DepthItem>, ghost walks0: seq<seq<string>>)
    returns (queue: seq<DepthItem>, ghost walks: seq<seq<string>>)
    requires current.principal in graph && root in visited
    requires universe == Universe(graph, root)
    requires Walk(graph, root, w, current.principal) && current.depth == |w|
    requires QueueOk(graph, root, universe, visited, queue0, walks0)
    ensures QueueOk(graph, root, universe, visited, queue, walks)
    ensures |queue0| <= |queue| && queue[..|queue0|] == queue0
    ensures forall t :: HasEdge(graph, current.principal, t) ==> InQueue(queue, t)
    ensures forall k :: |queue0| <= k < |queue| ==> queue[k].depth == current.depth + 1
    ensures forall t :: HasEdge(graph, current.principal, t) ==> InQueueAt(queue, t, current.depth + 1)
  {
    queue, walks := queue0, walks0;
    var targets := graph[current.principal];
    for j := 0 to |targets|
      invariant QueueOk(graph, root, universe, visited, queue, walks)
      invariant |queue0| <= |queue| && queue[..|queue0|] == queue0
      invariant forall t :: t in targets[..j] ==> InQueue(queue, t)
      invariant forall k :: |queue0| <= k < |queue| ==> queue[k].depth == current.depth + 1
      invariant forall t :: t in targets[..j] ==> InQueueAt(queue, t, current.depth + 1)
    {
      var target := targets[j];
      assert HasEdge(graph, current.principal, target) by { assert targets[j] in targets; }
      InUniverse(graph, root, current.principal, target);
      WalkExtend(graph, root, w, current.principal, target);
      assert targets[..j + 1] == targets[..j] + [target];
      AppendKeepsQueued(queue, DepthItem(target, current.depth + 1));
      AppendKeepsQueuedAt(queue, DepthItem(target, current.depth + 1));
      queue := queue + [DepthItem(target, current.depth + 1)];
      walks := walks + [w + [target]];
    }
    assert targets[..|targets|] == targets;
  }

  /** Taking the head off the queue keeps the walks of the rest, also once more principals are visited. */
  lemma PopQueueOk(graph: Graph, root: string, universe: set<string>, visited0: set<string>, visited: set<string>,
                   queue: seq<DepthItem>, walks: seq<seq<string>>)
    requires |queue| > 0 && visited0 <= visited
    requires QueueOk(graph, root, universe, visited0, queue, walks)
    ensures QueueOk(graph, root, universe, visited, queue[1..], walks[1..])
  {
    assert forall k :: 0 <= k < |queue| - 1 ==> queue[1..][k] == queue[k + 1] && walks[1..][k] == walks[k + 1];
  }

  lemma PopQueued(queue: seq<DepthItem>)
    requires |queue| > 0
    ensures forall t :: InQueue(queue, t) ==> t == queue[0].principal || InQueue(queue[1..], t)
  {
    forall t | InQueue(queue, t)
      ensures t == queue[0].principal || InQueue(queue[1..], t)
    {
      var k :| 0 <= k < |queue| && queue[k].principal == t;
      if k > 0 {
        assert queue[1..][k - 1] == queue[k];
      }
    }
  }

  lemma AppendKeepsQueued(queue: seq<DepthItem>, item: DepthItem)
    ensures forall t :: InQueue(queue, t) ==> InQueue(queue + [item], t)
    ensures InQueue(queue + [item], item.principal)
  {
    var q := queue + [item];
    assert q[|queue|] == item;
    forall t | InQueue(queue, t)
      ensures InQueue(q, t)
    {
      var k :| 0 <= k < |queue| && queue[k].principal == t;
      assert q[k] == queue[k];
    }
  }

  lemma AppendKeepsQueuedAt(queue: seq<DepthItem>, item: DepthItem)
    ensures forall t, d :: InQueueAt(queue, t, d) ==> InQueueAt(queue + [item], t, d)
    ensures InQueueAt(queue + [item], item.principal, item.depth)
  {
    var q := queue + [item];
    assert q[|queue|] == item;
    forall t, d | InQueueAt(queue, t, d)
      ensures InQueueAt(q, t, d)
    {
      var k :| 0 <= k < |queue| && queue[k] == DepthItem(t, d);
      assert q[k] == queue[k];
    }
  }

  lemma QueuedPrefixKept(q0: seq<DepthItem>, q: seq<DepthItem>)
    requires |q0| <= |q| && q[..|q0|] == q0
    ensures forall t :: InQueue(q0, t) ==> InQueue(q, t)
  {
    forall t | InQueue(q0, t)
      ensures InQueue(q, t)
    {
      var k :| 0 <= k < |q0| && q0[k].principal == t;
      assert q[k] == q0[k];
    }
  }

  // Why the search is breadth-first: the depth at which a principal is
  // first visited is its distance from the root.

  /** The queue holds p at depth d. */
  ghost predicate InQueueAt(queue: seq<DepthItem>, p: string, d: int) {
    exists k :: 0 <= k < |queue| && queue[k] == DepthItem(p, d)
  }

  /** Queue depths never decrease and are at most one more than the head's. */
  ghost predicate DepthsOrdered(queue: seq<DepthItem>) {
    && (forall i, j :: 0 <= i < j < |queue| ==> queue[i].depth <= queue[j].depth)
    && (forall k :: 0 <= k < |queue| ==> queue[k].depth <= queue[0].depth + 1)
  }

  /** No walk from root to t is shorter than d. */
  ghost predicate NoShorter(graph: Graph, root: string, t: string, d: int) {
    forall c :: Walk(graph, root, c, t) ==> |c| >= d
  }

  /** t is exactly d impersonation steps away from root. */
  ghost predicate Distance(graph: Graph, root: string, t: string, d: int) {
    Within(graph, root, t, d) && NoShorter(graph, root, t, d)
  }

  /** Every principal with a walk shorter than d is visited. */
  ghost predicate LayersDone(graph: Graph, root: string, visited: set<string>, d: int) {
    forall c, t :: Walk(graph, root, c, t) && |c| < d ==> t in visited
  }

  /** Each visited principal was visited at its distance. */
  ghost predicate AtDistance(graph: Graph, root: string, walkOf: map<string, seq<string>>) {
    forall v :: v in walkOf ==> NoShorter(graph, root, v, |walkOf[v]|)
  }

  /** Each target of a visited principal is visited, or queued one step deeper than that principal. */
  ghost predicate TargetsQueued(graph: Graph, visited: set<string>, queue: seq<DepthItem>,
                                walkOf: map<string, seq<string>>)
  {
    forall v, t :: v in visited && v in walkOf && HasEdge(graph, v, t) ==>
      t in visited || InQueueAt(queue, t, |walkOf[v]| + 1)
  }

  /** The facts that make the search breadth-first. */
  ghost predicate Layered(graph: Graph, root: string, visited: set<string>, queue: seq<DepthItem>,
                          walkOf: map<string, seq<string>>)
  {
    && DepthsOrdered(queue)
    && AtDistance(graph, root, walkOf)
    && (|queue| > 0 ==> LayersDone(graph, root, visited, queue[0].depth))
    && TargetsQueued(graph, visited, queue, walkOf)
  }

  /** A raised maximum is the distance of the principal its walk ends at. */
  ghost predicate LongestIsShortest(graph: Graph, root: string, maxDepth0: int, maxDepth: int, longest: seq<string>) {
    maxDepth0 < maxDepth ==> |longest| > 0 && NoShorter(graph, root, longest[|longest| - 1], maxDepth)
  }

  /** A non-empty walk is a walk one step shorter followed by one edge. */
  lemma WalkLast(graph: Graph, root: string, c: seq<string>, t: string)
    requires Walk(graph, root, c, t) && |c| > 0
    ensures var u := if |c| == 1 then root else c[|c| - 2];
      Walk(graph, root, c[..|c| - 1], u) && HasEdge(graph, u, t)
  {
    var c' := c[..|c| - 1];
    assert forall i :: 0 <= i < |c'| ==> c'[i] == c[i];
  }

  /**
   * Once every queued entry is deeper than d, every principal d steps away
   * is visited: its predecessor on the walk is nearer, hence visited, and
   * queued it no deeper than d.
   */
  lemma LayerComplete(graph: Graph, root: string, visited: set<string>, queue: seq<DepthItem>,
                      walkOf: map<string, seq<string>>, c: seq<string>, t: string)
    requires root in visited && visited == walkOf.Keys
    requires LayersDone(graph, root, visited, |c|)
    requires AtDistance(graph, root, walkOf) && TargetsQueued(graph, visited, queue, walkOf)
    requires forall k :: 0 <= k < |queue| ==> queue[k].depth > |c|
    requires Walk(graph, root, c, t)
    ensures t in visited
  {
    if |c| > 0 {
      var u := if |c| == 1 then root else c[|c| - 2];
      WalkLast(graph, root, c, t);
      assert u in visited;
      assert |walkOf[u]| <= |c| - 1;
      assert !InQueueAt(queue, t, |walkOf[u]| + 1);
    }
  }

  /** When the head is deeper than d and the layers below d are done, the layers below the head are done. */
  lemma NextLayer(graph: Graph, root: string, visited: set<string>, queue: seq<DepthItem>,
                  walkOf: map<string, seq<string>>, d: int)
    requires |queue| > 0 && root in visited && visited == walkOf.Keys
    requires LayersDone(graph, root, visited, d)
    requires AtDistance(graph, root, walkOf) && TargetsQueued(graph, visited, queue, walkOf)
    requires DepthsOrdered(queue) && queue[0].depth <= d + 1
    ensures LayersDone(graph, root, visited, queue[0].depth)
  {
    forall c, w | Walk(graph, root, c, w) && |c| < queue[0].depth
      ensures w in visited
    {
      if |c| >= d {
        LayerComplete(graph, root, visited, queue, walkOf, c, w);
      }
    }
  }

  /** The queue after the head is taken and deeper entries appended stays ordered, none above the old head. */
  lemma OrderedAfterPop(queue0: seq<DepthItem>, queue: seq<DepthItem>)
    requires |queue0| > 0 && DepthsOrdered(queue0)
    requires |queue0| - 1 <= |queue| && queue[..|queue0| - 1] == queue0[1..]
    requires forall k :: |queue0| - 1 <= k < |queue| ==> queue[k].depth == queue0[0].depth + 1
    ensures DepthsOrdered(queue)
    ensures forall k :: 0 <= k < |queue| ==> queue[k].depth >= queue0[0].depth
  {
    var n := |queue0| - 1;
    assert forall k :: 0 <= k < n ==> queue[k] == queue0[k + 1];
  }

  /** Skipping a visited head keeps the search breadth-first. */
  lemma PopVisitedLayered(graph: Graph, root: string, visited: set<string>, queue: seq<DepthItem>,
                          walkOf: map<string, seq<string>>)
    requires |queue| > 0 && queue[0].principal in visited && root in visited && visited == walkOf.Keys
    requires Layered(graph, root, visited, queue, walkOf)
    ensures Layered(graph, root, visited, queue[1..], walkOf)
  {
    var q := queue[1..];
    OrderedAfterPop(queue, q);
    PopTargetsQueued(graph, visited, queue, walkOf);
    if |q| > 0 {
      NextLayer(graph, root, visited, q, walkOf, queue[0].depth);
    }
  }

  /** The head taken off the queue is visited, so the targets it stood for stay covered. */
  lemma PopTargetsQueued(graph: Graph, visited: set<string>, queue: seq<DepthItem>, walkOf: map<string, seq<string>>)
    requires |queue| > 0 && queue[0].principal in visited
    requires TargetsQueued(graph, visited, queue, walkOf)
    ensures TargetsQueued(graph, visited, queue[1..], walkOf)
  {
    var q := queue[1..];
    forall v, w | v in visited && v in walkOf && HasEdge(graph, v, w)
      ensures w in visited || InQueueAt(q, w, |walkOf[v]| + 1)
    {
      if w !in visited {
        var k :| 0 <= k < |queue| && queue[k] == DepthItem(w, |walkOf[v]| + 1);
        assert q[k - 1] == queue[k];
      }
    }
  }

  /** Visiting an unvisited head at its depth and queueing its targets one deeper keeps the search breadth-first. */
  lemma VisitLayered(graph: Graph, root: string, visited0: set<string>, queue0: seq<DepthItem>, w0: seq<string>,
                     walkOf0: map<string, seq<string>>, queue: seq<DepthItem>)
    requires |queue0| > 0 && queue0[0].principal !in visited0 && visited0 == walkOf0.Keys
    requires root in visited0 + {queue0[0].principal} && queue0[0].depth == |w0|
    requires Layered(graph, root, visited0, queue0, walkOf0)
    requires QueuedAfter(graph, queue0, queue)
    ensures Layered(graph, root, visited0 + {queue0[0].principal}, queue, walkOf0[queue0[0].principal := w0])
  {
    var p, d := queue0[0].principal, queue0[0].depth;
    var visited, walkOf := visited0 + {p}, walkOf0[p := w0];
    OrderedAfterPop(queue0, queue);
    VisitAtDistance(graph, root, visited0, walkOf0, p, w0, d);
    VisitTargetsQueued(graph, visited0, queue0, walkOf0, w0, queue);
    assert LayersDone(graph, root, visited, d);
    if |queue| > 0 {
      NextLayer(graph, root, visited, queue, walkOf, d);
    }
  }

  /** A principal still unvisited while everything nearer than d is visited has no walk shorter than d. */
  lemma VisitAtDistance(graph: Graph, root: string, visited0: set<string>, walkOf0: map<string, seq<string>>,
                        p: string, w0: seq<string>, d: int)
    requires p !in visited0 && LayersDone(graph, root, visited0, d) && d == |w0|
    requires AtDistance(graph, root, walkOf0)
    ensures AtDistance(graph, root, walkOf0[p := w0])
  {
    forall c | Walk(graph, root, c, p)
      ensures |c| >= d
    {
      assert |c| < d ==> p in visited0;
    }
  }

  /** After the visit, every target of a visited principal is visited or suitably queued. */
  lemma VisitTargetsQueued(graph: Graph, visited0: set<string>, queue0: seq<DepthItem>,
                           walkOf0: map<string, seq<string>>, w0: seq<string>, queue: seq<DepthItem>)
    requires |queue0| > 0 && queue0[0].depth == |w0|
    requires TargetsQueued(graph, visited0, queue0, walkOf0)
    requires |queue0| - 1 <= |queue| && queue[..|queue0| - 1] == queue0[1..]
    requires forall w :: HasEdge(graph, queue0[0].principal, w) ==> InQueueAt(queue, w, queue0[0].depth + 1)
    ensures TargetsQueued(graph, visited0 + {queue0[0].principal}, queue, walkOf0[queue0[0].principal := w0])
  {
    var p := queue0[0].principal;
    var visited, walkOf := visited0 + {p}, walkOf0[p := w0];
    forall v, w | v in visited && v in walkOf && HasEdge(graph, v, w)
      ensures w in visited || InQueueAt(queue, w, |walkOf[v]| + 1)
    {
      if v != p && w !in visited {
        var k :| 0 <= k < |queue0| && queue0[k] == DepthItem(w, |walkOf0[v]| + 1);
        assert queue[k - 1] == queue0[k];
      }
    }
  }

  /**
   * calculateMaxChainDepth: a breadth-first search from every principal of
   * directAccess. Everything reachable from such a principal is reachable in
   * at most `maxDepth` steps, and a positive `maxDepth` is the length of a
   * walk from one of them to another principal that no shorter walk reaches.
   */
  method CalculateMaxChainDepth(directAccess: DirectAccessMap, graph: Graph)
    returns (maxDepth: int, ghost start: string, ghost longest: seq<string>)
    ensures maxDepth >= 0
    ensures forall p, c, t :: p in directAccess && Walk(graph, p, c, t) ==> Within(graph, p, t, maxDepth)
    ensures maxDepth > 0 ==> start in directAccess && Leaves(graph, start, longest, maxDepth)
    ensures maxDepth > 0 ==> NoShorter(graph, start, longest[|longest| - 1], maxDepth)
  {
    maxDepth := 0;
    start, longest := "", [];
    var pending := directAccess.Keys;
    while pending != {}
      invariant pending <= directAccess.Keys
      invariant maxDepth >= 0
      invariant forall p, c, t :: p in directAccess.Keys - pending && Walk(graph, p, c, t) ==> Within(graph, p, t, maxDepth)
      invariant maxDepth > 0 ==> start in directAccess && Leaves(graph, start, longest, maxDepth)
      invariant maxDepth > 0 ==> NoShorter(graph, start, longest[|longest| - 1], maxDepth)
      decreases pending
    {
      var principal :| principal in pending;
      var depth;
      ghost var walk;
      depth, walk := DepthFrom(graph, principal, maxDepth);
      WithinGrows(graph, directAccess.Keys - pending, maxDepth, depth);
      if depth > maxDepth {
        start, longest := principal, walk;
      }
      maxDepth := depth;
      pending := pending - {principal};
    }
  }

  /** A distance bound stays a bound when the maximum grows. */
  lemma WithinGrows(graph: Graph, roots: set<string>, d: int, d': int)
    requires d <= d'
    requires forall p, c, t :: p in roots && Walk(graph, p, c, t) ==> Within(graph, p, t, d)
    ensures forall p, c, t :: p in roots && Walk(graph, p, c, t) ==> Within(graph, p, t, d')
  {
    forall p, c, t | p in roots && Walk(graph, p, c, t)
      ensures Within(graph, p, t, d')
    {
      var c' :| Walk(graph, p, c', t) && |c'| <= d;
    }
  }

  /** The maximum is positive exactly when some principal of directAccess can impersonate another principal. */
  lemma MaxChainDepthPositive(directAccess: DirectAccessMap, graph: Graph, maxDepth: int, start: string, longest: seq<string>)
    requires maxDepth >= 0
    requires forall p, c, t :: p in directAccess && Walk(graph, p, c, t) ==> Within(graph, p, t, maxDepth)
    requires maxDepth > 0 ==> start in directAccess && Leaves(graph, start, longest, maxDepth)
    ensures maxDepth > 0 <==> exists p, t :: p in directAccess && HasEdge(graph, p, t) && t != p
  {
    if maxDepth > 0 {
      WalkLeavesRoot(graph, start, longest);
    }
    if exists p, t :: p in directAccess && HasEdge(graph, p, t) && t != p {
      var p, t :| p in directAccess && HasEdge(graph, p, t) && t != p;
      assert Walk(graph, p, [t], t);
      var c :| Walk(graph, p, c, t) && |c| <= maxDepth;
    }
  }
  /** A principal within d steps is at some distance of at most d from the root. */
  lemma {:induction false} DistanceExists(graph: Graph, root: string, t: string, d: int)
    requires Within(graph, root, t, d)
    ensures exists e :: 0 <= e <= d && Distance(graph, root, t, e)
    decreases d
  {
    var c :| Walk(graph, root, c, t) && |c| <= d;
    if NoShorter(graph, root, t, |c|) {
      assert Distance(graph, root, t, |c|);
    } else {
      var c' :| Walk(graph, root, c', t) && |c'| < |c|;
      DistanceExists(graph, root, t, |c| - 1);
    }
  }

  /**
   * What calculateMaxChainDepth computes: the largest distance, in
   * impersonation steps, from a principal of directAccess to anything it
   * reaches; 0 when there are none.
   */
  lemma MaxChainDepthIsLargestDistance(directAccess: DirectAccessMap, graph: Graph, maxDepth: int, start: string,
                                       longest: seq<string>)
    requires maxDepth >= 0
    requires forall p, c, t :: p in directAccess && Walk(graph, p, c, t) ==> Within(graph, p, t, maxDepth)
    requires maxDepth > 0 ==> start in directAccess && Leaves(graph, start, longest, maxDepth)
    requires maxDepth > 0 ==> NoShorter(graph, start, longest[|longest| - 1], maxDepth)
    ensures forall p, t, d :: p in directAccess && Distance(graph, p, t, d) ==> d <= maxDepth
    ensures forall p, c, t :: p in directAccess && Walk(graph, p, c, t) ==>
      exists d :: 0 <= d <= maxDepth && Distance(graph, p, t, d)
    ensures |directAccess| > 0 ==> exists p, t :: p in directAccess && Distance(graph, p, t, maxDepth)
  {
    forall p, t, d | p in directAccess && Distance(graph, p, t, d)
      ensures d <= maxDepth
    {
      var c :| Walk(graph, p, c, t) && |c| <= d;
      var c' :| Walk(graph, p, c', t) && |c'| <= maxDepth;
    }
    forall p, c, t | p in directAccess && Walk(graph, p, c, t)
      ensures exists d :: 0 <= d <= maxDepth && Distance(graph, p, t, d)
    {
      DistanceExists(graph, p, t, maxDepth);
    }
    if maxDepth > 0 {
      var t := longest[|longest| - 1];
      assert Walk(graph, start, longest, t);
      assert Distance(graph, start, t, maxDepth);
    } else if |directAccess| > 0 {
      var p :| p in directAccess;
      assert Walk(graph, p, [], p);
      assert Distance(graph, p, p, 0);
    }
  }


}
