/**
 * internal/policy/models.go: the policy configuration, the violations the
 * validators raise and the report that sums them up.
 *
 * Pointers to optional payload blocks become `Option`. Violation messages
 * and remediation hints are formatted strings in Go; here a violation
 * carries a `Message` value naming which message was raised with its
 * arguments, and `MessageText` / `Remediation` give the exact Go strings.
 */
module PolicyModels {
  import opened Util

  datatype PolicyConfig = PolicyConfig(cloudProvider: string, policies: seq<Policy>)

  /** A policy: its kind tag is an open string, and each kind has its own optional payload block. */
  datatype Policy = Policy(
    name: string,
    ptype: string,
    description: string,
    severity: string,
    roleRestriction: Option<RoleRestrictionPolicy>,
    persona: Option<PersonaPolicy>,
    resourceAccess: Option<ResourceAccessPolicy>,
    separationOfDuty: Option<SeparationOfDutyPolicy>,
    impersonationEscalation: Option<ImpersonationEscalation>,
    effectiveAccess: Option<EffectiveAccessPolicy>)

  const PolicyTypeRoleRestriction := "role_restriction"
  const PolicyTypePersona := "persona"
  const PolicyTypeResourceAccess := "resource_access"
  const PolicyTypeSeparationOfDuty := "separation_of_duty"
  const PolicyTypeImpersonationEscalation := "impersonation_escalation"
  const PolicyTypeEffectiveAccess := "effective_access"

  const SeverityError := "error"
  const SeverityWarning := "warning"
  const SeverityInfo := "info"

  predicate IsSeverity(s: string) {
    s == SeverityError || s == SeverityWarning || s == SeverityInfo
  }

  datatype PrincipalSelector = PrincipalSelector(principalPattern: string)
  datatype ResourceSelector = ResourceSelector(resourcePattern: string, resourceType: string)

  datatype RoleRestrictionPolicy = RoleRestrictionPolicy(
    selector: PrincipalSelector, allowedRoles: seq<string>, deniedRoles: seq<string>)

  datatype RequiredBinding = RequiredBinding(resourcePattern: string, resourceType: string, role: string)
  datatype ForbiddenBinding = ForbiddenBinding(resourcePattern: string, resourceType: string, role: string)
  datatype ResourcePattern = ResourcePattern(resourcePattern: string, resourceType: string)

  datatype TransitiveConstraints = TransitiveConstraints(
    maxImpersonationDepth: int,
    forbiddenTransitiveRoles: seq<string>,
    forbiddenTransitiveResources: seq<ResourcePattern>,
    allowedImpersonationTargets: seq<string>)

  datatype PersonaPolicy = PersonaPolicy(
    personaName: string,
    principals: seq<string>,
    requiredBindings: seq<RequiredBinding>,
    forbiddenBindings: seq<ForbiddenBinding>,
    allowAdditionalAccess: bool,
    validateTransitiveAccess: bool,
    transitiveConstraints: Option<TransitiveConstraints>)

  datatype ResourceAccessPolicy = ResourceAccessPolicy(
    selector: ResourceSelector,
    allowedPrincipals: seq<string>,
    allowedRolesPerPrincipal: map<string, seq<string>>,
    validateEffectiveAccess: bool)

  datatype SeparationOfDutyPolicy = SeparationOfDutyPolicy(conflictingRoles: seq<seq<string>>, scope: string)

  datatype EscalationRule = EscalationRule(
    fromRolePattern: string,
    toRolePattern: string,
    fromPrincipalPattern: string,
    toPrincipalPattern: string,
    toResourcePattern: string,
    via: string)

  datatype ImpersonationEscalation = ImpersonationEscalation(forbiddenEscalations: seq<EscalationRule>)

  datatype EffectiveAccessPolicy = EffectiveAccessPolicy(
    selector: ResourceSelector,
    validateEffectiveAccess: bool,
    allowedEffectivePrincipals: seq<string>,
    forbiddenEffectivePrincipals: seq<string>)

  /** The nine violation kinds, and the raw "unknown_type" tag the dispatcher emits. */
  datatype ViolationType =
    | ForbiddenRole | MissingRole | UnauthorizedPrincipal | ConflictingRoles | TransitiveRole
    | TransitiveResource | ImpersonationDepth | PrivilegeEscalation | EffectiveAccess | UnknownType

  function Tag(t: ViolationType): string {
    match t
    case ForbiddenRole => "forbidden_role"
    case MissingRole => "missing_role"
    case UnauthorizedPrincipal => "unauthorized_principal"
    case ConflictingRoles => "conflicting_roles"
    case TransitiveRole => "transitive_role"
    case TransitiveResource => "transitive_resource"
    case ImpersonationDepth => "impersonation_depth"
    case PrivilegeEscalation => "privilege_escalation"
    case EffectiveAccess => "effective_access"
    case UnknownType => "unknown_type"
  }

  /** Which message a violation carries, with the values formatted into it. */
  datatype Message =
    | UnknownPolicyType(ptype: string)
    | HasForbiddenRole
    | RoleNotAllowed
    | UnauthorizedPrincipalOnResource
    | UnauthorizedRoleOnResource
    | HasConflictingRoles(roles: seq<string>)
    | RequiredBindingMissing(role: string, resourcePattern: string)
    | ForbiddenAccess(resourceID: string)
    | ForbiddenRoleOnResource(role: string, resourceID: string)
    | DepthExceeded(depth: int, allowed: int)
    | ForbiddenTransitiveRole(role: string, chain: seq<string>)
    | ForbiddenTransitiveResource(resourceID: string, chain: seq<string>)
    | UnauthorizedTarget(target: string)
    | EscalationByRole(directRole: string, transitiveRole: string)
    | EscalationToResource(resourceID: string)
    | UnauthorizedEffectiveAccess(accessType: string)

  /** Go's `%v` of a []string: the elements separated by spaces, in brackets. */
  function FormatList(xs: seq<string>): string {
    "[" + Join(xs, " ") + "]"
  }

  /** The Message field's text: never empty. */
  function MessageText(m: Message): (r: string)
    ensures |r| > 0
  {
    match m
    case UnknownPolicyType(t) => "Unknown policy type: " + t
    case HasForbiddenRole => "Principal has forbidden role"
    case RoleNotAllowed => "Principal has role not in allowed list"
    case UnauthorizedPrincipalOnResource => "Unauthorized principal has access to resource"
    case UnauthorizedRoleOnResource => "Principal has unauthorized role on resource"
    case HasConflictingRoles(roles) => "Principal has conflicting roles: " + FormatList(roles)
    case RequiredBindingMissing(role, pattern) => "Required binding missing: " + role + " on " + pattern
    case ForbiddenAccess(r) => "Forbidden access to resource: " + r
    case ForbiddenRoleOnResource(role, r) => "Forbidden role " + role + " on resource " + r
    case DepthExceeded(d, a) =>
      "Max impersonation depth exceeded: " + IntToString(d) + " (allowed: " + IntToString(a) + ")"
    case ForbiddenTransitiveRole(role, chain) =>
      "Forbidden transitive role '" + role + "' via impersonation: " + Join(chain, " → ")
    case ForbiddenTransitiveResource(r, chain) =>
      "Forbidden transitive resource access: " + r + " via " + Join(chain, " → ")
    case UnauthorizedTarget(t) => "Impersonation of unauthorized target: " + t
    case EscalationByRole(d, t) => "Privilege escalation detected: " + d + " → " + t + " via impersonation"
    case EscalationToResource(r) => "Unauthorized transitive access to " + r
    case UnauthorizedEffectiveAccess(a) => "Unauthorized effective access (" + a + ") to resource"
  }

  /** The Remediation field: set on every violation except the unknown-type one. */
  function Remediation(m: Message): (r: string)
    ensures r == "" <==> m.UnknownPolicyType?
  {
    match m
    case UnknownPolicyType(_) => ""
    case HasForbiddenRole => "Remove role binding or update policy"
    case RoleNotAllowed => "Remove role binding or add role to allowed list"
    case UnauthorizedPrincipalOnResource => "Remove principal from resource access"
    case UnauthorizedRoleOnResource => "Change role to allowed role or remove binding"
    case HasConflictingRoles(_) => "Remove one of the conflicting roles"
    case RequiredBindingMissing(_, _) => "Add required role binding"
    case ForbiddenAccess(_) => "Remove role binding"
    case ForbiddenRoleOnResource(_, _) => "Remove role binding"
    case DepthExceeded(_, _) => "Remove impersonation permissions or increase allowed depth"
    case ForbiddenTransitiveRole(_, _) => "Remove impersonation permission in chain"
    case ForbiddenTransitiveResource(_, _) => "Remove impersonation permission in chain"
    case UnauthorizedTarget(_) => "Remove impersonation permission or add target to allowed list"
    case EscalationByRole(_, _) => "Remove impersonation permission in chain"
    case EscalationToResource(_) => "Remove impersonation permission in chain"
    case UnauthorizedEffectiveAccess(_) => "Remove principal access or update policy"
  }

  datatype Violation = Violation(
    policyName: string,
    violationType: ViolationType,
    severity: string,
    principal: string,
    resource: string,
    role: string,
    message: Message,
    impersonationChain: seq<string>)

  datatype ValidationReport = ValidationReport(
    totalPolicies: int,
    totalViolations: int,
    errorCount: int,
    warningCount: int,
    infoCount: int,
    violations: seq<Violation>,
    compliantPolicies: seq<string>,
    principalsAnalyzed: int,
    maxChainDepth: int,
    highRiskFindings: seq<string>)

  /** The kind tags a validator can emit are pairwise different, so a report's tags identify the kind. */
  lemma TagInjective(a: ViolationType, b: ViolationType)
    requires Tag(a) == Tag(b)
    ensures a == b
  {
  }
}
